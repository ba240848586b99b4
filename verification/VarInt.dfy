/** Variable-length integers (src/serialize.h:361-429): every number that is not negative has its own code, and no code starts another. */
module VarInt {
  import opened Arithmetic
  import opened Options
  import opened Limbs
  import opened Coins

  /** The bytes before the last one. */
  function Cont(m: nat): seq<Byte> {
    (if m <= 0x7f then [] else Cont(m / 128 - 1)) + [(m % 128 + 128) as Byte]
  }

  /** The code of a number. A negative number leaves only its last seven bits. */
  function Code(n: int): seq<Byte> {
    if n <= 0x7f then [n % 128] else Cont(n / 128 - 1) + [n % 128]
  }

  /** A number in a type of `width` values. */
  function Trunc(x: nat, width: nat): nat
    requires width > 0
  {
    x % width
  }

  /** What is read of a stream after the number n has been read so far, in a type of `width` values. */
  function ReadFrom(s: seq<Byte>, n: nat, width: nat): Option<(nat, seq<Byte>)>
    requires width > 0
  {
    if s == [] then None else
      var m := Trunc(n * 128 + s[0] % 128, width);
      if s[0] >= 128 then ReadFrom(s[1..], Trunc(m + 1, width), width) else Some((m, s[1..]))
  }

  function Read(s: seq<Byte>, width: nat): Option<(nat, seq<Byte>)>
    requires width > 0
  {
    ReadFrom(s, 0, width)
  }

  lemma ModSmall(x: int, m: int)
    requires 0 <= x < m
    ensures Trunc(x, m) == x
  {
  }

  lemma {:induction false} ReadCont(m: nat, t: seq<Byte>, width: nat)
    requires m + 1 < width
    ensures ReadFrom(Cont(m) + t, 0, width) == ReadFrom(t, m + 1, width)
  {
    hide ReadFrom, Trunc;
    var last: Byte := m % 128 + 128;
    ModSmall(m, width);
    ModSmall(m + 1, width);
    if m <= 0x7f {
      assert Cont(m) + t == [last] + t;
      ReadByte(last, t, 0, width);
    } else {
      assert Cont(m) + t == Cont(m / 128 - 1) + ([last] + t);
      ReadCont(m / 128 - 1, [last] + t, width);
      ReadByte(last, t, m / 128, width);
    }
  }

  lemma ReadByte(b: Byte, t: seq<Byte>, n: nat, width: nat)
    requires width > 0
    ensures ReadFrom([b] + t, n, width) ==
            var m := Trunc(n * 128 + b % 128, width); if b >= 128 then ReadFrom(t, Trunc(m + 1, width), width) else Some((m, t))
  {
    assert ([b] + t)[1..] == t;
  }

  /** Reading a code gives the number back and leaves what follows. */
  lemma ReadCode(n: nat, rest: seq<Byte>, width: nat)
    requires n < width
    ensures Read(Code(n) + rest, width) == Some((n, rest))
  {
    hide ReadFrom, Trunc, Cont;
    ModSmall(n, width);
    var last: Byte := n % 128;
    if n <= 0x7f {
      ReadByte(last, rest, 0, width);
    } else {
      assert Code(n) + rest == Cont(n / 128 - 1) + ([last] + rest);
      ReadCont(n / 128 - 1, [last] + rest, width);
      ReadByte(last, rest, n / 128, width);
    }
  }

  /** A negative number cannot be told from its last seven bits. */
  lemma CodeOfNegative(n: int)
    requires n < 0
    ensures 0 <= n % 128 < 128 && Code(n) == Code(n % 128)
  {
  }

  /** The value of the bytes before the last one, as the format is documented: one is added to each digit. */
  function Digits(a: seq<Byte>): nat {
    if a == [] then 0 else a[|a| - 1] % 128 + 1 + 128 * Digits(a[..|a| - 1])
  }

  lemma {:induction false} ContFormula(m: nat)
    ensures Digits(Cont(m)) == m + 1 && forall i | 0 <= i < |Cont(m)| :: Cont(m)[i] >= 128
  {
    var last: Byte := m % 128 + 128;
    assert last % 128 == m % 128;
    if m > 0x7f {
      ContFormula(m / 128 - 1);
      DigitsPush(Cont(m / 128 - 1), last);
    } else {
      DigitsPush([], last);
      assert Cont(m) == [last];
    }
    hide Digits;
  }

  lemma DigitsPush(a: seq<Byte>, b: Byte)
    ensures Digits(a + [b]) == b % 128 + 1 + 128 * Digits(a)
  {
    assert (a + [b])[..|a|] == a;
  }

  /** The documented format: digits in base 128, the most significant first, one subtracted from all but the last, and
      the high bit set in all but the last. */
  lemma CodeFormula(n: nat)
    ensures var a := Code(n); var k := |a| - 1;
            && k >= 0 && a[k] < 128 && (forall i | 0 <= i < k :: a[i] >= 128)
            && n == a[k] + 128 * Digits(a[..k])
  {
    var last: Byte := n % 128;
    if n > 0x7f {
      ContFormula(n / 128 - 1);
      var front := Cont(n / 128 - 1);
      assert Code(n) == front + [last] && (front + [last])[..|front|] == front;
    } else {
      assert Code(n) == [last] && [last][..0] == [];
    }
  }

  function Reversed(s: seq<Byte>): (r: seq<Byte>)
    ensures |r| == |s|
  {
    if s == [] then [] else [s[|s| - 1]] + Reversed(s[..|s| - 1])
  }

  /** What is still to be written of n0 when n is left of it and the bytes in s are waiting, the last one first. */
  function Pending(n: int, s: seq<Byte>): seq<Byte> {
    (if s == [] then Code(n) else if n >= 0 then Cont(n) else []) + Reversed(s)
  }

  /** Write a number of `bits` bits; the buffer is never too short. */
  method WriteVarInt(n0: int, bits: nat) returns (out: seq<Byte>)
    requires n0 < Pow2(bits) && bits > 0
    ensures out == Code(n0)
  {
    hide Pow2, Code, Cont, Reversed, Pending;
    var tmp := new Byte[(bits + 6) / 7];
    var n, len := n0, 0;
    NothingPending(n0);
    assert tmp[..0] == [];
    while n > 0x7f
      invariant 0 <= len && 7 * len < bits && n < Pow2(bits - 7 * len) && (len > 0 ==> n >= 0)
      invariant Pending(n, tmp[..len]) == Code(n0)
      decreases n
    {
      FitsStep(n, bits - 7 * len);
      assert 7 * (len + 1) < bits;
      ghost var s := tmp[..len];
      tmp[len] := n % 128 + if len != 0 then 0x80 else 0;
      assert tmp[..len + 1] == s + [tmp[len]];
      PutByte(n, s, tmp[len]);
      n := n / 128 - 1;
      len := len + 1;
    }
    ghost var s := tmp[..len];
    tmp[len] := n % 128 + if len != 0 then 0x80 else 0;
    PutLast(n, s, tmp[len]);
    assert tmp[..len + 1] == s + [tmp[len]];
    out := Emit(tmp, len);
  }

  /** Write the bytes up to `last`, backwards. */
  method Emit(tmp: array<Byte>, last: nat) returns (out: seq<Byte>)
    requires last < tmp.Length
    ensures out == Reversed(tmp[..last + 1])
  {
    hide Reversed;
    out := [];
    var len := last;
    NothingPending(0);
    while true
      invariant 0 <= len <= last
      invariant out + Reversed(tmp[..len + 1]) == Reversed(tmp[..last + 1])
      decreases len
    {
      ReversedPush(tmp[..len + 1]);
      assert tmp[..len + 1][..len] == tmp[..len];
      assert out + ([tmp[len]] + Reversed(tmp[..len])) == (out + [tmp[len]]) + Reversed(tmp[..len]);
      out := out + [tmp[len]];
      if len == 0 {
        break;
      }
      len := len - 1;
    }
    assert tmp[..0] == [];
    assert out + [] == out;
  }

  lemma NothingPending(n: int)
    ensures Pending(n, []) == Code(n) && Reversed([]) == []
  {
    assert Code(n) + [] == Code(n);
  }

  lemma ReversedPush(s: seq<Byte>)
    requires s != []
    ensures Reversed(s) == [s[|s| - 1]] + Reversed(s[..|s| - 1])
  {
  }

  /** Seven bits less at every step. */
  lemma FitsStep(n: int, k: nat)
    requires 0x7f < n < Pow2(k)
    ensures k > 7 && n / 128 - 1 < Pow2(k - 7)
  {
    assert Pow2(7) == 128 by { assert Pow2(3) == 8; PowAdd(3, 4); assert Pow2(4) == 16; }
    if k <= 7 {
      PowMono(k, 7);
    } else {
      PowAdd(k - 7, 7);
    }
  }

  lemma PutByte(n: int, s: seq<Byte>, b: Byte)
    requires n > 0x7f && b == n % 128 + if s != [] then 0x80 else 0
    ensures Pending(n, s) == Pending(n / 128 - 1, s + [b])
  {
    assert (s + [b])[..|s|] == s;
    hide Reversed;
    ReversedPush(s + [b]);
    assert Cont(n / 128 - 1) + [b] + Reversed(s) == Cont(n / 128 - 1) + ([b] + Reversed(s));
  }

  lemma PutLast(n: int, s: seq<Byte>, b: Byte)
    requires n <= 0x7f && b == n % 128 + (if s != [] then 0x80 else 0) && (s != [] ==> n >= 0)
    ensures Pending(n, s) == Reversed(s + [b])
  {
    assert (s + [b])[..|s|] == s;
    hide Reversed;
    ReversedPush(s + [b]);
  }

  /** Read a number; None at the end of the stream. */
  method ReadVarInt(s: seq<Byte>, width: nat) returns (r: Option<(nat, seq<Byte>)>)
    requires width > 0
    ensures r == Read(s, width)
  {
    hide Trunc;
    var n, rest := 0, s;
    while rest != []
      invariant n >= 0 && Read(s, width) == ReadFrom(rest, n, width)
      decreases |rest|
    {
      var chData := rest[0];
      rest := rest[1..];
      n := Trunc(n * 128 + chData % 128, width);
      if chData >= 128 {
        n := Trunc(n + 1, width);
      } else {
        return Some((n, rest));
      }
    }
    return None;
  }
}
