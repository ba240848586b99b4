/**
 Compact forms of amounts and scripts (src/compressor.cpp:12-180, src/compressor.h:28-127): the amount without its
 trailing zeros, the common scripts as one byte and a hash or key.
 */
module Compressor {
  import opened Arithmetic
  import opened Options
  import opened Limbs
  import opened Coins
  import VarInt

  const MAX64 := 0x1_0000_0000_0000_0000
  const MAX32 := 0x1_0000_0000

  // ---------- amounts ----------

  function Pow10(e: nat): (r: nat)
    ensures r >= 1
  {
    if e == 0 then 1 else 10 * Pow10(e - 1)
  }

  /** An amount without trailing zeros, up to nine of them, and how many there were. */
  function Strip(n: nat, e: nat): (nat, nat)
    requires e <= 9
    decreases 9 - e
  {
    if n % 10 == 0 && e < 9 then Strip(n / 10, e + 1) else (n, e)
  }

  function Compress(n: nat): nat {
    if n == 0 then 0 else
      var (m, e) := Strip(n, 0);
      if e < 9 then 1 + ((m / 10) * 9 + m % 10 - 1) * 10 + e else 1 + (m - 1) * 10 + 9
  }

  function Decompress(x: nat): nat {
    if x == 0 then 0 else
      var e, y := (x - 1) % 10, (x - 1) / 10;
      (if e < 9 then (y / 9) * 10 + y % 9 + 1 else y + 1) * Pow10(e)
  }

  lemma {:induction false} StripIs(n: nat, e: nat)
    requires n > 0 && e <= 9
    ensures var (m, f) := Strip(n, e);
            && e <= f <= 9 && 0 < m <= n && m * Pow10(f) == n * Pow10(e) && (f < 9 ==> m % 10 != 0)
    decreases 9 - e
  {
    if n % 10 == 0 && e < 9 {
      StripIs(n / 10, e + 1);
      hide Pow10, Strip;
      TenMore(n, e);
    }
  }

  lemma TenMore(n: nat, e: nat)
    requires n % 10 == 0
    ensures (n / 10) * Pow10(e + 1) == n * Pow10(e)
  {
    Mul3(n / 10, 10, Pow10(e));
  }

  lemma {:induction false} StripOf(m: nat, e: nat, k: nat)
    requires k <= e <= 9 && (m % 10 != 0 || e == 9)
    ensures Strip(m * Pow10(e - k), k) == (m, e)
    decreases e - k
  {
    if k < e {
      var q := m * Pow10(e - k - 1);
      StripOf(m, e, k + 1);
      TenTimesMore(m, e - k);
      StripTen(q, k);
    } else {
      assert m * Pow10(0) == m;
    }
  }

  lemma TenTimesMore(m: nat, e: nat)
    requires e > 0
    ensures m * Pow10(e) == 10 * (m * Pow10(e - 1))
  {
    Mul3(m, 10, Pow10(e - 1));
    Mul3(10, m, Pow10(e - 1));
  }

  lemma StripTen(q: nat, k: nat)
    requires k < 9
    ensures Strip(10 * q, k) == Strip(q, k + 1)
  {
    assert 10 * q % 10 == 0 && 10 * q / 10 == q;
  }

  /** Decompressing undoes compressing, for every amount. */
  lemma DecompressCompress(n: nat)
    ensures Decompress(Compress(n)) == n
  {
    if n > 0 {
      StripIs(n, 0);
      assert Pow10(0) == 1;
      hide Strip, Pow10;
      var (m, e) := Strip(n, 0);
      var x := Compress(n);
      if e < 9 {
        var y := (m / 10) * 9 + m % 10 - 1;
        DivModIs(x - 1, y, e, 10);
        DivModIs(y, m / 10, m % 10 - 1, 9);
      } else {
        DivModIs(x - 1, m - 1, 9, 10);
      }
    }
  }

  /** The documented form of an amount with digits n and d before e zeros. */
  lemma CompressFormula(n: nat, d: nat, e: nat)
    requires 1 <= d <= 9 && e < 9
    ensures Compress((10 * n + d) * Pow10(e)) == 1 + 10 * (9 * n + d - 1) + e
  {
    var m := 10 * n + d;
    MulMono(1, m, Pow10(e));
    StripOf(m, e, 0);
    DivModIs(m, n, d, 10);
    hide Strip, Pow10;
  }

  /** And of one that ends in nine zeros or more. */
  lemma CompressBillions(n: nat)
    requires n >= 1
    ensures Compress(n * Pow10(9)) == 1 + 10 * (n - 1) + 9
  {
    MulMono(1, n, Pow10(9));
    StripOf(n, 9, 0);
    hide Strip, Pow10;
  }

  /** Compressing undoes decompressing: every number is the form of some amount. */
  lemma CompressDecompress(x: nat)
    ensures Compress(Decompress(x)) == x
  {
    if x > 0 {
      var e, y := (x - 1) % 10, (x - 1) / 10;
      BackToForm(x, e, y, y / 9, y % 9 + 1, Decompress(x));
    }
  }

  lemma BackToForm(x: nat, e: nat, y: nat, n: nat, d: nat, amount: nat)
    requires x == 1 + 10 * y + e && e <= 9 && y == 9 * n + d - 1 && 1 <= d <= 9
    requires amount == (if e < 9 then 10 * n + d else y + 1) * Pow10(e)
    ensures Compress(amount) == x
  {
    hide Compress, Pow10;
    if e < 9 {
      CompressFormula(n, d, e);
    } else {
      CompressBillions(y + 1);
    }
  }

  lemma DecompressIs(x: nat, e: nat, y: nat, m: nat)
    requires x > 0 && e == (x - 1) % 10 && y == (x - 1) / 10
    requires m == if e < 9 then (y / 9) * 10 + y % 9 + 1 else y + 1
    ensures Decompress(x) == m * Pow10(e)
  {
    hide Pow10;
  }

  /** Nothing overflows in 64 bits for amounts up to a tenth of their range. */
  lemma CompressFits(n: nat)
    requires n < MAX64 / 10
    ensures Compress(n) < MAX64
  {
    if n > 0 {
      StripIs(n, 0);
      hide Strip, Pow10;
    }
  }

  /** The three loops in 64 bits. */
  method CompressAmount(n0: nat) returns (x: nat)
    requires n0 < MAX64
    ensures x == Compress(n0) % MAX64
  {
    if n0 == 0 {
      return 0;
    }
    var n, e := n0, 0;
    while n % 10 == 0 && e < 9
      invariant 0 <= e <= 9 && 0 < n && Strip(n, e) == Strip(n0, 0)
      decreases 9 - e
    {
      n := n / 10;
      e := e + 1;
    }
    if e < 9 {
      var d := n % 10;
      assert 1 <= d <= 9;
      n := n / 10;
      return (1 + (n * 9 + d - 1) * 10 + e) % MAX64;
    } else {
      return (1 + (n - 1) * 10 + 9) % MAX64;
    }
  }

  lemma DecompressNone()
    ensures Decompress(0) == 0
  {
  }

  method DecompressAmount(x0: nat) returns (n: nat)
    requires x0 < MAX64
    ensures n == Decompress(x0) % MAX64
  {
    hide Pow10, Decompress;
    if x0 == 0 {
      DecompressNone();
      return 0;
    }
    var x := x0 - 1;
    var e := x % 10;
    x := x / 10;
    if e < 9 {
      var d := x % 9 + 1;
      x := x / 9;
      n := x * 10 + d;
    } else {
      n := x + 1;
    }
    DecompressIs(x0, e, (x0 - 1) / 10, n);
    while e > 0
      invariant 0 <= e <= 9 && 0 <= n < MAX64 && (n * Pow10(e)) % MAX64 == Decompress(x0) % MAX64
    {
      TenTimes(n, Pow10(e - 1));
      TenPower(e);
      n := n * 10 % MAX64;
      e := e - 1;
    }
    TenPower(0);
    Limbs.ModIs(n, n, 0, MAX64);
  }

  lemma TenPower(e: nat)
    ensures Pow10(0) == 1 && (e > 0 ==> Pow10(e) == 10 * Pow10(e - 1))
  {
  }

  lemma TenTimes(n: nat, p: nat)
    ensures (n * 10 % MAX64) * p % MAX64 == n * (10 * p) % MAX64
  {
    var q, r := n * 10 / MAX64, n * 10 % MAX64;
    Mul3(n, 10, p);
    assert n * (10 * p) == (q * MAX64 + r) * p;
    Distribute(q * MAX64, r, p);
    Mul3(q, MAX64, p);
    var a := r * p / MAX64;
    MulMono(0, r, p);
    Distribute(q * p, a, MAX64);
    ModIs(n * (10 * p), r * p % MAX64, q * p + a, MAX64);
  }

  // ---------- scripts ----------

  const OP_DUP: Byte := 0x76
  const OP_EQUAL: Byte := 0x87
  const OP_EQUALVERIFY: Byte := 0x88
  const OP_HASH160: Byte := 0xa9
  const OP_CHECKSIG: Byte := 0xac
  const SPECIAL_SCRIPTS := 6

  /** The elliptic curve: which uncompressed keys lie on it, and the key behind a compressed one. */
  datatype Curve = Curve(isFullyValid: seq<Byte> -> bool, decompress: seq<Byte> -> Option<seq<Byte>>) {
    /** Decompression undoes compression: the parity of y and x determine a valid key. */
    ghost predicate Sound() {
      forall pk | |pk| == 65 && pk[0] == 4 && isFullyValid(pk) :: decompress(Squeezed(pk)) == Some(pk)
    }
  }

  function Squeezed(pk: seq<Byte>): seq<Byte>
    requires |pk| == 65
  {
    [(2 + pk[64] % 2) as Byte] + pk[1..33]
  }

  predicate IsToKeyID(s: seq<Byte>) {
    |s| == 25 && s[0] == OP_DUP && s[1] == OP_HASH160 && s[2] == 20 && s[23] == OP_EQUALVERIFY && s[24] == OP_CHECKSIG
  }

  predicate IsToScriptID(s: seq<Byte>) {
    |s| == 23 && s[0] == OP_HASH160 && s[1] == 20 && s[22] == OP_EQUAL
  }

  /** The key that a script pays to. */
  function ToPubKey(c: Curve, s: seq<Byte>): Option<seq<Byte>> {
    if |s| == 35 && s[0] == 33 && s[34] == OP_CHECKSIG && (s[1] == 2 || s[1] == 3) then Some(s[1..34])
    else if |s| == 67 && s[0] == 65 && s[66] == OP_CHECKSIG && s[1] == 4 && c.isFullyValid(s[1..66]) then Some(s[1..66])
    else None
  }

  function CompressScript(c: Curve, s: seq<Byte>): Option<seq<Byte>> {
    if IsToKeyID(s) then Some([0] + s[3..23])
    else if IsToScriptID(s) then Some([1] + s[2..22])
    else match ToPubKey(c, s)
      case None => None
      case Some(pk) => Some([if pk[0] == 4 then 4 + pk[64] % 2 else pk[0]] + pk[1..33])
  }

  function SpecialSize(n: nat): nat {
    if n <= 1 then 20 else if n <= 5 then 32 else 0
  }

  function DecompressScript(c: Curve, n: nat, data: seq<Byte>): Option<seq<Byte>>
    requires n < SPECIAL_SCRIPTS && |data| == SpecialSize(n)
  {
    if n == 0 then Some([OP_DUP, OP_HASH160, 20] + data + [OP_EQUALVERIFY, OP_CHECKSIG])
    else if n == 1 then Some([OP_HASH160, 20] + data + [OP_EQUAL])
    else if n <= 3 then Some([33, n] + data + [OP_CHECKSIG])
    else match c.decompress([n - 2] + data)
      case None => None
      case Some(pk) => Some([65] + pk + [OP_CHECKSIG])
  }

  /** A special script is what its compact form decompresses to. */
  lemma ScriptBack(c: Curve, s: seq<Byte>)
    requires c.Sound() && CompressScript(c, s).Some?
    ensures var out := CompressScript(c, s).value;
            && out != [] && out[0] < SPECIAL_SCRIPTS && |out| == 1 + SpecialSize(out[0])
            && DecompressScript(c, out[0], out[1..]) == Some(s)
  {
    if IsToKeyID(s) {
      KeyIDBack(c, s);
    } else if IsToScriptID(s) {
      ScriptIDBack(c, s);
    } else {
      PubKeyBack(c, s);
    }
  }

  lemma KeyIDBack(c: Curve, s: seq<Byte>)
    requires IsToKeyID(s)
    ensures CompressScript(c, s) == Some([0] + s[3..23]) && ([0] + s[3..23])[1..] == s[3..23]
    ensures DecompressScript(c, 0, s[3..23]) == Some(s)
  {
    assert s == [OP_DUP, OP_HASH160, 20] + s[3..23] + [OP_EQUALVERIFY, OP_CHECKSIG];
  }

  lemma ScriptIDBack(c: Curve, s: seq<Byte>)
    requires IsToScriptID(s)
    ensures CompressScript(c, s) == Some([1] + s[2..22]) && ([1] + s[2..22])[1..] == s[2..22]
    ensures DecompressScript(c, 1, s[2..22]) == Some(s)
  {
    assert s == [OP_HASH160, 20] + s[2..22] + [OP_EQUAL];
  }

  lemma PubKeyBack(c: Curve, s: seq<Byte>)
    requires c.Sound() && !IsToKeyID(s) && !IsToScriptID(s) && ToPubKey(c, s).Some?
    ensures var pk := ToPubKey(c, s).value; var first: Byte := if pk[0] == 4 then 4 + pk[64] % 2 else pk[0];
            && CompressScript(c, s) == Some([first] + pk[1..33]) && ([first] + pk[1..33])[1..] == pk[1..33]
            && 2 <= first < SPECIAL_SCRIPTS && |pk[1..33]| == 32
            && DecompressScript(c, first, pk[1..33]) == Some(s)
  {
    var pk := ToPubKey(c, s).value;
    if |s| == 35 {
      assert s == [33, s[1]] + pk[1..33] + [OP_CHECKSIG];
    } else {
      var first: Byte := 4 + pk[64] % 2;
      assert [(first - 2) as Byte] + pk[1..33] == Squeezed(pk);
      assert c.decompress(Squeezed(pk)) == Some(pk);
      assert s == [65] + pk + [OP_CHECKSIG];
    }
  }

  /** A script in a stream: a special form, or its size plus six and all of it. */
  function ScriptBytes(c: Curve, s: seq<Byte>): seq<Byte> {
    match CompressScript(c, s)
    case Some(out) => out
    case None => VarInt.Code((|s| + SPECIAL_SCRIPTS) % MAX32) + s
  }

  /** Read a script. A special form that does not decompress leaves the script empty. */
  function ParseScript(c: Curve, s: seq<Byte>): Option<(seq<Byte>, seq<Byte>)> {
    match VarInt.Read(s, MAX32)
    case None => None
    case Some((n, r)) =>
      var k := if n < SPECIAL_SCRIPTS then SpecialSize(n) else n - SPECIAL_SCRIPTS;
      if |r| < k then None
      else if n >= SPECIAL_SCRIPTS then Some((r[..k], r[k..]))
      else match DecompressScript(c, n, r[..k])
        case Some(script) => Some((script, r[k..]))
        case None => Some(([], r[k..]))
  }

  lemma ScriptRoundTrip(c: Curve, s: seq<Byte>, rest: seq<Byte>)
    requires c.Sound() && |s| + SPECIAL_SCRIPTS < MAX32
    ensures ParseScript(c, ScriptBytes(c, s) + rest) == Some((s, rest))
  {
    hide CompressScript, DecompressScript, VarInt.Read, VarInt.Code, ParseScript, Curve.Sound;
    match CompressScript(c, s) {
      case Some(out) =>
        ScriptBack(c, s);
        var data := out[1..];
        OneByte(out[0]);
        assert out + rest == VarInt.Code(out[0]) + (data + rest);
        VarInt.ReadCode(out[0], data + rest, MAX32);
        ParseSpecial(c, out + rest, out[0], data, rest, s);
      case None =>
        var n := |s| + SPECIAL_SCRIPTS;
        Assoc(VarInt.Code(n), s, rest);
        VarInt.ReadCode(n, s + rest, MAX32);
        ParsePlain(c, ScriptBytes(c, s) + rest, n, s, rest);
    }
  }

  lemma ParseSpecial(c: Curve, s: seq<Byte>, n: nat, data: seq<Byte>, rest: seq<Byte>, script: seq<Byte>)
    requires VarInt.Read(s, MAX32) == Some((n, data + rest)) && n < SPECIAL_SCRIPTS && |data| == SpecialSize(n)
    requires DecompressScript(c, n, data) == Some(script)
    ensures ParseScript(c, s) == Some((script, rest))
  {
    hide DecompressScript, VarInt.Read;
    assert (data + rest)[..|data|] == data && (data + rest)[|data|..] == rest;
  }

  lemma ParsePlain(c: Curve, s: seq<Byte>, n: nat, data: seq<Byte>, rest: seq<Byte>)
    requires VarInt.Read(s, MAX32) == Some((n, data + rest)) && n == |data| + SPECIAL_SCRIPTS
    ensures ParseScript(c, s) == Some((data, rest))
  {
    hide DecompressScript, VarInt.Read;
    assert (data + rest)[..|data|] == data && (data + rest)[|data|..] == rest;
  }

  lemma OneByte(b: nat)
    requires b < 0x80
    ensures VarInt.Code(b) == [b]
  {
  }

  // ---------- outputs ----------

  function TxOutBytes(c: Curve, o: TxOut): seq<Byte> {
    VarInt.Code(Compress(o.nValue % MAX64) % MAX64) + ScriptBytes(c, o.script)
  }

  /** A 64-bit number as a signed one. */
  function ToInt64(x: nat): int
    requires x < MAX64
  {
    if x >= MAX64 / 2 then x - MAX64 else x
  }

  function ParseTxOut(c: Curve, s: seq<Byte>): Option<(TxOut, seq<Byte>)> {
    match VarInt.Read(s, MAX64)
    case None => None
    case Some((x, r)) =>
      match ParseScript(c, r)
      case None => None
      case Some((script, r')) => Some((TxOut(ToInt64(Decompress(x) % MAX64), script, NULL_OUT.nRounds), r'))
  }

  /** The nRounds field is memory-only: it is read as it is in a new output. */
  function Stored(o: TxOut): TxOut {
    o.(nRounds := NULL_OUT.nRounds)
  }

  predicate Storable(o: TxOut) {
    0 <= o.nValue < MAX64 / 10 && |o.script| + SPECIAL_SCRIPTS < MAX32
  }

  lemma TxOutRoundTrip(c: Curve, o: TxOut, rest: seq<Byte>)
    requires c.Sound() && Storable(o)
    ensures ParseTxOut(c, TxOutBytes(c, o) + rest) == Some((Stored(o), rest))
  {
    hide Compress, Decompress, ScriptBytes, ParseScript, ParseTxOut, TxOutBytes, VarInt.Code, VarInt.Read, Curve.Sound, Stored;
    var x, script := Compress(o.nValue), ScriptBytes(c, o.script);
    CompressFits(o.nValue);
    DecompressCompress(o.nValue);
    StorableIs(c, o);
    Assoc(VarInt.Code(x), script, rest);
    VarInt.ReadCode(x, script + rest, MAX64);
    ScriptRoundTrip(c, o.script, rest);
    ParseTxOutIs(c, TxOutBytes(c, o) + rest, x, script + rest, o.script, rest);
    StoredIs(o);
  }

  lemma StorableIs(c: Curve, o: TxOut)
    requires Storable(o) && Compress(o.nValue) < MAX64
    ensures 0 <= o.nValue < MAX64 / 10 && |o.script| + SPECIAL_SCRIPTS < MAX32
    ensures TxOutBytes(c, o) == VarInt.Code(Compress(o.nValue)) + ScriptBytes(c, o.script)
  {
    hide Compress, ScriptBytes, VarInt.Code;
  }

  lemma StoredIs(o: TxOut)
    requires Storable(o)
    ensures Stored(o) == TxOut(ToInt64(o.nValue % MAX64), o.script, NULL_OUT.nRounds)
  {
  }

  lemma Assoc(a: seq<Byte>, b: seq<Byte>, c: seq<Byte>)
    ensures a + b + c == a + (b + c)
  {
  }

  lemma ParseTxOutIs(c: Curve, s: seq<Byte>, x: nat, r: seq<Byte>, script: seq<Byte>, r': seq<Byte>)
    requires VarInt.Read(s, MAX64) == Some((x, r)) && ParseScript(c, r) == Some((script, r'))
    ensures ParseTxOut(c, s) == Some((TxOut(ToInt64(Decompress(x) % MAX64), script, NULL_OUT.nRounds), r'))
  {
    hide VarInt.Read, ParseScript, Decompress;
  }
}
