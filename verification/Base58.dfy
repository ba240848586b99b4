/**
 Base 58 (src/base58.cpp:20-116): conversion in place in buffers of fixed sizes, which are always large enough; decoding
 and encoding undo each other.
 */
module Base58 {
  import opened Arithmetic
  import opened Options
  import opened Radix

  const ALPHABET := "123456789" + "ABCDEFGH" + "JKLMN" + "PQRSTUVWXYZ" + "abcdefghijk" + "mnopqrstuvwxyz"

  predicate IsSpace(c: char) {
    c == ' ' || '\t' <= c <= '\r'
  }

  /** The white space of the C locale: space, tab, line feed, vertical tab, form feed and carriage return. */
  lemma SpacesAre(c: char)
    ensures IsSpace(c) <==> c as int in {32, 9, 10, 11, 12, 13}
  {
  }

  /** The place of a character in a string, -1 if it is not there. */
  function Strchr(s: string, c: char): (k: int)
    ensures c in s ==> 0 <= k < |s| && s[k] == c
    ensures c !in s ==> k == -1
  {
    if s == [] then -1 else if s[0] == c then 0 else var k := Strchr(s[1..], c); if k == -1 then -1 else k + 1
  }

  function DigitOf(c: char): int {
    Strchr(ALPHABET, c)
  }

  ghost predicate Row(s: string, c: int, n: nat) {
    |s| == n && forall i | 0 <= i < n :: s[i] as int == c + i
  }

  lemma Rows()
    ensures Row("123456789", 49, 9) && Row("ABCDEFGH", 65, 8) && Row("JKLMN", 74, 5)
    ensures Row("PQRSTUVWXYZ", 80, 11) && Row("abcdefghijk", 97, 11) && Row("mnopqrstuvwxyz", 109, 14)
  {
  }

  lemma Ascending()
    ensures |ALPHABET| == 58
    ensures forall i | 0 <= i < 57 :: ALPHABET[i] < ALPHABET[i + 1]
  {
    Rows();
  }

  predicate Within(c: char, low: char, high: char) {
    low <= c <= high
  }

  lemma RowHas(s: string, low: char, high: char, c: char)
    requires Row(s, low as int, |s|) && |s| == high as int - low as int + 1
    ensures c in s <==> Within(c, low, high)
  {
    if Within(c, low, high) {
      assert s[c as int - low as int] as int == c as int;
    }
  }

  /** The alphabet: all alphanumeric characters except for 0, I, O and l. */
  lemma Alphanumeric(c: char)
    ensures DigitOf(c) != -1 <==>
              (Within(c, '0', '9') || Within(c, 'A', 'Z') || Within(c, 'a', 'z')) && c != '0' && c != 'I' && c != 'O' && c != 'l'
  {
    Rows();
    RowHas("123456789", '1', '9', c);
    RowHas("ABCDEFGH", 'A', 'H', c);
    RowHas("JKLMN", 'J', 'N', c);
    RowHas("PQRSTUVWXYZ", 'P', 'Z', c);
    RowHas("abcdefghijk", 'a', 'k', c);
    RowHas("mnopqrstuvwxyz", 'm', 'z', c);
    hide Row;
  }

  lemma {:induction false} AscendingFar(i: nat, j: nat)
    requires i < j < 58
    ensures |ALPHABET| == 58 && ALPHABET[i] < ALPHABET[j]
  {
    hide *;
    Ascending();
    if i + 1 < j {
      AscendingFar(i, j - 1);
    }
  }

  function CharOf(d: nat): char
    requires d < 58
  {
    Ascending();
    ALPHABET[d]
  }

  /** Characters and digits correspond one to one. */
  lemma CharsAreDigits(d: nat)
    requires d < 58
    ensures DigitOf(CharOf(d)) == d && !IsSpace(CharOf(d)) && (CharOf(d) == '1' <==> d == 0)
  {
    Ascending();
    FirstChar();
    var k := DigitOf(CharOf(d));
    hide *;
    assert CharOf(d) in ALPHABET && 0 <= k < 58 && ALPHABET[k] == ALPHABET[d] by { IsIn(d); }
    if k < d {
      AscendingFar(k, d);
    } else if d < k {
      AscendingFar(d, k);
    }
    AboveSpace(d);
    if d > 0 {
      AscendingFar(0, d);
    }
    CharIs(d);
  }

  lemma CharIs(d: nat)
    requires d < 58
    ensures |ALPHABET| == 58 && CharOf(d) == ALPHABET[d]
  {
    Ascending();
  }

  lemma IsIn(d: nat)
    requires d < 58
    ensures |ALPHABET| == 58 && CharOf(d) == ALPHABET[d] && 0 <= DigitOf(CharOf(d)) < 58 && ALPHABET[DigitOf(CharOf(d))] == ALPHABET[d]
    ensures CharOf(d) in ALPHABET
  {
    Ascending();
  }

  lemma FirstChar()
    ensures |ALPHABET| == 58 && ALPHABET[0] == '1'
  {
    Ascending();
  }

  lemma AboveSpace(d: nat)
    requires d < 58
    ensures |ALPHABET| == 58 && ALPHABET[d] >= '1' && !IsSpace(CharOf(d))
  {
    FirstChar();
    CharIs(d);
    if d > 0 {
      AscendingFar(0, d);
    }
  }

  lemma DigitsAreChars(c: char)
    requires DigitOf(c) != -1
    ensures 0 <= DigitOf(c) < 58 && CharOf(DigitOf(c)) == c && !IsSpace(c)
  {
    Ascending();
    assert c in ALPHABET && ALPHABET[DigitOf(c)] == c;
    hide *;
    AboveSpace(DigitOf(c));
    CharIs(DigitOf(c));
  }

  // ---------- what is decoded and encoded ----------

  function SkipSpaces(s: string): string {
    if s != [] && IsSpace(s[0]) then SkipSpaces(s[1..]) else s
  }

  /** The number of leading items x. */
  function Leading<T(==)>(s: seq<T>, x: T): (n: nat)
    ensures n <= |s| && (forall i | 0 <= i < n :: s[i] == x) && (n < |s| ==> s[n] != x)
  {
    if s != [] && s[0] == x then 1 + Leading(s[1..], x) else 0
  }

  /** The length of the leading word. */
  function WordLength(s: string): (n: nat)
    ensures n <= |s| && (forall i | 0 <= i < n :: !IsSpace(s[i])) && (n < |s| ==> IsSpace(s[n]))
  {
    if s != [] && !IsSpace(s[0]) then 1 + WordLength(s[1..]) else 0
  }

  function Repeat<T>(x: T, n: nat): seq<T> {
    seq(n, i => x)
  }

  predicate Valid58(s: string) {
    forall i | 0 <= i < |s| :: DigitOf(s[i]) != -1
  }

  function Values(s: string): (r: seq<nat>)
    requires Valid58(s)
    ensures |r| == |s| && Proper(r, 58)
  {
    assert forall i | 0 <= i < |s| :: 0 <= DigitOf(s[i]) < 58 by {
      forall i | 0 <= i < |s| ensures 0 <= DigitOf(s[i]) < 58 { DigitsAreChars(s[i]); }
    }
    seq(|s|, i requires 0 <= i < |s| => DigitOf(s[i]))
  }

  /** Bytes of a string: spaces around one word of digits; its leading ones are zero bytes. */
  function Decoded(s: string): Option<seq<nat>> {
    var t := SkipSpaces(s);
    var zeroes := Leading(t, '1');
    var u := t[zeroes..];
    var n := WordLength(u);
    if !Valid58(u[..n]) || SkipSpaces(u[n..]) != [] then None
    else Some(Repeat(0, zeroes) + Digits(Num(Values(u[..n]), 58), 256))
  }

  function Chars(ds: seq<nat>): (r: string)
    requires Proper(ds, 58)
    ensures |r| == |ds|
  {
    seq(|ds|, i requires 0 <= i < |ds| => CharOf(ds[i]))
  }

  function Encoded(bs: seq<nat>): string {
    var zeroes := Leading(bs, 0);
    var v := Num(bs[zeroes..], 256);
    NumOfDigits(v, 58);
    Repeat('1', zeroes) + Chars(Digits(v, 58))
  }

  // ---------- round trips ----------

  lemma {:induction false} LeadingIs<T>(s: seq<T>, x: T, n: nat)
    requires n <= |s| && (forall i | 0 <= i < n :: s[i] == x) && (n < |s| ==> s[n] != x)
    ensures Leading(s, x) == n
  {
    if n > 0 {
      LeadingIs(s[1..], x, n - 1);
    }
  }

  lemma {:induction false} WordIs(s: string, n: nat)
    requires n <= |s| && (forall i | 0 <= i < n :: !IsSpace(s[i])) && (n < |s| ==> IsSpace(s[n]))
    ensures WordLength(s) == n
  {
    if n > 0 {
      WordIs(s[1..], n - 1);
    }
  }

  lemma LeadingRepeat<T>(x: T, n: nat, s: seq<T>)
    requires s != [] ==> s[0] != x
    ensures Leading(Repeat(x, n) + s, x) == n && (Repeat(x, n) + s)[n..] == s
  {
    LeadingIs(Repeat(x, n) + s, x, n);
  }

  lemma ValuesOfChars(ds: seq<nat>)
    requires Proper(ds, 58)
    ensures Valid58(Chars(ds)) && Values(Chars(ds)) == ds
    ensures forall i | 0 <= i < |ds| :: !IsSpace(Chars(ds)[i])
  {
    forall i | 0 <= i < |ds| ensures DigitOf(Chars(ds)[i]) == ds[i] && !IsSpace(Chars(ds)[i]) {
      CharsAreDigits(ds[i]);
    }
  }

  lemma CharsOfValues(s: string)
    requires Valid58(s)
    ensures Chars(Values(s)) == s && forall i | 0 <= i < |s| :: !IsSpace(s[i])
  {
    forall i | 0 <= i < |s| ensures CharOf(DigitOf(s[i])) == s[i] && !IsSpace(s[i]) {
      DigitsAreChars(s[i]);
    }
  }

  /** A word without spaces is all of itself. */
  lemma OneWord(s: string)
    requires forall i | 0 <= i < |s| :: !IsSpace(s[i])
    ensures SkipSpaces(s) == s && WordLength(s) == |s| && SkipSpaces(s[|s|..]) == [] && s[..|s|] == s
  {
  }

  /** Decoding undoes encoding, for every byte string. */
  lemma DecodeEncode(bs: seq<nat>)
    requires Proper(bs, 256)
    ensures Decoded(Encoded(bs)) == Some(bs)
  {
    hide SkipSpaces, WordLength, Leading, Num, Digits, Chars, Values, CharOf, DigitOf, Decoded, IsSpace;
    var z := Leading(bs, 0);
    var rest := bs[z..];
    var v := Num(rest, 256);
    var ds := Digits(v, 58);
    NumOfDigits(v, 58);
    ValuesOfChars(ds);
    var e := Encoded(bs);
    FirstDigit(ds);
    LeadingRepeat('1', z, Chars(ds));
    OneNotSpace();
    assert forall i | 0 <= i < |e| :: !IsSpace(e[i]);
    OneWord(e);
    OneWord(Chars(ds));
    DigitsOfNum(rest, 256);
    LeadingZeros(bs);
    DecodedIs(e, z);
  }

  lemma LeadingZeros(bs: seq<nat>)
    ensures Repeat(0, Leading(bs, 0)) + bs[Leading(bs, 0)..] == bs
  {
  }

  /** A string without spaces: its leading ones and its digits. */
  lemma DecodedIs(e: string, z: nat)
    requires SkipSpaces(e) == e && Leading(e, '1') == z <= |e|
    requires WordLength(e[z..]) == |e| - z && Valid58(e[z..])
    ensures Decoded(e) == Some(Repeat(0, z) + Digits(Num(Values(e[z..]), 58), 256))
  {
    hide SkipSpaces, WordLength, Leading, Num, Digits, Values, DigitOf;
    var u := e[z..];
    OneWord([]);
    assert u[..|u|] == u && u[|u|..] == [];
  }

  lemma OneNotSpace()
    ensures !IsSpace('1')
  {
  }

  lemma FirstDigit(ds: seq<nat>)
    requires Proper(ds, 58) && (ds != [] ==> ds[0] != 0)
    ensures Chars(ds) != [] ==> Chars(ds)[0] != '1'
  {
    if ds != [] {
      CharsAreDigits(ds[0]);
    }
  }

  /** Encoding undoes decoding, for every string of digits without spaces. */
  lemma EncodeDecode(s: string)
    requires Valid58(s)
    ensures Decoded(s).Some? && Encoded(Decoded(s).value) == s
  {
    hide SkipSpaces, WordLength, Leading, Num, Digits, Values, DigitOf, CharOf, Chars, Decoded, IsSpace;
    CharsOfValues(s);
    OneWord(s);
    var z := Leading(s, '1');
    var u := s[z..];
    OneWord(u);
    CharsOfValues(u);
    DecodedIs(s, z);
    var v := Num(Values(u), 58);
    NotOne(u);
    DigitsOfNum(Values(u), 58);
    NumOfDigits(v, 256);
    LeadingRepeat(0, z, Digits(v, 256));
    assert Repeat('1', z) + u == s;
  }

  lemma NotOne(u: string)
    requires Valid58(u) && (u != [] ==> u[0] != '1')
    ensures u != [] ==> Values(u)[0] != 0
  {
    if u != [] {
      DigitsAreChars(u[0]);
      CharsAreDigits(DigitOf(u[0]));
    }
  }

  predicate Blank(s: string) {
    forall i | 0 <= i < |s| :: IsSpace(s[i])
  }

  /** Spaces around a string do not matter. */
  lemma PaddingIgnored(p: string, w: string, q: string)
    requires Blank(p) && Valid58(w) && Blank(q)
    ensures Decoded(p + w + q) == Decoded(w) && Decoded(w).Some?
  {
    hide SkipSpaces, WordLength, Leading, Num, Digits, Values, DigitOf, Decoded, IsSpace;
    var z := Leading(w, '1');
    var u := w[z..];
    CharsOfValues(w);
    CharsOfValues(u);
    OneWord(w);
    OneWord(u);
    DecodedIs(w, z);
    SkipBlank(p, w + q);
    assert p + (w + q) == p + w + q;
    BlankSkipped(q);
    if w == [] {
      assert w + q == q;
      NothingDecoded(p + w + q);
    } else {
      assert (w + q)[0] == w[0];
      StartsWord(w + q);
      PaddedWord(p + w + q, w, q);
    }
  }

  lemma PaddedWord(s: string, w: string, q: string)
    requires SkipSpaces(s) == w + q && SkipSpaces(q) == [] && Blank(q) && Valid58(w)
    ensures var z := Leading(w, '1'); Decoded(s) == Some(Repeat(0, z) + Digits(Num(Values(w[z..]), 58), 256))
  {
    hide SkipSpaces, WordLength, Leading, Num, Digits, Values, DigitOf, Decoded, IsSpace;
    var z := Leading(w, '1');
    var u := w[z..];
    CharsOfValues(u);
    LeadingOf(w, q);
    assert (w + q)[z..] == u + q;
    WordOf(u, q);
    DecodedParts(s, w + q, z, u, q);
  }

  lemma StartsWord(s: string)
    requires s != [] && !IsSpace(s[0])
    ensures SkipSpaces(s) == s
  {
  }

  lemma DecodedParts(s: string, t: string, z: nat, u: string, q: string)
    requires SkipSpaces(s) == t && Leading(t, '1') == z <= |t| && t[z..] == u + q && WordLength(u + q) == |u| && Valid58(u) && SkipSpaces(q) == []
    ensures Decoded(s) == Some(Repeat(0, z) + Digits(Num(Values(u), 58), 256))
  {
    hide SkipSpaces, WordLength, Leading, Num, Digits, Values, DigitOf;
    assert (u + q)[..|u|] == u && (u + q)[|u|..] == q;
  }

  lemma NoDigits()
    ensures Repeat(0, 0) + Digits(Num(Values([]), 58), 256) == []
  {
  }

  lemma NothingDecoded(s: string)
    requires SkipSpaces(s) == []
    ensures Decoded(s) == Some([]) == Decoded([])
  {
    hide SkipSpaces, WordLength, Digits, Values, DigitOf, Num;
    OneWord([]);
    DecodedParts(s, [], 0, [], []);
    DecodedParts([], [], 0, [], []);
    NoDigits();
  }

  lemma BlankSkipped(q: string)
    requires Blank(q)
    ensures SkipSpaces(q) == []
  {
    SkipBlank(q, []);
    assert q + [] == q;
  }

  lemma {:induction false} SkipBlank(p: string, s: string)
    requires Blank(p)
    ensures SkipSpaces(p + s) == SkipSpaces(s)
  {
    if p == [] {
      assert p + s == s;
    } else {
      SkipBlank(p[1..], s);
      assert (p + s)[1..] == p[1..] + s;
    }
  }

  lemma LeadingOf(w: string, q: string)
    requires Blank(q)
    ensures Leading(w + q, '1') == Leading(w, '1')
  {
    OneNotSpace();
    LeadingIs(w + q, '1', Leading(w, '1'));
  }

  lemma WordOf(u: string, q: string)
    requires Blank(q) && forall i | 0 <= i < |u| :: !IsSpace(u[i])
    ensures WordLength(u + q) == |u|
  {
    WordIs(u + q, |u|);
  }

  /** A string that decodes is spaces, digits and spaces. */
  lemma DecodedShape(s: string) returns (p: string, w: string, q: string)
    requires Decoded(s).Some?
    ensures s == p + w + q && Blank(p) && Valid58(w) && Blank(q)
  {
    hide SkipSpaces, WordLength, Leading, Num, Digits, Values, DigitOf, CharOf, IsSpace;
    var t := SkipSpaces(s);
    p := Skipped(s);
    var z := Leading(t, '1');
    var n := WordLength(t[z..]);
    w, q := t[..z + n], t[z + n..];
    assert t[z..][..n] == t[z..z + n] && t[z..][n..] == q;
    assert w == t[..z] + t[z..z + n];
    CharsAreDigits(0);
    CharIs(0);
    FirstChar();
    var e := Skipped(q);
    assert e + [] == e;
  }

  lemma {:induction false} Skipped(s: string) returns (p: string)
    ensures s == p + SkipSpaces(s) && Blank(p)
  {
    p := [];
    if s != [] && IsSpace(s[0]) {
      p := Skipped(s[1..]);
      p := [s[0]] + p;
      assert s == [s[0]] + s[1..];
    }
  }

  // ---------- the buffers ----------

  /** 58^71 <= 256^52 and 256^8 <= 58^11. */
  lemma Constants()
    ensures Pow(58, 71) <= Pow(256, 52) && Pow(256, 8) <= Pow(58, 11)
  {
    Powers58();
    Powers256();
  }

  lemma Powers58()
    ensures Pow(58, 71) == 159730386663078066345306447337161584696769904898410078913243029577507397293846405390982563136983769384625594118558891106107392
    ensures Pow(58, 11) == 24986644000165537792
  {
    hide Pow;
    Square(58);
    Times(58, 2, 2);
    Times(58, 4, 4);
    Times(58, 8, 8);
    Times(58, 16, 16);
    Times(58, 32, 32);
    Times(58, 4, 2);
    Times(58, 6, 1);
    Times(58, 64, 7);
    Times(58, 7, 4);
  }

  lemma Square(b: nat)
    ensures Pow(b, 2) == b * b && Pow(b, 1) == b
  {
  }

  lemma Times(b: nat, m: nat, n: nat)
    ensures Pow(b, m + n) == Pow(b, m) * Pow(b, n)
  {
    PowAdd(b, m, n);
  }

  lemma Powers256()
    ensures Pow(256, 52) == 169230328010303641331690318856389386196071598838855992136870091590247882556495704531248437872567112920983350278405979725889536
    ensures Pow(256, 8) == 18446744073709551616
  {
    hide Pow;
    Square(256);
    Times(256, 2, 2);
    Times(256, 4, 4);
    Times(256, 8, 8);
    Times(256, 16, 16);
    Times(256, 32, 16);
    Times(256, 48, 4);
  }

  /** Both buffers hold every number they may have to hold. */
  lemma BuffersSuffice(n: nat)
    ensures Pow(58, n) <= Pow(256, n * 733 / 1000 + 1)
    ensures Pow(256, n) <= Pow(58, n * 138 / 100 + 1)
  {
    Constants();
    Fits(58, 256, 71, 52, n, n * 733 / 1000 + 1);
    Fits(256, 58, 8, 11, n, n * 138 / 100 + 1);
  }

  // ---------- conversion in place ----------

  /** buf = buf * mul + ch in digits of `base`, from the last digit on. */
  method MulAdd(buf: array<nat>, mul: nat, base: nat, ch: nat) returns (carry: nat)
    requires base >= 2 && Proper(buf[..], base)
    modifies buf
    ensures Proper(buf[..], base)
    ensures Num(buf[..], base) + carry * Pow(base, buf.Length) == mul * Num(old(buf[..]), base) + ch
  {
    hide Num, Pow;
    ghost var s := buf[..];
    carry := ch;
    var i := buf.Length;
    NoNum(buf[i..], base);
    NoNum(s[i..], base);
    while i > 0
      invariant 0 <= i <= buf.Length && Proper(buf[..], base)
      invariant forall j | 0 <= j < i :: buf[j] == s[j]
      invariant Num(buf[i..], base) + carry * Pow(base, buf.Length - i) == mul * Num(s[i..], base) + ch
    {
      ghost var tail := buf[i..];
      i := i - 1;
      MulMono(0, mul, buf[i]);
      var n := carry + mul * buf[i];
      ghost var c := carry;
      DivNat(n, base);
      buf[i] := n % base;
      carry := n / base;
      assert buf[i..] == [buf[i]] + tail && s[i..] == [s[i]] + s[i + 1..];
      NumCons(buf[i], tail, base);
      NumCons(s[i], s[i + 1..], base);
      PowNext(base, |tail|);
      AddStep(Num(tail, base), c, Pow(base, |tail|), mul, Num(s[i + 1..], base), ch, s[i], n, base);
    }
    assert buf[0..] == buf[..] && s[0..] == s;
  }

  lemma NoNum(s: seq<nat>, b: nat)
    ensures s == [] ==> Num(s, b) == 0 && Pow(b, 0) == 1
  {
  }

  lemma DivNat(n: nat, b: nat)
    requires b >= 1
    ensures n / b >= 0
  {
    if n / b <= -1 {
      MulMono(n / b, -1, b);
    }
  }

  lemma PowNext(b: nat, n: nat)
    ensures Pow(b, n + 1) == Pow(b, n) * b
  {
  }

  lemma NumCons(x: nat, t: seq<nat>, b: nat)
    ensures Num([x] + t, b) == x * Pow(b, |t|) + Num(t, b)
  {
    NumSplit([x], t, b);
    assert [x][..0] == [];
    assert Num([x], b) == x;
  }

  lemma AddStep(v: int, c: int, p: int, mul: int, w: int, ch: int, x: int, n: int, base: int)
    requires base >= 1 && v + c * p == mul * w + ch && n == c + mul * x
    ensures (n % base) * p + v + (n / base) * (p * base) == mul * (x * p + w) + ch
  {
    Recompose(n, base);
    var q, r := n / base, n % base;
    assert n * p == (q * base) * p + r * p by { Distribute(q * base, r, p); }
    Mul3(q, base, p);
    Mul3(q, p, base);
    assert n * p == c * p + (mul * x) * p by { Distribute(c, mul * x, p); }
    Mul3(mul, x, p);
    assert mul * (x * p + w) == mul * (x * p) + mul * w by { Distribute(x * p, w, mul); }
  }

  /** No carry is left when the number fits. */
  lemma NoCarry(v: nat, carry: nat, p: nat, bound: nat)
    requires v + carry * p < bound <= p
    ensures carry == 0
  {
    if carry > 0 {
      MulMono(1, carry, p);
    }
  }

  /** The place of the first digit that is not zero. */
  method SkipZeros(buf: array<nat>) returns (it: nat)
    ensures it == Leading(buf[..], 0)
  {
    it := 0;
    while it < buf.Length && buf[it] == 0
      invariant 0 <= it <= buf.Length && forall i | 0 <= i < it :: buf[i] == 0
    {
      it := it + 1;
    }
    LeadingIs(buf[..], 0, it);
  }

  method EncodeBase58(bs: seq<nat>) returns (str: string)
    requires Proper(bs, 256)
    ensures str == Encoded(bs)
  {
    hide Num, Pow, Digits, Leading, Chars, CharOf;
    var zeroes := 0;
    while zeroes < |bs| && bs[zeroes] == 0
      invariant 0 <= zeroes <= |bs| && forall i | 0 <= i < zeroes :: bs[i] == 0
    {
      zeroes := zeroes + 1;
    }
    LeadingIs(bs, 0, zeroes);
    var b58 := ToBase58(bs, zeroes);
    var it := SkipZeros(b58);
    NumZeros(b58[..], it, 58);
    assert b58[..][it..] == b58[it..];
    DigitsOfNum(b58[it..], 58);
    var rest := Translate(b58, it);
    str := Repeat('1', zeroes) + rest;
  }

  /** The digits of the bytes from `zeroes` on. */
  method ToBase58(bs: seq<nat>, zeroes: nat) returns (b58: array<nat>)
    requires Proper(bs, 256) && zeroes <= |bs|
    ensures fresh(b58) && Proper(b58[..], 58) && Num(b58[..], 58) == Num(bs[zeroes..], 256)
  {
    hide Num, Pow;
    ghost var rest := bs[zeroes..];
    b58 := new nat[(|bs| - zeroes) * 138 / 100 + 1](i => 0);
    AllZero(b58[..], 58);
    BuffersSuffice(|rest|);
    var pos := zeroes;
    NoNum(rest[..0], 256);
    while pos < |bs|
      invariant zeroes <= pos <= |bs| && fresh(b58) && Proper(b58[..], 58)
      invariant Num(b58[..], 58) == Num(rest[..pos - zeroes], 256)
    {
      ghost var done := rest[..pos - zeroes];
      var carry := MulAdd(b58, 256, 58, bs[pos]);
      assert rest[..pos + 1 - zeroes] == done + [bs[pos]];
      Appended(Num(b58[..], 58), carry, done, bs[pos], 256, |rest|, Pow(58, b58.Length));
      assert carry == 0;
      pos := pos + 1;
    }
    assert rest[..|rest|] == rest;
  }

  /** A number with one more digit still fits. */
  lemma Appended(v: nat, carry: nat, done: seq<nat>, x: nat, base: nat, n: nat, p: nat)
    requires base >= 1 && Proper(done, base) && x < base && |done| < n && Pow(base, n) <= p
    requires v + carry * p == base * Num(done, base) + x
    ensures carry == 0 && v == Num(done + [x], base)
  {
    hide Num, Pow;
    NumPush(done, x, base);
    NumBound(done + [x], base);
    PowExp(base, |done| + 1, n);
    NoCarry(v, carry, p, Pow(base, |done| + 1));
  }

  /** The characters of the digits from `it` on. */
  method Translate(b58: array<nat>, from: nat) returns (str: string)
    requires Proper(b58[..], 58) && from <= b58.Length
    ensures Proper(b58[from..], 58) && str == Chars(b58[from..])
  {
    hide Chars, CharOf;
    str := [];
    var it := from;
    NoChars();
    while it < b58.Length
      invariant from <= it <= b58.Length
      invariant str == Chars(b58[from..it])
    {
      CharsMore(b58[from..it], b58[it]);
      assert b58[from..it + 1] == b58[from..it] + [b58[it]];
      str := str + [CharOf(b58[it])];
      it := it + 1;
    }
    assert b58[from..it] == b58[from..];
  }

  lemma NoChars()
    ensures Chars([]) == []
  {
  }

  lemma CharsMore(ds: seq<nat>, d: nat)
    requires Proper(ds, 58) && d < 58
    ensures Chars(ds + [d]) == Chars(ds) + [CharOf(d)]
  {
    hide CharOf;
  }

  method DecodeBase58(psz: string) returns (vch: Option<seq<nat>>)
    ensures vch == Decoded(psz)
  {
    hide Num, Pow, Digits, Leading, DigitOf, SkipSpaces, WordLength, Values, IsSpace, Decoded, Valid58;
    var zeroes, pos := FindDigits(psz);
    ghost var u := psz[pos..];
    DecodedFrom(psz, SkipSpaces(psz), zeroes);
    var b256 := new nat[(|psz| - pos) * 733 / 1000 + 1](i => 0);
    assert psz[pos..pos + WordLength(u)] == u[..WordLength(u)];
    var end := ReadDigits(psz, pos, b256);
    if end.None? {
      return None;
    }
    ghost var n := end.value - pos;
    assert psz[end.value..] == u[n..] && psz[pos..end.value] == u[..n];
    var last := SkipSpacesFrom(psz, end.value);
    if last < |psz| {
      return None;
    }
    var it := SkipZeros(b256);
    NumZeros(b256[..], it, 256);
    assert b256[..][it..] == b256[it..];
    DigitsOfNum(b256[it..], 256);
    vch := Some(Repeat(0, zeroes) + b256[it..]);
  }

  /** Skip leading spaces, then skip and count leading ones. */
  method FindDigits(psz: string) returns (zeroes: nat, pos: nat)
    ensures pos <= |psz| && zeroes <= |SkipSpaces(psz)|
    ensures Leading(SkipSpaces(psz), '1') == zeroes && SkipSpaces(psz)[zeroes..] == psz[pos..]
  {
    hide Leading, SkipSpaces;
    var start := SkipSpacesFrom(psz, 0);
    assert psz[0..] == psz;
    pos := start;
    while pos < |psz| && psz[pos] == '1'
      invariant start <= pos <= |psz| && forall i | start <= i < pos :: psz[i] == '1'
    {
      pos := pos + 1;
    }
    zeroes := pos - start;
    LeadingIs(psz[start..], '1', zeroes);
  }

  lemma DecodedFrom(s: string, t: string, z: nat)
    requires SkipSpaces(s) == t && Leading(t, '1') == z <= |t|
    ensures var u := t[z..]; var n := WordLength(u);
            Decoded(s) == if !Valid58(u[..n]) || SkipSpaces(u[n..]) != [] then None
                          else Some(Repeat(0, z) + Digits(Num(Values(u[..n]), 58), 256))
  {
    hide SkipSpaces, WordLength, Leading, Num, Digits, Values, DigitOf;
  }

  method SkipSpacesFrom(psz: string, from: nat) returns (pos: nat)
    requires from <= |psz|
    ensures from <= pos <= |psz| && SkipSpaces(psz[from..]) == psz[pos..]
  {
    hide IsSpace;
    pos := from;
    while pos < |psz| && IsSpace(psz[pos])
      invariant from <= pos <= |psz| && SkipSpaces(psz[from..]) == SkipSpaces(psz[pos..])
    {
      assert psz[pos..][1..] == psz[pos + 1..];
      pos := pos + 1;
    }
  }

  /** Read a word of digits into a buffer of zeros; None if there is another character in it. */
  method ReadDigits(psz: string, from: nat, b256: array<nat>) returns (end: Option<nat>)
    requires from <= |psz| && b256.Length == (|psz| - from) * 733 / 1000 + 1 && forall i | 0 <= i < b256.Length :: b256[i] == 0
    modifies b256
    ensures var n := WordLength(psz[from..]);
            && (end.Some? <==> Valid58(psz[from..from + n]))
            && (end.Some? ==> end.value == from + n && Proper(b256[..], 256) && Num(b256[..], 256) == Num(Values(psz[from..from + n]), 58))
  {
    hide Num, Pow, DigitOf, IsSpace, Values, WordLength;
    AllZero(b256[..], 256);
    BuffersSuffice(|psz| - from);
    NoValues();
    NoNum([], 58);
    var pos := from;
    while pos < |psz| && !IsSpace(psz[pos])
      invariant from <= pos <= |psz| && (forall i | from <= i < pos :: !IsSpace(psz[i])) && Proper(b256[..], 256)
      invariant Valid58(psz[from..pos]) && Num(b256[..], 256) == Num(Values(psz[from..pos]), 58)
    {
      var ch := DigitOf(psz[pos]);
      ghost var done := psz[from..pos];
      if ch == -1 {
        BadDigit(psz[from..], pos - from);
        assert psz[from..][..WordLength(psz[from..])] == psz[from..from + WordLength(psz[from..])];
        return None;
      }
      DigitsAreChars(psz[pos]);
      var carry := MulAdd(b256, 58, 256, ch);
      assert psz[from..pos + 1] == done + [psz[pos]];
      ValuesMore(done, psz[pos]);
      Appended(Num(b256[..], 256), carry, Values(done), ch, 58, |psz| - from, Pow(256, b256.Length));
      assert carry == 0;
      pos := pos + 1;
    }
    WordIs(psz[from..], pos - from);
    end := Some(pos);
  }

  lemma NoValues()
    ensures Valid58([]) && Values([]) == []
  {
  }

  lemma ValuesMore(s: string, c: char)
    requires Valid58(s) && DigitOf(c) != -1
    ensures Valid58(s + [c]) && DigitOf(c) >= 0 && Values(s + [c]) == Values(s) + [DigitOf(c)]
  {
    DigitsAreChars(c);
    hide DigitOf;
  }

  lemma BadDigit(s: string, k: nat)
    requires k < |s| && DigitOf(s[k]) == -1 && forall i | 0 <= i <= k :: !IsSpace(s[i])
    ensures k < WordLength(s) && !Valid58(s[..WordLength(s)])
  {
    hide DigitOf, IsSpace;
    var n := WordLength(s);
    assert s[..n][k] == s[k];
  }
}
