/** Numbers in digits of any base, the greatest first, and the bounds on their lengths that src/base58.cpp relies on. */
module Radix {
  import opened Arithmetic

  function Pow(b: nat, n: nat): (r: nat)
    ensures b >= 1 ==> r >= 1
  {
    if n == 0 then 1 else
      var p := Pow(b, n - 1);
      assert b >= 1 ==> p * b >= 1 by { if b >= 1 { MulMono(1, b, p); } }
      MulMono(0, b, p);
      p * b
  }

  /** The number that a list of digits stands for. */
  function Num(s: seq<nat>, b: nat): nat {
    if s == [] then 0 else
      MulMono(0, b, Num(s[..|s| - 1], b));
      Num(s[..|s| - 1], b) * b + s[|s| - 1]
  }

  /** The digits of a number, without leading zeros. */
  function Digits(v: nat, b: nat): seq<nat>
    requires b >= 2
    decreases v
  {
    if v == 0 then [] else
      Smaller(v, b);
      Digits(v / b, b) + [v % b]
  }

  ghost predicate Proper(s: seq<nat>, b: nat) {
    forall i | 0 <= i < |s| :: s[i] < b
  }

  // ---------- arithmetic ----------

  lemma Smaller(v: int, b: int)
    requires v > 0 && b >= 2
    ensures 0 <= v / b < v
  {
    if v / b >= v {
      MulMono(v, v / b, b);
      MulMono(2, b, v);
    }
  }

  lemma Recompose(v: int, b: int)
    requires b >= 1
    ensures v == (v / b) * b + v % b
  {
  }

  // ---------- powers ----------

  lemma {:induction false} PowAdd(b: nat, m: nat, n: nat)
    ensures Pow(b, m + n) == Pow(b, m) * Pow(b, n)
  {
    if n > 0 {
      PowAdd(b, m, n - 1);
      Mul3(Pow(b, m), Pow(b, n - 1), b);
    }
  }

  lemma {:induction false} PowMul(b: nat, m: nat, n: nat)
    ensures m * n >= 0 && Pow(b, m * n) == Pow(Pow(b, m), n)
  {
    MulMono(0, m, n);
    if n > 0 {
      PowMul(b, m, n - 1);
      PowAdd(b, m * (n - 1), m);
      Distribute(n - 1, 1, m);
    }
  }

  /** Powers grow with the base. */
  lemma {:induction false} PowBase(a: nat, b: nat, n: nat)
    requires a <= b
    ensures Pow(a, n) <= Pow(b, n)
  {
    if n > 0 {
      PowBase(a, b, n - 1);
      MulMono(Pow(a, n - 1), Pow(b, n - 1), a);
      MulMono(a, b, Pow(b, n - 1));
    }
  }

  lemma {:induction false} PowBaseStrict(a: nat, b: nat, n: nat)
    requires 1 <= a < b && n > 0
    ensures Pow(a, n) < Pow(b, n)
  {
    if n > 1 {
      PowBaseStrict(a, b, n - 1);
      MulMono(Pow(a, n - 1) + 1, Pow(b, n - 1), a);
      Distribute(Pow(a, n - 1), 1, a);
      MulMono(a, b, Pow(b, n - 1));
    } else {
      assert Pow(a, 0) == 1 == Pow(b, 0);
    }
  }

  lemma {:induction false} PowExp(b: nat, m: nat, n: nat)
    requires b >= 1 && m <= n
    ensures Pow(b, m) <= Pow(b, n)
  {
    if m < n {
      PowExp(b, m, n - 1);
      MulMono(1, b, Pow(b, n - 1));
    }
  }

  /** If a^p <= c^q then n digits of base a fit into l digits of base c, as soon as l is q/p of n. */
  lemma Fits(a: nat, c: nat, p: nat, q: nat, n: nat, l: nat)
    requires a >= 1 && c >= 1 && p >= 1 && Pow(a, p) <= Pow(c, q) && q * n <= p * l
    ensures Pow(a, n) <= Pow(c, l)
  {
    if Pow(a, n) > Pow(c, l) {
      PowBaseStrict(Pow(c, l), Pow(a, n), p);
      PowMul(c, l, p);
      PowMul(a, n, p);
      PowMul(a, p, n);
      PowMul(c, q, n);
      PowBase(Pow(a, p), Pow(c, q), n);
      assert q * n >= 0 && n * p == p * n && l * p == p * l;
      PowExp(c, q * n, l * p);
      assert false;
    }
  }

  // ---------- digits ----------

  lemma {:induction false} NumSplit(s: seq<nat>, t: seq<nat>, b: nat)
    ensures Num(s + t, b) == Num(s, b) * Pow(b, |t|) + Num(t, b)
  {
    if t == [] {
      assert s + t == s;
    } else {
      var u, x := t[..|t| - 1], t[|t| - 1];
      assert (s + t)[..|s + t| - 1] == s + u;
      NumSplit(s, u, b);
      Distribute(Num(s, b) * Pow(b, |u|), Num(u, b), b);
      Mul3(Num(s, b), Pow(b, |u|), b);
    }
  }

  lemma NumPush(s: seq<nat>, x: nat, b: nat)
    ensures Num(s + [x], b) == Num(s, b) * b + x
  {
    assert (s + [x])[..|s|] == s;
  }

  lemma {:induction false} NumBound(s: seq<nat>, b: nat)
    requires b >= 1 && Proper(s, b)
    ensures Num(s, b) < Pow(b, |s|)
  {
    if s != [] {
      var u, x := s[..|s| - 1], s[|s| - 1];
      NumBound(u, b);
      MulMono(Num(u, b) + 1, Pow(b, |u|), b);
      Distribute(Num(u, b), 1, b);
    }
  }

  /** Digits undoes Num on digits without leading zeros. */
  lemma {:induction false} DigitsOfNum(s: seq<nat>, b: nat)
    requires b >= 2 && Proper(s, b) && (s != [] ==> s[0] != 0)
    ensures Digits(Num(s, b), b) == s
    ensures s != [] ==> Num(s, b) > 0
  {
    if s != [] {
      var u, x := s[..|s| - 1], s[|s| - 1];
      DigitsOfNum(u, b);
      DivModIs(Num(u, b) * b + x, Num(u, b), x, b);
      if u != [] {
        MulMono(1, Num(u, b), b);
      }
    }
  }

  /** Num undoes Digits. */
  lemma {:induction false} NumOfDigits(v: nat, b: nat)
    requires b >= 2
    ensures Num(Digits(v, b), b) == v && Proper(Digits(v, b), b)
    ensures Digits(v, b) != [] ==> Digits(v, b)[0] != 0
  {
    if v > 0 {
      Smaller(v, b);
      NumOfDigits(v / b, b);
      NumPush(Digits(v / b, b), v % b, b);
      hide Num;
      Recompose(v, b);
    }
  }

  /** Leading zeros do not count. */
  lemma {:induction false} NumZeros(s: seq<nat>, k: nat, b: nat)
    requires k <= |s| && forall i | 0 <= i < k :: s[i] == 0
    ensures Num(s, b) == Num(s[k..], b)
  {
    assert s == s[..k] + s[k..];
    NumSplit(s[..k], s[k..], b);
    AllZero(s[..k], b);
  }

  lemma {:induction false} AllZero(s: seq<nat>, b: nat)
    requires forall i | 0 <= i < |s| :: s[i] == 0
    ensures Num(s, b) == 0
  {
    if s != [] {
      AllZero(s[..|s| - 1], b);
    }
  }
}
