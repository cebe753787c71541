/** Positional numbers: big-endian digit strings in any base, and the conversion between two bases. */
module Radix {
  import opened Arithmetic

  function Pow(b: nat, n: nat): (p: nat)
    ensures b > 0 ==> p > 0
  {
    if n == 0 then 1 else PowPos(b, Pow(b, n - 1)); b * Pow(b, n - 1)
  }

  lemma PowPos(b: nat, p: nat)
    ensures b > 0 && p > 0 ==> b * p > 0
  {
  }

  ghost predicate IsDigits(b: nat, s: seq<nat>) {
    forall i :: 0 <= i < |s| ==> s[i] < b
  }

  /** The number that a digit string stands for. */
  ghost function Val(b: nat, s: seq<nat>): nat {
    if s == [] then 0 else Val(b, s[..|s| - 1]) * b + s[|s| - 1]
  }

  /** The digits of a number, without leading zeros; zero has none. */
  ghost function Digits(b: nat, n: nat): seq<nat>
    requires b > 1
  {
    if n == 0 then [] else DivShrinks(n, b); Digits(b, n / b) + [n % b]
  }

  function Lead(s: seq<nat>): (z: nat)
    ensures z <= |s| && (forall i :: 0 <= i < z ==> s[i] == 0) && (z < |s| ==> s[z] != 0)
  {
    if s == [] || s[0] != 0 then 0 else 1 + Lead(s[1..])
  }

  function Nils(n: nat): (s: seq<nat>)
    ensures |s| == n && forall i :: 0 <= i < n ==> s[i] == 0
  {
    seq(n, _ => 0)
  }

  /** Base conversion that keeps leading zeros one for one. */
  ghost function Convert(a: nat, b: nat, s: seq<nat>): seq<nat>
    requires b > 1
  {
    Nils(Lead(s)) + Digits(b, Val(a, s))
  }

  // ---------------------------------------------------------------- powers

  lemma PowPush(b: nat, n: nat)
    ensures Pow(b, n + 1) == b * Pow(b, n)
  {
  }

  lemma {:induction false} PowAdd(b: nat, m: nat, n: nat)
    ensures Pow(b, m + n) == Pow(b, m) * Pow(b, n)
  {
    if m > 0 {
      PowAdd(b, m - 1, n);
      Associate(b, Pow(b, m - 1), Pow(b, n));
    }
  }

  lemma {:induction false} PowMonotone(b: nat, m: nat, n: nat)
    requires b > 0 && m <= n
    ensures Pow(b, m) <= Pow(b, n)
    decreases n
  {
    if m < n {
      PowMonotone(b, m, n - 1);
    }
  }

  // ---------------------------------------------------------------- values

  lemma ValPush(b: nat, s: seq<nat>, d: nat)
    ensures Val(b, s + [d]) == Val(b, s) * b + d
  {
    assert (s + [d])[..|s|] == s;
  }

  /** The number of a prefix is no greater. */
  lemma {:induction false} ValPrefix(b: nat, s: seq<nat>, p: nat)
    requires b > 0 && p <= |s|
    ensures Val(b, s[..p]) <= Val(b, s)
  {
    if p < |s| {
      var n := |s| - 1;
      ValPrefix(b, s[..n], p);
      assert s[..n][..p] == s[..p];
      MulMonotone(Val(b, s[..n]), Val(b, s[..n]), 1, b);
    } else {
      assert s[..p] == s;
    }
  }

  lemma {:induction false} ValConcat(b: nat, s: seq<nat>, t: seq<nat>)
    ensures Val(b, s + t) == Val(b, s) * Pow(b, |t|) + Val(b, t)
  {
    if t == [] {
      assert s + t == s;
    } else {
      var n := |t| - 1;
      ValConcat(b, s, t[..n]);
      assert (s + t)[..|s + t| - 1] == s + t[..n];
      var v, p, w := Val(b, s), Pow(b, n), Val(b, t[..n]);
      Distribute(v * p, w, b);
      Associate(v, p, b);
    }
  }

  lemma {:induction false} ValNils(b: nat, n: nat)
    ensures Val(b, Nils(n)) == 0
  {
    if n > 0 {
      ValNils(b, n - 1);
      assert Nils(n)[..n - 1] == Nils(n - 1);
    }
  }

  lemma ValAfterNils(b: nat, n: nat, s: seq<nat>)
    ensures Val(b, Nils(n) + s) == Val(b, s)
  {
    ValConcat(b, Nils(n), s);
    ValNils(b, n);
  }

  lemma {:induction false} ValBound(b: nat, s: seq<nat>)
    requires b > 0 && IsDigits(b, s)
    ensures Val(b, s) < Pow(b, |s|)
  {
    if s != [] {
      var n := |s| - 1;
      ValBound(b, s[..n]);
      MulMonotone(Val(b, s[..n]) + 1, Pow(b, n), b, b);
      Distribute(Val(b, s[..n]), 1, b);
    }
  }

  // ---------------------------------------------------------------- digits

  lemma {:induction false} DigitsStandForIt(b: nat, n: nat)
    requires b > 1
    ensures Val(b, Digits(b, n)) == n && IsDigits(b, Digits(b, n))
    ensures n > 0 ==> Digits(b, n) != [] && Digits(b, n)[0] != 0
  {
    if n > 0 {
      DivShrinks(n, b);
      DivIdentity(n, b);
      DigitsStandForIt(b, n / b);
    }
  }

  lemma {:induction false} DigitsUnique(b: nat, s: seq<nat>)
    requires b > 1 && IsDigits(b, s) && (s == [] || s[0] != 0)
    ensures Digits(b, Val(b, s)) == s
  {
    if s != [] {
      var n := |s| - 1;
      var v := Val(b, s[..n]);
      DigitsUnique(b, s[..n]);
      DivUnique(Val(b, s), b, v, s[n]);
      if n > 0 {
        assert Digits(b, v) != [];
        assert v * b >= 0;
      }
    }
  }

  /** A number has at most k digits exactly when it is below the k-th power. */
  lemma {:induction false} DigitsFit(b: nat, n: nat, k: nat)
    requires b > 1
    ensures |Digits(b, n)| <= k <==> n < Pow(b, k)
  {
    if k > 0 && n > 0 {
      assert |Digits(b, n)| == |Digits(b, n / b)| + 1;
      assert Pow(b, k) == b * Pow(b, k - 1);
      hide Digits, Pow;
      DivShrinks(n, b);
      DigitsFit(b, n / b, k - 1);
      DivBelow(n, b, Pow(b, k - 1));
    }
  }

  // ---------------------------------------------------------------- conversion

  lemma {:induction false} LeadIs(z: nat, s: seq<nat>)
    requires s == [] || s[0] != 0
    ensures Lead(Nils(z) + s) == z
  {
    if z == 0 {
      assert Nils(z) + s == s;
    } else {
      LeadIs(z - 1, s);
      assert (Nils(z) + s)[1..] == Nils(z - 1) + s;
    }
  }

  /** Converting to another base and back gives the string again, leading zeros included. */
  lemma ConvertInverse(a: nat, b: nat, s: seq<nat>)
    requires a > 1 && b > 1 && IsDigits(a, s)
    ensures IsDigits(b, Convert(a, b, s))
    ensures Convert(b, a, Convert(a, b, s)) == s
  {
    var z := Lead(s);
    var core := s[z..];
    assert s == Nils(z) + core;
    ValAfterNils(a, z, core);
    var v := Val(a, s);
    DigitsStandForIt(b, v);
    var d := Digits(b, v);
    DigitsStandForIt(b, 0);
    LeadIs(z, d);
    ValAfterNils(b, z, d);
    DigitsUnique(a, core);
  }

  // ---------------------------------------------------------------- multiply and add, digit by digit

  /** The carry stays below the base that is multiplied by. */
  lemma CarryBound(from: nat, to: nat, carry: nat, o: nat)
    requires 0 < to && carry < from && o < to
    ensures 0 <= (carry + from * o) / to < from && 0 <= (carry + from * o) % to < to
  {
    DivIdentity(carry + from * o, to);
    MulMonotone(from, from, o + 1, to);
    Distribute(o, 1, from);
    DivBelow(carry + from * o, to, from);
    Commute(from, to);
  }

  /** A suffix of a string whose other digits are zero stands for the same number. */
  lemma ValSuffix(b: nat, s: seq<nat>, n: nat)
    requires n <= |s| && forall i :: 0 <= i < |s| - n ==> s[i] == 0
    ensures Val(b, s[|s| - n..]) == Val(b, s)
  {
    hide Val;
    ValAfterNils(b, |s| - n, s[|s| - n..]);
    assert s == Nils(|s| - n) + s[|s| - n..];
  }
}
