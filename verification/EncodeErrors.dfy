/**
  The errors of the signed encoder as a sum: each byte from 128 on contributes one of two amounts, times a power of
  256. Where digits are lost at the front of a full buffer the sum would have to be a multiple of a power of 29 to go
  unnoticed; a few errors, or errors close together, never are.
 */
module EncodeErrors {
  import opened Arithmetic
  import opened Radix
  import opened Conversion
  import opened SignedEncoding

  const Q: nat := 0x100_0000_0000_0000

  ghost function Marks(inp: seq<nat>): (b: seq<bool>)
    ensures |b| == |inp|
  {
    seq(|inp|, i requires 0 <= i < |inp| => inp[i] >= 128)
  }

  ghost function Count(b: seq<bool>): nat {
    if b == [] then 0 else Count(b[..|b| - 1]) + if b[|b| - 1] then 1 else 0
  }

  /** The sum of the powers of 256 at the marks. */
  ghost function Sum(b: seq<bool>): nat {
    if b == [] then 0 else 256 * Sum(b[..|b| - 1]) + if b[|b| - 1] then 1 else 0
  }

  ghost predicate Within(z: seq<bool>, b: seq<bool>) {
    |z| == |b| && forall i :: 0 <= i < |z| ==> z[i] ==> b[i]
  }

  lemma Push(b: seq<bool>, x: bool)
    ensures Sum(b + [x]) == 256 * Sum(b) + (if x then 1 else 0) && Count(b + [x]) == Count(b) + if x then 1 else 0
  {
    assert (b + [x])[..|b|] == b;
  }

  // ---------------------------------------------------------------- the gap as a sum

  ghost function Amount(b: seq<bool>, z: seq<bool>): int {
    (Q - 1) * Sum(b) - Q * Sum(z)
  }

  lemma AmountPush(b: seq<bool>, z: seq<bool>, x: bool, y: bool)
    ensures Amount(b + [x], z + [y]) == 256 * Amount(b, z) + (if x then Q - 1 else 0) - if y then Q else 0
  {
    Push(b, x);
    Push(z, y);
  }

  /**
    The gap is the amount for the bytes from 128 on, of which those marked in z have left the word, but for lost
    digits.
   */
  lemma {:induction false} GapForm(cap: nat, inp: seq<nat>) returns (z: seq<bool>, m: int)
    requires IsDigits(256, inp)
    ensures Within(z, Marks(inp)) && EncodeGap(cap, inp) == 256 * Amount(Marks(inp), z) + m * Pow(58, cap)
  {
    if inp == [] {
      ValNils(58, cap);
      assert Read(true, inp) == [];
      z, m := [], 0;
    } else {
      var front, c := inp[..|inp| - 1], inp[|inp| - 1];
      assert inp == front + [c] && Marks(inp) == Marks(front) + [c >= 128];
      var y, k := GapForm(cap, front);
      var left, e := EncodeGapStep(cap, front, c);
      z, m := y + [e != 0], 256 * k - left;
      AmountPush(Marks(front), y, c >= 128, e != 0);
      hide *;
      NextForm(EncodeGap(cap, front), Amount(Marks(front), y), k, Pow(58, cap), c, e, left);
    }
  }

  lemma NextForm(g: int, a: int, k: int, p: nat, c: nat, e: int, left: nat)
    requires g == 256 * a + k * p && c < 256 && (e == 0 || (e == 0 - WORD && c >= 128))
    ensures 256 * g + Widened(true, c) - c + e - left * p
         == 256 * (256 * a + (if c >= 128 then Q - 1 else 0) - if e != 0 then Q else 0) + (256 * k - left) * p
  {
    Distribute(256 * k, 0 - left, p);
    Associate(256, k, p);
  }

  // ---------------------------------------------------------------- what the sum is not a multiple of

  /** What the sum of up to three marks can leave modulo 29. */
  ghost predicate Leaves(k: nat, r: nat) {
    if k == 0 then r == 0
    else if k == 1 then r in {1, 7, 16, 20, 23, 24, 25}
    else if k == 2 then r !in {0, 4, 5, 6, 9, 13, 22, 28}
    else if k == 3 then r != 0
    else true
  }

  lemma LeavesStep(k: nat, s: nat, x: bool)
    requires Leaves(k, s % 29)
    ensures Leaves(if x then k + 1 else k, (256 * s + if x then 1 else 0) % 29)
  {
    Turn(s, x);
    if x {
      LeavesMore(k, s % 29);
    } else {
      LeavesTurned(k, s % 29);
    }
  }

  lemma LeavesTurned(k: nat, r: nat)
    requires r < 29 && Leaves(k, r)
    ensures Leaves(k, 24 * r % 29)
  {
  }

  lemma LeavesMore(k: nat, r: nat)
    requires r < 29 && Leaves(k, r)
    ensures Leaves(k + 1, (24 * r + 1) % 29)
  {
  }

  lemma {:induction false} FewLeave(b: seq<bool>)
    ensures Leaves(Count(b), Sum(b) % 29)
  {
    if b != [] {
      FewLeave(b[..|b| - 1]);
      LeavesStep(Count(b[..|b| - 1]), Sum(b[..|b| - 1]), b[|b| - 1]);
    }
  }

  lemma {:induction false} WithinCounts(z: seq<bool>, b: seq<bool>)
    requires Within(z, b)
    ensures Count(z) <= Count(b) && (Count(z) == 0 ==> Sum(z) == 0)
  {
    if z != [] {
      WithinCounts(z[..|z| - 1], b[..|b| - 1]);
    }
  }

  lemma Shift29(k: int, x: int)
    ensures (29 * k + x) % 29 == x % 29
  {
  }

  lemma Shift841(k: int, x: int)
    ensures (841 * k + x) % 841 == x % 841
  {
  }

  const G: nat := 2484744621997515

  /** An amount is no multiple of 29 if the marks that left the word are none. */
  lemma AmountBy29(s: nat, t: nat)
    requires t % 29 != 0
    ensures ((Q - 1) * s - Q * t) % 841 != 0
  {
    var a := (Q - 1) * s - Q * t;
    assert a == 29 * (G * s - G * t) + (0 - t);
    Shift29(G * s - G * t, 0 - t);
    assert (0 - t) % 29 != 0;
    if a % 841 == 0 {
      assert a == 29 * (29 * (a / 841));
      Shift29(29 * (a / 841), 0);
    }
  }

  /** Without any of those it is a multiple of 29 only once. */
  lemma AmountBy841(s: nat)
    requires s % 29 != 0
    ensures ((Q - 1) * s) % 841 != 0
  {
    var u, r := s / 29, s % 29;
    assert s == 29 * u + r;
    assert (Q - 1) * s == 841 * (G * u + 85680849034397 * r) + 58 * r;
    Shift841(G * u + 85680849034397 * r, 58 * r);
  }

  /** One to three errors are never a multiple of the square of 29. */
  lemma FewErrors(b: seq<bool>, z: seq<bool>)
    requires Within(z, b) && 1 <= Count(b) <= 3
    ensures Amount(b, z) % 841 != 0
  {
    WithinCounts(z, b);
    FewLeave(b);
    FewLeave(z);
    if Count(z) == 0 {
      AmountBy841(Sum(b));
    } else {
      AmountBy29(Sum(b), Sum(z));
    }
  }

  // ---------------------------------------------------------------- errors close together

  /** What the sum of some, but not all, of n places can leave modulo 29. */
  ghost predicate Spread(n: nat, r: nat) {
    if n <= 1 then false
    else if n == 2 then r in {1, 24}
    else if n == 3 then r in {1, 20, 24, 25, 26}
    else if n == 4 then r in {1, 11, 15, 16, 17, 20, 21, 24, 25, 26}
    else if n == 5 then r !in {0, 5, 6, 9, 10, 14, 18, 19, 22, 23, 28}
    else if n == 6 then r !in {0, 6}
    else r != 0
  }

  /** The sum of all of n places. */
  ghost function All(n: nat): nat {
    if n == 0 then 0 else 256 * All(n - 1) + 1
  }

  lemma AllPlaces()
    ensures All(1) % 29 == 1 && All(2) % 29 == 25 && All(3) % 29 == 21 && All(4) % 29 == 12
    ensures All(5) % 29 == 28 && All(6) % 29 == 6 && All(7) == 282578800148737
  {
  }

  lemma Turn(s: nat, x: bool)
    ensures (256 * s + if x then 1 else 0) % 29 == (24 * (s % 29) + if x then 1 else 0) % 29
  {
    var q, r, d := s / 29, s % 29, if x then 1 else 0;
    assert 256 * s + d == (256 * q + 8 * r) * 29 + (24 * r + d);
    ModMultiple(256 * q + 8 * r, 29, 24 * r + d);
  }

  lemma SpreadTurned(n: nat, r: nat)
    requires n < 7 && r < 29 && Spread(n, r)
    ensures Spread(n + 1, 24 * r % 29)
  {
  }

  lemma SpreadMore(n: nat, r: nat)
    requires n < 7 && r < 29 && Spread(n, r)
    ensures Spread(n + 1, (24 * r + 1) % 29)
  {
  }

  lemma SpreadStep(n: nat, r: nat, x: bool)
    requires n < 7 && r < 29 && Spread(n, r)
    ensures Spread(n + 1, (24 * r + if x then 1 else 0) % 29)
  {
    hide Spread;
    if x {
      SpreadMore(n, r);
    } else {
      SpreadTurned(n, r);
    }
  }

  /** Of up to seven places none is marked, or all are, or the sum is no multiple of 29. */
  lemma {:induction false} SevenPlaces(b: seq<bool>)
    requires |b| <= 7
    ensures Count(b) <= |b| && (Count(b) == 0 ==> Sum(b) == 0) && (Count(b) == |b| ==> Sum(b) == All(|b|))
    ensures 0 < Count(b) < |b| ==> Spread(|b|, Sum(b) % 29)
  {
    if b != [] {
      var n := |b| - 1;
      var front, x := b[..n], b[n];
      SevenPlaces(front);
      AllPlaces();
      Turn(Sum(front), x);
      hide All;
      if 0 < Count(front) < n {
        SpreadStep(n, Sum(front) % 29, x);
      }
    }
  }

  lemma SpreadNonzero(n: nat, r: nat)
    requires n <= 7 && Spread(n, r)
    ensures r != 0
  {
  }

  lemma AllNonzero(n: nat)
    requires 1 <= n <= 6
    ensures All(n) % 29 != 0
  {
    AllPlaces();
    hide All;
  }

  /**
    Errors within seven places are not a multiple of the square of 29 either, but for seven that do not leave the
    word.
   */
  lemma CloseErrors(b: seq<bool>, z: seq<bool>)
    requires Within(z, b) && |b| <= 7 && Count(b) > 0
    ensures Amount(b, z) % 841 != 0 || (|b| == 7 && Count(b) == 7 && Amount(b, z) == (Q - 1) * All(7))
  {
    var n := |b|;
    WithinCounts(z, b);
    SevenPlaces(b);
    SevenPlaces(z);
    assert Amount(b, z) == (Q - 1) * Sum(b) - Q * Sum(z);
    hide Amount, Sum, Count, All, Within;
    if 0 < Count(z) < n {
      SpreadNonzero(n, Sum(z) % 29);
      AmountBy29(Sum(b), Sum(z));
    } else if Count(z) == n {
      EverythingLeft(n, Amount(b, z));
    } else if n < 7 || Count(b) < n {
      if Count(b) < n {
        SpreadNonzero(n, Sum(b) % 29);
      } else {
        AllNonzero(n);
      }
      AmountBy841(Sum(b));
    }
  }

  lemma EverythingLeft(n: nat, a: int)
    requires 1 <= n <= 7 && a == (Q - 1) * All(n) - Q * All(n)
    ensures a % 841 != 0
  {
    assert a == 0 - All(n);
    if n == 7 {
      AllPlaces();
    } else {
      AllNonzero(n);
      AmountBy29(All(n), All(n));
    }
  }

  // ---------------------------------------------------------------- the gap stays open

  lemma Undivided(a: int, m: int, p: int, q: int)
    requires 256 * a + m * p == 0
    ensures p == 3364 * q ==> a % 841 == 0
    ensures p == 195112 * q ==> a % 24389 == 0
  {
    if p == 3364 * q {
      Regroup(m, 3364, q);
      By841(a, m * q);
    }
    if p == 195112 * q {
      Regroup(m, 195112, q);
      By24389(a, m * q);
    }
  }

  lemma By841(a: int, k: int)
    requires 256 * a + 3364 * k == 0
    ensures a % 841 == 0
  {
    assert a == 841 * (0 - 7 * a - 92 * k);
  }

  lemma By24389(a: int, k: int)
    requires 256 * a + 195112 * k == 0
    ensures a % 24389 == 0
  {
    assert a == 24389 * (0 - 115 * a - 87648 * k);
  }

  lemma Regroup(m: int, c: int, q: int)
    ensures m * (c * q) == c * (m * q)
  {
    Associate(m, c, q);
    Commute(m, c);
    Associate(c, m, q);
  }

  lemma PowerOf58(cap: nat)
    requires cap >= 2
    ensures Pow(58, cap) == 3364 * Pow(58, cap - 2)
    ensures cap >= 3 ==> Pow(58, cap) == 195112 * Pow(58, cap - 3)
  {
    PowPush(58, cap - 2);
    PowPush(58, cap - 1);
    if cap >= 3 {
      PowPush(58, cap - 3);
    }
  }

  lemma RoomForError(cap: nat, inp: seq<nat>)
    requires IsDigits(256, inp) && !IsDigits(128, inp) && Val(256, inp) < Pow(58, cap)
    ensures cap >= 2 && (|inp| == 7 && inp[0] >= 128 ==> cap >= 3)
  {
    var p :| 0 <= p < |inp| && inp[p] >= 128;
    ValPrefix(256, inp, p + 1);
    assert inp[..p + 1][..p] == inp[..p];
    assert Pow(58, 0) == 1 && Pow(58, 1) == 58 && Pow(58, 2) == 3364;
    if |inp| == 7 && inp[0] >= 128 {
      ValPrefix(256, inp, 2);
      assert inp[..2][..1] == inp[..1] && inp[..1][..0] == [];
    }
  }

  lemma {:induction false} CountMarks(inp: seq<nat>)
    ensures Count(Marks(inp)) == 0 <==> IsDigits(128, inp)
    ensures Count(Marks(inp)) == |inp| <==> forall i :: 0 <= i < |inp| ==> inp[i] >= 128
    ensures Count(Marks(inp)) <= |inp|
  {
    if inp != [] {
      var front := inp[..|inp| - 1];
      CountMarks(front);
      assert inp == front + [inp[|inp| - 1]];
      assert Marks(inp) == Marks(front) + [inp[|inp| - 1] >= 128];
      Push(Marks(front), inp[|inp| - 1] >= 128);
    }
  }

  /**
    Where there is room for the number, up to three bytes from 128 on, or any in seven bytes, are never made up for.
   */
  lemma GapStaysOpen(cap: nat, inp: seq<nat>)
    requires IsDigits(256, inp) && Val(256, inp) < Pow(58, cap)
    requires Count(Marks(inp)) <= 3 || |inp| <= 7
    ensures EncodeGap(cap, inp) == 0 <==> IsDigits(128, inp)
  {
    if IsDigits(128, inp) {
      EncodesSmall(cap, inp);
    } else {
      var z, m := GapForm(cap, inp);
      CountMarks(inp);
      RoomForError(cap, inp);
      hide *;
      if EncodeGap(cap, inp) == 0 {
        var a := Amount(Marks(inp), z);
        PowerOf58(cap);
        Undivided(a, m, Pow(58, cap), Pow(58, cap - 2));
        if Count(Marks(inp)) <= 3 {
          FewErrors(Marks(inp), z);
        } else {
          CloseErrors(Marks(inp), z);
          AllPlaces();
          Undivided(a, m, Pow(58, cap), Pow(58, cap - 3));
        }
      }
    }
  }
}
