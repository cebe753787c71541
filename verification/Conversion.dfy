/**
  The two nested loops of the radix conversion, as functions on the working cells. The carry is a 64-bit word, and
  characters may be signed: a cell from 128 on is then read as a negative number, sign-extended to the word.
 */
module Conversion {
  import opened Arithmetic
  import opened Radix

  const WORD: nat := 0x1_0000_0000_0000_0000

  /** What a character is worth in a sum with the carry. */
  function Widened(signed: bool, c: nat): (w: nat) {
    if signed && 128 <= c < 256 then WORD - 256 + c else c
  }

  /** What the carry starts from for each byte of an input. */
  ghost function Read(signed: bool, s: seq<nat>): (r: seq<nat>)
    ensures |r| == |s|
  {
    seq(|s|, i requires 0 <= i < |s| => Widened(signed, s[i]))
  }

  lemma ReadPush(signed: bool, s: seq<nat>, c: nat)
    ensures Read(signed, s + [c]) == Read(signed, s) + [Widened(signed, c)]
  {
  }

  lemma ReadPlain(signed: bool, s: seq<nat>)
    requires signed ==> IsDigits(128, s)
    ensures Read(signed, s) == s
  {
  }

  /** The carry after a cell has been multiplied and added to it. */
  function Total(signed: bool, from: nat, carry: nat, c: nat): (t: nat)
    ensures t < WORD
  {
    (carry + from * Widened(signed, c)) % WORD
  }

  /** The digit written to a cell, and the carry passed on. */
  function Digit(signed: bool, from: nat, to: nat, carry: nat, c: nat): (d: nat)
    requires to > 0
    ensures d < to
  {
    Total(signed, from, carry, c) % to
  }

  function Next(signed: bool, from: nat, to: nat, carry: nat, c: nat): nat
    requires to > 0
  {
    Total(signed, from, carry, c) / to
  }

  /** The cells after a sweep, how many of them it visited, and the carry that was left at the end. */
  datatype Swept = Swept(cells: seq<nat>, length: nat, left: nat)

  /** The inner loop, from the last cell on, until there is no carry and no working digit left, or no cell. */
  ghost function Sweep(signed: bool, from: nat, to: nat, o: seq<nat>, carry: nat, length: nat): (r: Swept)
    requires to > 1
    ensures |r.cells| == |o| && r.length <= |o|
    decreases |o|
  {
    if o == [] || (carry == 0 && length == 0) then Swept(o, 0, carry) else
    var x, front := o[|o| - 1], o[..|o| - 1];
    var r := Sweep(signed, from, to, front, Next(signed, from, to, carry, x), Less(length));
    Swept(r.cells + [Digit(signed, from, to, carry, x)], r.length + 1, r.left)
  }

  function Less(length: nat): nat {
    if length == 0 then 0 else length - 1
  }

  /** The working cells and how many of them are in use. */
  datatype Held = Held(cells: seq<nat>, length: nat)

  /** The outer loop, on cells that are all zero at first; the input is given as what the carry starts from. */
  ghost function Run(signed: bool, from: nat, to: nat, cap: nat, inp: seq<nat>): (h: Held)
    requires to > 1
    ensures |h.cells| == cap && h.length <= cap
  {
    if inp == [] then Held(Nils(cap), 0) else
    var h := Run(signed, from, to, cap, inp[..|inp| - 1]);
    var r := Sweep(signed, from, to, h.cells, inp[|inp| - 1], h.length);
    Held(r.cells, r.length)
  }

  lemma RunPush(signed: bool, from: nat, to: nat, cap: nat, inp: seq<nat>, c: nat)
    requires to > 1
    ensures var h := Run(signed, from, to, cap, inp);
            var r := Sweep(signed, from, to, h.cells, c, h.length);
            Run(signed, from, to, cap, inp + [c]) == Held(r.cells, r.length)
  {
    assert (inp + [c])[..|inp|] == inp;
  }

  /** Nothing but zeros comes before the digits in use. */
  ghost predicate Tidy(to: nat, cells: seq<nat>, length: nat) {
    && IsDigits(to, cells) && length <= |cells|
    && forall i :: 0 <= i < |cells| - length ==> cells[i] == 0
  }

  // ---------------------------------------------------------------- the value of a sweep

  /** By how much one cell misses the multiple of the old one plus the carry. */
  ghost function Miss(signed: bool, from: nat, carry: nat, c: nat): int {
    Total(signed, from, carry, c) - carry - from * c
  }

  /** By how much a sweep misses the multiple of the old cells plus the carry. */
  ghost function Excess(signed: bool, from: nat, to: nat, o: seq<nat>, carry: nat, length: nat): int
    requires to > 1
    decreases |o|
  {
    if o == [] || (carry == 0 && length == 0) then 0 else
    var x, front := o[|o| - 1], o[..|o| - 1];
    var e := Excess(signed, from, to, front, Next(signed, from, to, carry, x), Less(length));
    Times(e, to) + Miss(signed, from, carry, x)
  }

  function Times(a: int, b: int): int {
    a * b
  }

  /** New cells and the carry left over balance the old cells, the carry and the excess. */
  ghost predicate Balance(from: nat, p: nat, vc: nat, left: nat, vo: nat, carry: nat, e: int) {
    vc + left * p == from * vo + carry + e
  }

  lemma OneCell(signed: bool, from: nat, to: nat, p: nat, carry: nat, x: nat, vo: nat, vc: nat, left: nat, e: int)
    requires to > 0 && Balance(from, p, vc, left, vo, Next(signed, from, to, carry, x), e)
    ensures Balance(from, to * p, vc * to + Digit(signed, from, to, carry, x), left, vo * to + x, carry,
                    Times(e, to) + Miss(signed, from, carry, x))
  {
    var t := Total(signed, from, carry, x);
    hide Total;
    DivIdentity(t, to);
    var q := t / to;
    assert (vc + left * p) * to == (from * vo + q + e) * to;
    Distribute(vc, left * p, to);
    Distribute(from * vo + q, e, to);
    Distribute(from * vo, q, to);
    Associate(left, p, to);
    Commute(p, to);
    Distribute(vo * to, x, from);
    Associate(from, vo, to);
  }

  lemma {:induction false} SweepTidy(signed: bool, from: nat, to: nat, o: seq<nat>, carry: nat, length: nat)
    requires to > 1 && Tidy(to, o, length)
    ensures var r := Sweep(signed, from, to, o, carry, length);
            Tidy(to, r.cells, r.length) && length <= r.length && (r.left > 0 ==> r.length == |o|)
    decreases |o|
  {
    hide Digit, Next;
    if o != [] && (carry > 0 || length > 0) {
      var x, front := o[|o| - 1], o[..|o| - 1];
      SweepTidy(signed, from, to, front, Next(signed, from, to, carry, x), Less(length));
    }
  }

  lemma Unfold(signed: bool, from: nat, to: nat, o: seq<nat>, x: nat, carry: nat, length: nat)
    requires to > 1 && (carry > 0 || length > 0)
    ensures var c := Next(signed, from, to, carry, x);
            var r := Sweep(signed, from, to, o, c, Less(length));
            && Sweep(signed, from, to, o + [x], carry, length)
               == Swept(r.cells + [Digit(signed, from, to, carry, x)], r.length + 1, r.left)
            && Excess(signed, from, to, o + [x], carry, length)
               == Times(Excess(signed, from, to, o, c, Less(length)), to) + Miss(signed, from, carry, x)
  {
    assert (o + [x])[..|o|] == o;
  }

  lemma {:induction false} SweepValue(signed: bool, from: nat, to: nat, o: seq<nat>, carry: nat, length: nat)
    requires to > 1 && Tidy(to, o, length)
    ensures var r := Sweep(signed, from, to, o, carry, length);
            Balance(from, Pow(to, |o|), Val(to, r.cells), r.left, Val(to, o), carry,
                    Excess(signed, from, to, o, carry, length))
    decreases |o|, 1
  {
    if o == [] || (carry == 0 && length == 0) {
      IdleValue(signed, from, to, o, carry, length);
    } else {
      var x, front := o[|o| - 1], o[..|o| - 1];
      assert o == front + [x] && Tidy(to, front, Less(length));
      hide *;
      SweepMore(signed, from, to, front, x, carry, length);
    }
  }

  lemma {:induction false} SweepMore(signed: bool, from: nat, to: nat, front: seq<nat>, x: nat, carry: nat, length: nat)
    requires to > 1 && Tidy(to, front, Less(length)) && (carry > 0 || length > 0)
    ensures var o := front + [x];
            var r := Sweep(signed, from, to, o, carry, length);
            Balance(from, Pow(to, |o|), Val(to, r.cells), r.left, Val(to, o), carry,
                    Excess(signed, from, to, o, carry, length))
    decreases |front|, 2
  {
    hide *;
    var c, d := Next(signed, from, to, carry, x), Digit(signed, from, to, carry, x);
    SweepValue(signed, from, to, front, c, Less(length));
    var r, e := Sweep(signed, from, to, front, c, Less(length)), Excess(signed, from, to, front, c, Less(length));
    Unfold(signed, from, to, front, x, carry, length);
    ValPush(to, r.cells, d);
    ValPush(to, front, x);
    PowPush(to, |front|);
    OneCell(signed, from, to, Pow(to, |front|), carry, x, Val(to, front), Val(to, r.cells), r.left, e);
  }

  lemma IdleValue(signed: bool, from: nat, to: nat, o: seq<nat>, carry: nat, length: nat)
    requires to > 1 && Tidy(to, o, length) && (o == [] || (carry == 0 && length == 0))
    ensures var r := Sweep(signed, from, to, o, carry, length);
            Balance(from, Pow(to, |o|), Val(to, r.cells), r.left, Val(to, o), carry,
                    Excess(signed, from, to, o, carry, length))
  {
    ValNils(to, |o|);
    assert o == Nils(|o|);
  }

  lemma {:induction false} RunTidy(signed: bool, from: nat, to: nat, cap: nat, inp: seq<nat>)
    requires to > 1
    ensures var h := Run(signed, from, to, cap, inp); Tidy(to, h.cells, h.length)
  {
    if inp != [] {
      RunTidy(signed, from, to, cap, inp[..|inp| - 1]);
      var h := Run(signed, from, to, cap, inp[..|inp| - 1]);
      SweepTidy(signed, from, to, h.cells, inp[|inp| - 1], h.length);
    }
  }

  // ---------------------------------------------------------------- clean sweeps

  /** Every cell is read as it is. */
  ghost predicate Clean(signed: bool, o: seq<nat>) {
    signed ==> IsDigits(128, o)
  }

  lemma CleanCell(signed: bool, from: nat, to: nat, carry: nat, x: nat)
    requires 1 < from <= 256 && 1 < to <= 256 && carry < from && x < to && (signed ==> x < 128)
    ensures Miss(signed, from, carry, x) == 0 && Next(signed, from, to, carry, x) < from
    ensures Next(signed, from, to, carry, x) == 0 && (carry > 0 || x > 0) ==> Digit(signed, from, to, carry, x) != 0
  {
    CarryBound(from, to, carry, x);
    MulMonotone(from, 256, x, 256);
    MulMonotone(from, from, if x > 0 then 1 else 0, x);
    DivIdentity(carry + from * x, to);
    ModSmall(carry + from * x, WORD);
    assert Total(signed, from, carry, x) == carry + from * x;
  }

  /** A clean sweep is exact. */
  lemma {:induction false} CleanExcess(signed: bool, from: nat, to: nat, o: seq<nat>, carry: nat, length: nat)
    requires 1 < from <= 256 && 1 < to <= 256 && carry < from && IsDigits(to, o) && Clean(signed, o)
    ensures Excess(signed, from, to, o, carry, length) == 0
    decreases |o|
  {
    hide Digit, Next, Miss;
    if o != [] && (carry > 0 || length > 0) {
      var x, front := o[|o| - 1], o[..|o| - 1];
      CleanCell(signed, from, to, carry, x);
      CleanExcess(signed, from, to, front, Next(signed, from, to, carry, x), Less(length));
    }
  }

  /** And it leaves no zero in front. */
  lemma {:induction false} CleanTop(signed: bool, from: nat, to: nat, o: seq<nat>, carry: nat, length: nat)
    requires 1 < from <= 256 && 1 < to <= 256 && carry < from && Tidy(to, o, length) && Clean(signed, o)
    requires length > 0 ==> o[|o| - length] != 0
    ensures var r := Sweep(signed, from, to, o, carry, length);
            r.length > 0 && r.left == 0 ==> r.cells[|o| - r.length] != 0
    decreases |o|
  {
    hide Digit, Next, Miss;
    if o != [] && (carry > 0 || length > 0) {
      var x, front := o[|o| - 1], o[..|o| - 1];
      var c := Next(signed, from, to, carry, x);
      CleanCell(signed, from, to, carry, x);
      CleanTop(signed, from, to, front, c, Less(length));
      var r := Sweep(signed, from, to, front, c, Less(length));
      if r.length == 0 && r.left == 0 {
        NothingMore(signed, from, to, front, c, Less(length));
      }
    }
  }

  lemma NothingMore(signed: bool, from: nat, to: nat, o: seq<nat>, carry: nat, length: nat)
    requires to > 1 && length <= |o|
    requires var r := Sweep(signed, from, to, o, carry, length); r.length == 0 && r.left == 0
    ensures carry == 0 && length == 0
  {
  }

  /**
    The working cells: the last `length` of them stand for v, as far as there are cells for it, and nothing but
    zeros comes before them.
   */
  ghost predicate Holds(cells: seq<nat>, base: nat, length: nat, v: nat) {
    && base > 1 && Tidy(base, cells, length)
    && Val(base, cells) == v % Pow(base, |cells|)
    && (v < Pow(base, |cells|) && length > 0 ==> cells[|cells| - length] != 0)
    && (v >= Pow(base, |cells|) ==> length == |cells|)
  }

  /** What is left in the cells is the remainder, and there is no carry if it fits. */
  lemma Remainder(from: nat, v: nat, m: nat, digit: nat, carry: nat, r: nat)
    requires from > 0 && r < m && r + carry * m == from * (v % m) + digit
    ensures r == (from * v + digit) % m
    ensures from * v + digit < m ==> v < m && carry == 0
    ensures v < m && carry == 0 ==> from * v + digit < m
  {
    MulMonotone(1, from, v, v);
    ModMulAdd(from, v, m, digit);
    if carry == 0 {
      ModSmall(r, m);
    } else {
      DivUnique(from * (v % m) + digit, m, carry, r);
    }
    if v < m {
      ModSmall(v, m);
      if carry > 0 {
        MulGe(carry, m);
      }
    }
  }

  /** A clean sweep multiplies by the base and adds the digit. */
  lemma CleanStep(signed: bool, from: nat, to: nat, o: seq<nat>, digit: nat, length: nat, v: nat)
    requires 1 < from <= 256 && 1 < to <= 256 && digit < from && Holds(o, to, length, v) && Clean(signed, o)
    ensures var r := Sweep(signed, from, to, o, digit, length); Holds(r.cells, to, r.length, from * v + digit)
  {
    var r := Sweep(signed, from, to, o, digit, length);
    SweepValue(signed, from, to, o, digit, length);
    SweepTidy(signed, from, to, o, digit, length);
    ValBound(to, r.cells);
    var m := Pow(to, |o|);
    assert v < m && length > 0 ==> o[|o| - length] != 0;
    assert Val(to, o) == v % m;
    CleanExcess(signed, from, to, o, digit, length);
    if v < m {
      CleanTop(signed, from, to, o, digit, length);
    }
    hide Val, Pow, Sweep, Excess;
    Remainder(from, v, m, digit, r.left, Val(to, r.cells));
  }

  lemma HoldsNothing(base: nat, cap: nat)
    requires base > 1
    ensures Holds(Nils(cap), base, 0, 0)
  {
    ValNils(base, cap);
    ModSmall(0, Pow(base, cap));
  }

  /** Reading one more digit of the input. */
  lemma ReadOne(base: nat, s: seq<nat>, p: nat)
    requires p < |s|
    ensures Val(base, s[..p + 1]) == base * Val(base, s[..p]) + s[p]
  {
    assert s[..p + 1][..p] == s[..p];
    Commute(base, Val(base, s[..p]));
  }

  /** Every sweep of the run is clean. */
  ghost predicate CleanRun(signed: bool, from: nat, to: nat, cap: nat, inp: seq<nat>)
    requires to > 1
  {
    inp == [] ||
    var front := inp[..|inp| - 1];
    CleanRun(signed, from, to, cap, front) && Clean(signed, Run(signed, from, to, cap, front).cells)
  }

  lemma {:induction false} UnsignedClean(from: nat, to: nat, cap: nat, inp: seq<nat>)
    requires to > 1
    ensures CleanRun(false, from, to, cap, inp)
  {
    if inp != [] {
      UnsignedClean(from, to, cap, inp[..|inp| - 1]);
    }
  }

  /** Then the cells hold the number that has been read. */
  lemma {:induction false} CleanRunHolds(signed: bool, from: nat, to: nat, cap: nat, inp: seq<nat>)
    requires 1 < from <= 256 && 1 < to <= 256 && IsDigits(from, inp) && CleanRun(signed, from, to, cap, inp)
    ensures var h := Run(signed, from, to, cap, inp); Holds(h.cells, to, h.length, Val(from, inp))
  {
    if inp == [] {
      HoldsNothing(to, cap);
    } else {
      var n := |inp| - 1;
      var front := inp[..n];
      CleanRunHolds(signed, from, to, cap, front);
      ReadOne(from, inp, n);
      assert inp[..|inp|] == inp;
      var h := Run(signed, from, to, cap, front);
      hide Holds, Val, Clean;
      CleanStep(signed, from, to, h.cells, inp[n], h.length, Val(from, front));
    }
  }

  /** The digits in use are the digits of the number, when the cells can hold it. */
  lemma HeldDigits(cells: seq<nat>, base: nat, length: nat, v: nat)
    requires Holds(cells, base, length, v) && v < Pow(base, |cells|)
    ensures cells[|cells| - length..] == Digits(base, v) && Val(base, cells) == v
  {
    ValSuffix(base, cells, length);
    ModSmall(v, Pow(base, |cells|));
    DigitsUnique(base, cells[|cells| - length..]);
  }

  /** And when they are, the cells stand for the number. */
  lemma DigitsHeld(cells: seq<nat>, base: nat, length: nat, v: nat)
    requires base > 1 && Tidy(base, cells, length) && cells[|cells| - length..] == Digits(base, v)
    ensures Val(base, cells) == v
  {
    ValSuffix(base, cells, length);
    DigitsStandForIt(base, v);
  }
}
