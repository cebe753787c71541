/**
  The encoder's loops where characters are signed. Its cells are small and read as they are, but a byte of the input
  from 128 on starts the carry near the end of the word.
 */
module SignedEncoding {
  import opened Arithmetic
  import opened Radix
  import opened Conversion

  lemma SmallCell(carry: nat, x: nat)
    requires x < 58 && carry < WORD
    ensures Miss(true, 256, carry, x) in {0, 0 - WORD} && Next(true, 256, 58, carry, x) < WORD - 65536
    ensures carry < WORD - 65536 ==> Miss(true, 256, carry, x) == 0
  {
    assert Total(true, 256, carry, x) == (carry + 256 * x) % WORD;
  }

  /** A carry that is not near the end of the word meets small cells exactly. */
  lemma {:induction false} SmallExcess(o: seq<nat>, carry: nat, length: nat)
    requires IsDigits(58, o) && carry < WORD - 65536
    ensures Excess(true, 256, 58, o, carry, length) == 0
    decreases |o|
  {
    hide Next, Miss;
    if o != [] && (carry > 0 || length > 0) {
      var x, front := o[|o| - 1], o[..|o| - 1];
      SmallCell(carry, x);
      SmallExcess(front, Next(true, 256, 58, carry, x), Less(length));
    }
  }

  /** Only the first cell can take the carry past the end of the word. */
  lemma WordExcess(o: seq<nat>, carry: nat, length: nat)
    requires IsDigits(58, o) && carry < WORD
    ensures Excess(true, 256, 58, o, carry, length) in {0, 0 - WORD}
  {
    hide Next, Miss;
    if o != [] && (carry > 0 || length > 0) {
      var x, front := o[|o| - 1], o[..|o| - 1];
      SmallCell(carry, x);
      SmallExcess(front, Next(true, 256, 58, carry, x), Less(length));
    }
  }

  ghost function EncodeRun(cap: nat, inp: seq<nat>): (h: Held)
    ensures |h.cells| == cap && h.length <= cap
  {
    Run(true, 256, 58, cap, Read(true, inp))
  }

  /** By how much the cells miss the number that has been read. */
  ghost function EncodeGap(cap: nat, inp: seq<nat>): int {
    Val(58, EncodeRun(cap, inp).cells) - Val(256, inp)
  }

  /** One more byte: the gap, in terms of the carry that was lost at the end. */
  lemma EncodeGapStep(cap: nat, inp: seq<nat>, b: nat) returns (left: nat, e: int)
    requires b < 256
    ensures EncodeGap(cap, inp + [b]) == 256 * EncodeGap(cap, inp) + Widened(true, b) - b + e - left * Pow(58, cap)
    ensures e == 0 || (e == 0 - WORD && b >= 128)
    ensures EncodeRun(cap, inp).length <= EncodeRun(cap, inp + [b]).length
    ensures left > 0 ==> EncodeRun(cap, inp + [b]).length == cap
  {
    var all := inp + [b];
    ReadPush(true, inp, b);
    RunPush(true, 256, 58, cap, Read(true, inp), Widened(true, b));
    var h, c := EncodeRun(cap, inp), Widened(true, b);
    RunTidy(true, 256, 58, cap, Read(true, inp));
    var r := Sweep(true, 256, 58, h.cells, c, h.length);
    SweepValue(true, 256, 58, h.cells, c, h.length);
    SweepTidy(true, 256, 58, h.cells, c, h.length);
    WordExcess(h.cells, c, h.length);
    if b < 128 {
      SmallExcess(h.cells, c, h.length);
    }
    left, e := r.left, Excess(true, 256, 58, h.cells, c, h.length);
    ValPush(256, inp, b);
    assert EncodeRun(cap, all) == Held(r.cells, r.length);
  }

  /** As long as cells are left over, a byte from 128 on is never made up for. */
  lemma {:induction false} EncodeGapGrows(cap: nat, inp: seq<nat>)
    requires IsDigits(256, inp) && EncodeRun(cap, inp).length < cap
    ensures EncodeGap(cap, inp) % 256 == 0 && (EncodeGap(cap, inp) == 0 <==> IsDigits(128, inp))
  {
    if inp == [] {
      ValNils(58, cap);
      assert Read(true, inp) == [];
    } else {
      var front, b := inp[..|inp| - 1], inp[|inp| - 1];
      assert inp == front + [b];
      var left, e := EncodeGapStep(cap, front, b);
      EncodeGapGrows(cap, front);
      assert left == 0 && left * Pow(58, cap) == 0;
      assert IsDigits(128, inp) <==> IsDigits(128, front) && b < 128;
      hide EncodeGap, EncodeRun, Pow, IsDigits;
      NewGap(EncodeGap(cap, front), b, e);
    }
  }

  lemma NewGap(g: int, b: nat, e: int)
    requires g % 256 == 0 && b < 256 && (e == 0 || (e == 0 - WORD && b >= 128))
    ensures var h := 256 * g + Widened(true, b) - b + e;
            h % 256 == 0 && (h == 0 <==> g == 0 && b < 128)
  {
    var q := g / 256;
    assert g == 256 * q;
    var h := 256 * g + Widened(true, b) - b + e;
    if b >= 128 {
      var w := if e == 0 then 256 * q + 0x100_0000_0000_0000 - 1 else 256 * q - 1;
      assert h == 256 * w;
    } else {
      assert h == 256 * g;
    }
  }

  /** And without room to spare, the first such byte is wrong at once. */
  lemma EncodeGapOpens(cap: nat, inp: seq<nat>, b: nat)
    requires 128 <= b < 256 && EncodeGap(cap, inp) == 0 && Val(256, inp + [b]) < Pow(58, cap)
    ensures EncodeGap(cap, inp + [b]) != 0
  {
    var left, e := EncodeGapStep(cap, inp, b);
    ValPush(256, inp, b);
    assert Pow(58, 0) == 1 && Pow(58, 1) == 58;
    assert cap >= 2;
    var q := Pow(58, cap - 2);
    assert Pow(58, cap) == 58 * (58 * q);
    Associate(left, 3364, q);
    Commute(left, 3364);
    Associate(3364, left, q);
    assert left * Pow(58, cap) == 3364 * (left * q);
    assert (WORD - 256) % 3364 != 0;
    hide *;
  }

  ghost predicate EncodesEachByte(cap: nat, inp: seq<nat>) {
    forall p :: 0 <= p <= |inp| ==> EncodeGap(cap, inp[..p]) == 0
  }

  /** The cells hold the number read after every byte if and only if every byte is below 128. */
  lemma EncodesEachByteIff(cap: nat, inp: seq<nat>)
    requires IsDigits(256, inp) && Val(256, inp) < Pow(58, cap)
    ensures EncodesEachByte(cap, inp) <==> IsDigits(128, inp)
  {
    if IsDigits(128, inp) {
      forall p | 0 <= p <= |inp| ensures EncodeGap(cap, inp[..p]) == 0 {
        ValPrefix(256, inp, p);
        EncodesSmall(cap, inp[..p]);
      }
    } else if EncodesEachByte(cap, inp) {
      var p :| 0 <= p < |inp| && inp[p] >= 128;
      assert inp[..p + 1] == inp[..p] + [inp[p]];
      ValPrefix(256, inp, p + 1);
      var before, after := EncodeGap(cap, inp[..p]), EncodeGap(cap, inp[..p + 1]);
      assert before == 0 && after == 0;
      EncodeGapOpens(cap, inp[..p], inp[p]);
    }
  }

  lemma EncodesSmall(cap: nat, inp: seq<nat>)
    requires IsDigits(128, inp) && Val(256, inp) < Pow(58, cap)
    ensures EncodeRun(cap, inp) == Run(false, 256, 58, cap, inp) && EncodeGap(cap, inp) == 0
  {
    ReadPlain(true, inp);
    SmallRun(cap, inp);
    UnsignedClean(256, 58, cap, inp);
    CleanRunHolds(false, 256, 58, cap, inp);
    var h := Run(false, 256, 58, cap, inp);
    HeldDigits(h.cells, 58, h.length, Val(256, inp));
  }

  /** The encoder's cells are read alike either way. */
  lemma {:induction false} SmallRun(cap: nat, inp: seq<nat>)
    ensures Run(true, 256, 58, cap, inp) == Run(false, 256, 58, cap, inp)
  {
    if inp != [] {
      var front := inp[..|inp| - 1];
      SmallRun(cap, front);
      var h := Run(true, 256, 58, cap, front);
      RunTidy(true, 256, 58, cap, front);
      SmallSweep(h.cells, inp[|inp| - 1], h.length);
    }
  }

  lemma {:induction false} SmallSweep(o: seq<nat>, carry: nat, length: nat)
    requires IsDigits(58, o)
    ensures Sweep(true, 256, 58, o, carry, length) == Sweep(false, 256, 58, o, carry, length)
    decreases |o|
  {
    if o != [] && (carry > 0 || length > 0) {
      var x, front := o[|o| - 1], o[..|o| - 1];
      SmallSweep(front, Next(true, 256, 58, carry, x), Less(length));
    }
  }
}
