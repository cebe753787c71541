/**
  The base58 codec: radix conversion done in place in the caller's buffer, one input byte at a time, with one
  output character per leading zero.
 */
module Base58 {
  import opened Arithmetic
  import opened Bytes
  import opened Radix
  import opened Conversion
  import opened Options

  /** How a call ends: with a result, at a character outside the alphabet, or by writing past the end of the buffer. */
  datatype Outcome<T> = Done(value: T) | Foreign | Overrun

  // ---------------------------------------------------------------- the alphabet

  const FIGURES := "123456789"
  const UPPER := ["ABCDEFGH", "JKLMN", "PQRSTUVWXYZ"]
  const LOWER := ["abcdefghijk", "mnopqrstuvwxyz"]
  const ALPHABET := FIGURES + UPPER[0] + UPPER[1] + UPPER[2] + LOWER[0] + LOWER[1]

  /** The character code of a digit: figures and letters without 0, O, I and l. */
  function Code(d: nat): (c: byte)
    requires d < 58
  {
    if d < 9 then 49 + d
    else if d < 17 then 65 + d - 9
    else if d < 22 then 74 + d - 17
    else if d < 33 then 80 + d - 22
    else if d < 44 then 97 + d - 33
    else 109 + d - 44
  }

  /** The digit of a character, if it is in the alphabet. */
  function Find(c: byte): (d: Option<nat>)
    ensures d.Some? ==> d.value < 58
  {
    if 49 <= c < 58 then Some(c - 49)
    else if 65 <= c < 73 then Some(c - 65 + 9)
    else if 74 <= c < 79 then Some(c - 74 + 17)
    else if 80 <= c < 91 then Some(c - 80 + 22)
    else if 97 <= c < 108 then Some(c - 97 + 33)
    else if 109 <= c < 123 then Some(c - 109 + 44)
    else None
  }

  /** Consecutive characters, from the given code on. */
  predicate Consecutive(s: string, code: nat) {
    forall i :: 0 <= i < |s| ==> s[i] as int == code + i
  }

  lemma Pieces()
    ensures Consecutive(FIGURES, 49) && |FIGURES| == 9
    ensures Consecutive(UPPER[0], 65) && |UPPER[0]| == 8
    ensures Consecutive(UPPER[1], 74) && |UPPER[1]| == 5
    ensures Consecutive(UPPER[2], 80) && |UPPER[2]| == 11
    ensures Consecutive(LOWER[0], 97) && |LOWER[0]| == 11
    ensures Consecutive(LOWER[1], 109) && |LOWER[1]| == 14
  {
  }

  lemma CodeIsAlphabet(d: nat)
    requires d < 58
    ensures |ALPHABET| == 58 && ALPHABET[d] as int == Code(d)
  {
    Pieces();
  }

  lemma FindInvertsCode(c: byte)
    ensures Find(c).Some? ==> Code(Find(c).value) == c
    ensures forall d: nat :: d < 58 && Code(d) == c ==> Find(c) == Some(d)
  {
  }

  ghost function Codes(ds: seq<nat>): (s: seq<byte>)
    requires IsDigits(58, ds)
    ensures |s| == |ds|
  {
    seq(|ds|, i requires 0 <= i < |ds| => Code(ds[i]))
  }

  /** The string is over the alphabet. */
  predicate InAlphabet(s: seq<byte>) {
    forall i :: 0 <= i < |s| ==> Find(s[i]).Some?
  }

  ghost function Indices(s: seq<byte>): (ds: seq<nat>)
    requires InAlphabet(s)
    ensures |ds| == |s| && IsDigits(58, ds)
  {
    seq(|s|, i requires 0 <= i < |s| => Find(s[i]).value)
  }

  // ---------------------------------------------------------------- what the codec is for

  ghost function Encoded(x: seq<byte>): (s: seq<byte>)
    ensures InAlphabet(s)
  {
    ConvertInverse(256, 58, x);
    var ds := Convert(256, 58, x);
    var s := Codes(ds);
    assert forall i :: 0 <= i < |s| ==> Find(s[i]) == Some(ds[i]);
    s
  }

  ghost function AsBytes(ds: seq<nat>): (r: seq<byte>)
    requires IsDigits(256, ds)
    ensures r == ds
  {
    seq(|ds|, i requires 0 <= i < |ds| => ds[i])
  }

  ghost function Decoded(s: seq<byte>): seq<byte>
    requires InAlphabet(s)
  {
    ConvertInverse(58, 256, Indices(s));
    AsBytes(Convert(58, 256, Indices(s)))
  }

  /** Every byte string is decoded from its encoding, leading zeros included. */
  lemma DecodeInvertsEncode(x: seq<byte>)
    ensures Decoded(Encoded(x)) == x
  {
    ConvertInverse(256, 58, x);
    assert Indices(Encoded(x)) == Convert(256, 58, x);
  }

  /** Every string over the alphabet is the encoding of what it decodes to, leading ones included. */
  lemma EncodeInvertsDecode(s: seq<byte>)
    requires InAlphabet(s)
    ensures Encoded(Decoded(s)) == s
  {
    ConvertInverse(58, 256, Indices(s));
    assert Convert(256, 58, Decoded(s)) == Indices(s);
    forall i | 0 <= i < |s| ensures Encoded(Decoded(s))[i] == s[i] {
      FindInvertsCode(s[i]);
    }
  }

  // ---------------------------------------------------------------- capacities

  /** log(256) / log(58), rounded up. */
  function EncodeSize(n: nat): (r: nat)
    ensures 100 * (r - 1) <= 138 * n < 100 * r
  {
    n * 138 / 100 + 1
  }

  /** log(58) / log(256), rounded up. */
  function DecodeSize(n: nat): (r: nat)
    ensures 1000 * (r - 1) <= 733 * n < 1000 * r
  {
    n * 733 / 1000 + 1
  }

  /** Bases a and b, of which s steps in the first are worth at most t in the second, for every length beyond m. */
  lemma PowStep(a: nat, b: nat, s: nat, t: nat, m: nat, k: nat)
    requires a > 0 && b > 0 && Pow(a, s) <= Pow(b, t) && Pow(a, m) <= Pow(b, k)
    ensures Pow(a, s + m) <= Pow(b, t + k)
  {
    PowAdd(a, s, m);
    PowAdd(b, t, k);
    MulMonotone(Pow(a, s), Pow(b, t), Pow(a, m), Pow(b, k));
  }

  lemma EncodeSteps()
    ensures Pow(256, 8) <= Pow(58, 11)
    ensures Pow(256, 0) <= Pow(58, 1) && Pow(256, 1) <= Pow(58, 2) && Pow(256, 2) <= Pow(58, 3)
    ensures Pow(256, 3) <= Pow(58, 5) && Pow(256, 4) <= Pow(58, 6) && Pow(256, 5) <= Pow(58, 7)
    ensures Pow(256, 6) <= Pow(58, 9) && Pow(256, 7) <= Pow(58, 10)
  {
  }

  lemma {:induction false} EncodePow(m: nat)
    ensures Pow(256, m) <= Pow(58, EncodeSize(m))
  {
    EncodeSteps();
    hide Pow;
    if m >= 8 {
      EncodePow(m - 8);
      PowStep(256, 58, 8, 11, m - 8, EncodeSize(m - 8));
      PowMonotone(58, 11 + EncodeSize(m - 8), EncodeSize(m));
    }
  }

  /** 256 to the 41st is 96.8 per cent of 58 to the 56th; the 30th and 19th are close to the 41st and 26th. */
  lemma EncodeLongSteps()
    ensures Pow(256, 19) <= Pow(58, 26) && Pow(256, 30) <= Pow(58, 41) && Pow(256, 41) <= Pow(58, 56)
  {
    var a, c := 430804206899405824, 0x100000000000000000000;
    assert Pow(58, 10) == a && Pow(58, 6) == 38068692544 && Pow(58, 1) == 58 && Pow(256, 10) == c;
    assert Pow(256, 9) == 0x1000000000000000000 && Pow(256, 1) == 256;
    hide Pow;
    PowProduct(58, 10, 10, a, a);
    PowProduct(58, 20, 6, a * a, 38068692544);
    PowProduct(58, 20, 20, a * a, a * a);
    PowProduct(58, 40, 1, a * a * (a * a), 58);
    PowProduct(58, 40, 10, a * a * (a * a), a);
    PowProduct(58, 50, 6, a * a * (a * a) * a, 38068692544);
    PowProduct(256, 10, 9, c, 0x1000000000000000000);
    PowProduct(256, 10, 10, c, c);
    PowProduct(256, 20, 10, c * c, c);
    PowProduct(256, 20, 20, c * c, c * c);
    PowProduct(256, 40, 1, c * c * (c * c), 256);
  }

  lemma Fits(m: nat, k: nat, n: nat, l: nat)
    requires Pow(256, m) <= Pow(58, k) && Pow(256, n) <= Pow(58, l)
    ensures Pow(256, m + n) <= Pow(58, k + l)
  {
    PowStep(256, 58, m, k, n, l);
  }

  lemma EncodePowBase(m: nat)
    requires 64 <= m < 72
    ensures Pow(256, m) <= Pow(58, m * 138 / 100)
  {
    EncodeSteps();
    EncodeLongSteps();
    hide Pow;
    Fits(41, 56, 19, 26);
    Fits(60, 82, 4, 6);
    Fits(60, 82, 5, 7);
    Fits(60, 82, 6, 9);
    Fits(60, 82, 7, 10);
    Fits(60, 82, 8, 11);
    Fits(8, 11, 1, 2);
    Fits(60, 82, 9, 13);
    Fits(8, 11, 2, 3);
    Fits(60, 82, 10, 14);
    Fits(41, 56, 30, 41);
  }

  /** From 64 bytes on one character less than b58encode_size is enough. */
  lemma {:induction false} EncodePowSpare(m: nat)
    requires m >= 64
    ensures Pow(256, m) <= Pow(58, EncodeSize(m) - 1)
  {
    hide Pow;
    if m < 72 {
      EncodePowBase(m);
    } else {
      EncodePowSpare(m - 8);
      EncodeSteps();
      Fits(8, 11, m - 8, EncodeSize(m - 8) - 1);
      PowMonotone(58, 11 + EncodeSize(m - 8) - 1, EncodeSize(m) - 1);
    }
  }

  lemma DecodeSteps()
    ensures Pow(58, 0) <= Pow(256, 0) && Pow(58, 1) <= Pow(256, 1) && Pow(58, 2) <= Pow(256, 2)
    ensures Pow(58, 3) <= Pow(256, 3) && Pow(58, 4) <= Pow(256, 3) && Pow(58, 5) <= Pow(256, 4)
    ensures Pow(58, 6) <= Pow(256, 5) && Pow(58, 7) <= Pow(256, 6) && Pow(58, 8) <= Pow(256, 6)
    ensures Pow(58, 9) <= Pow(256, 7) && Pow(58, 10) <= Pow(256, 8) && Pow(58, 11) <= Pow(256, 9)
    ensures Pow(58, 12) <= Pow(256, 9) && Pow(58, 13) <= Pow(256, 10) && Pow(58, 14) <= Pow(256, 11)
    ensures Pow(58, 15) <= Pow(256, 11)
  {
  }

  lemma PowProduct(b: nat, m: nat, n: nat, x: nat, y: nat)
    requires Pow(b, m) == x && Pow(b, n) == y
    ensures Pow(b, m + n) == x * y
  {
    PowAdd(b, m, n);
  }

  /** 58 to the 71st is 94.4 per cent of 256 to the 52nd. */
  lemma DecodeLongStep()
    ensures Pow(58, 71) <= Pow(256, 52)
  {
    var a, c := 430804206899405824, 0x100000000000000000000;
    assert Pow(58, 10) == a && Pow(58, 11) == 58 * a && Pow(256, 10) == c && Pow(256, 12) == 0x1_0000 * c;
    hide Pow;
    PowProduct(58, 10, 10, a, a);
    PowProduct(58, 20, 20, a * a, a * a);
    PowProduct(58, 40, 20, a * a * (a * a), a * a);
    PowProduct(58, 60, 11, a * a * (a * a) * (a * a), 58 * a);
    PowProduct(256, 10, 10, c, c);
    PowProduct(256, 20, 20, c * c, c * c);
    PowProduct(256, 40, 12, c * c * (c * c), 0x1_0000 * c);
  }

  /** Fifteen digits are worth at most eleven bytes; below 71 digits that is close enough. */
  lemma {:induction false} DecodePowShort(m: nat)
    requires m < 71
    ensures Pow(58, m) <= Pow(256, m / 15 * 11 + MostBytes(m % 15))
  {
    DecodeSteps();
    hide Pow;
    if m >= 15 {
      DecodePowShort(m - 15);
      PowStep(58, 256, 15, 11, m - 15, (m - 15) / 15 * 11 + MostBytes((m - 15) % 15));
    }
  }

  /** The most bytes that fewer than fifteen base58 digits can take. */
  function MostBytes(r: nat): nat
    requires r < 15
  {
    if r <= 3 then r else if r <= 7 then r - 1 else if r <= 11 then r - 2 else r - 3
  }

  lemma {:induction false} DecodePow(m: nat)
    ensures Pow(58, m) <= Pow(256, DecodeSize(m))
  {
    hide Pow;
    if m >= 71 {
      DecodeLongStep();
      DecodePow(m - 71);
      PowStep(58, 256, 71, 52, m - 71, DecodeSize(m - 71));
      PowMonotone(256, 52 + DecodeSize(m - 71), DecodeSize(m));
    } else {
      DecodePowShort(m);
      PowMonotone(256, m / 15 * 11 + MostBytes(m % 15), DecodeSize(m));
    }
  }

  // ---------------------------------------------------------------- what the codec computes

  /** Leading ones and characters. */
  ghost function Rendered(z: nat, digits: seq<nat>): seq<byte>
    requires IsDigits(58, digits)
  {
    seq(z, _ => 49) + Codes(digits)
  }

  /** The working digits after the loops of encoding, with as many cells as the buffer has left. */
  ghost function EncodeCells(signed: bool, x: seq<byte>, size: nat): (h: Held)
    requires Lead(x) <= size
    ensures Tidy(58, h.cells, h.length) && |h.cells| == Min(EncodeSize(|x|), size - Lead(x))
  {
    var cap, inp := Min(EncodeSize(|x|), size - Lead(x)), Read(signed, x[Lead(x)..]);
    RunTidy(signed, 256, 58, cap, inp);
    Run(signed, 256, 58, cap, inp)
  }

  /** What encoding leaves in the front of a buffer of this size. */
  ghost function EncodedInto(signed: bool, x: seq<byte>, size: nat): Outcome<seq<byte>> {
    if Lead(x) > size then Overrun else
    var h := EncodeCells(signed, x, size);
    Done(Rendered(Lead(x), h.cells[|h.cells| - h.length..]))
  }

  ghost function DecodeCells(signed: bool, s: seq<byte>, size: nat): (h: Held)
    requires InAlphabet(s) && Ones(s) <= size
    ensures Tidy(256, h.cells, h.length) && |h.cells| == Min(DecodeSize(|s|), size - Ones(s))
  {
    var cap, inp := Min(DecodeSize(|s|), size - Ones(s)), Indices(s)[Ones(s)..];
    RunTidy(signed, 58, 256, cap, inp);
    Run(signed, 58, 256, cap, inp)
  }

  /** What decoding leaves in the front of a buffer of this size. */
  ghost function DecodedInto(signed: bool, s: seq<byte>, size: nat): Outcome<seq<byte>> {
    if Ones(s) > size then Overrun
    else if !InAlphabet(s) then Foreign
    else
      var h := DecodeCells(signed, s, size);
      Done(Nils(Ones(s)) + AsBytes(h.cells[|h.cells| - h.length..]))
  }

  function Ones(s: seq<byte>): (z: nat)
    ensures z <= |s| && (forall i :: 0 <= i < z ==> s[i] == 49) && (z < |s| ==> s[z] != 49)
  {
    if s == [] || s[0] != 49 then 0 else 1 + Ones(s[1..])
  }

  lemma {:induction false} OnesUnique(s: seq<byte>, z: nat)
    requires z <= |s| && (forall i :: 0 <= i < z ==> s[i] == 49) && (z < |s| ==> s[z] != 49)
    ensures Ones(s) == z
  {
    if z > 0 {
      OnesUnique(s[1..], z - 1);
    }
  }

  lemma LeadUnique(s: seq<nat>, z: nat)
    requires z <= |s| && (forall i :: 0 <= i < z ==> s[i] == 0) && (z < |s| ==> s[z] != 0)
    ensures Lead(s) == z
  {
    LeadIs(z, s[z..]);
    assert s == Nils(z) + s[z..];
  }

  // ---------------------------------------------------------------- when it is right

  /**
    A base58 string never needs more than b58encode_size characters, nor a decoded one more than b58decode_size bytes.
   */
  lemma DigitsFitSize(x: seq<nat>)
    ensures IsDigits(256, x) ==> |Digits(58, Val(256, x))| <= EncodeSize(|x|)
    ensures IsDigits(58, x) ==> |Digits(256, Val(58, x))| <= DecodeSize(|x|)
  {
    if IsDigits(256, x) {
      ValBound(256, x);
      EncodePow(|x|);
      DigitsFit(58, Val(256, x), EncodeSize(|x|));
    }
    if IsDigits(58, x) {
      ValBound(58, x);
      DecodePow(|x|);
      DigitsFit(256, Val(58, x), DecodeSize(|x|));
    }
  }

  lemma CoreValue(b: nat, s: seq<nat>, z: nat)
    requires z <= |s| && forall i :: 0 <= i < z ==> s[i] == 0
    ensures Val(b, s[z..]) == Val(b, s)
  {
    assert s == Nils(z) + s[z..];
    ValAfterNils(b, z, s[z..]);
  }

  lemma EncodedIsRendered(x: seq<byte>)
    ensures IsDigits(58, Digits(58, Val(256, x)))
    ensures Encoded(x) == Rendered(Lead(x), Digits(58, Val(256, x)))
  {
    ConvertInverse(256, 58, x);
    DigitsStandForIt(58, Val(256, x));
    hide Digits, Val, Lead;
    CodesOfNils(Lead(x), Digits(58, Val(256, x)));
  }

  lemma CodesOfNils(z: nat, digits: seq<nat>)
    requires IsDigits(58, digits)
    ensures IsDigits(58, Nils(z) + digits) && Codes(Nils(z) + digits) == Rendered(z, digits)
  {
  }

  lemma CodesDiffer(a: seq<nat>, b: seq<nat>)
    requires IsDigits(58, a) && IsDigits(58, b) && Codes(a) == Codes(b)
    ensures a == b
  {
    assert |a| == |Codes(a)| == |b|;
    forall i | 0 <= i < |a| ensures a[i] == b[i] {
      assert Codes(a)[i] == Code(a[i]) && Codes(b)[i] == Code(b[i]);
      FindInvertsCode(Code(a[i]));
    }
  }

  /** The encoding comes out exactly when the digits in use are those of the number. */
  lemma EncodedIff(signed: bool, x: seq<byte>, size: nat)
    requires Lead(x) <= size
    ensures var h := EncodeCells(signed, x, size);
            EncodedInto(signed, x, size) == Done(Encoded(x)) <==>
              h.cells[|h.cells| - h.length..] == Digits(58, Val(256, x))
  {
    EncodedIsRendered(x);
    var h := EncodeCells(signed, x, size);
    var a, b := h.cells[|h.cells| - h.length..], Digits(58, Val(256, x));
    var z := Lead(x);
    hide Val, Digits, Codes, EncodeCells;
    if Rendered(z, a) == Rendered(z, b) {
      assert Codes(a) == Rendered(z, a)[z..] && Codes(b) == Rendered(z, b)[z..];
      CodesDiffer(a, b);
    }
  }

  lemma DecodedIs(s: seq<byte>)
    requires InAlphabet(s)
    ensures IsDigits(256, Digits(256, Val(58, Indices(s))))
    ensures Decoded(s) == Nils(Ones(s)) + Digits(256, Val(58, Indices(s)))
  {
    ConvertInverse(58, 256, Indices(s));
    DigitsStandForIt(256, Val(58, Indices(s)));
    LeadUnique(Indices(s), Ones(s));
  }

  /** The decoded string comes out exactly when the bytes in use are the digits of the number. */
  lemma DecodedIff(signed: bool, s: seq<byte>, size: nat)
    requires InAlphabet(s) && Ones(s) <= size
    ensures var h := DecodeCells(signed, s, size);
            DecodedInto(signed, s, size) == Done(Decoded(s)) <==>
              h.cells[|h.cells| - h.length..] == Digits(256, Val(58, Indices(s)))
  {
    DecodedIs(s);
    var h := DecodeCells(signed, s, size);
    var a, b := h.cells[|h.cells| - h.length..], Digits(256, Val(58, Indices(s)));
    assert DecodedInto(signed, s, size) == Done(Nils(Ones(s)) + AsBytes(a));
    hide *;
    SameTail(Nils(Ones(s)), AsBytes(a), b);
  }

  lemma SameTail(z: seq<nat>, a: seq<nat>, b: seq<nat>)
    ensures z + a == z + b <==> a == b
  {
    assert (z + a)[|z|..] == a && (z + b)[|z|..] == b;
  }

  /** The room that a number needs, and that the buffer has. */
  ghost predicate DecodingFits(s: seq<byte>, size: nat)
    requires InAlphabet(s)
  {
    Ones(s) <= size && Val(58, Indices(s)) < Pow(256, size - Ones(s))
  }

  /** Cells that hold a number show its digits when there is room for them. */
  lemma DigitsShown(h: Held, base: nat, v: nat, room: nat, most: nat)
    requires base > 1 && |Digits(base, v)| <= most && |h.cells| == Min(most, room) && Holds(h.cells, base, h.length, v)
    ensures h.length <= |h.cells|
    ensures h.cells[|h.cells| - h.length..] == Digits(base, v) <==> |Digits(base, v)| <= room
    ensures |Digits(base, v)| <= room <==> v < Pow(base, room)
  {
    DigitsFit(base, v, Min(most, room));
    DigitsFit(base, v, room);
    if v < Pow(base, |h.cells|) {
      HeldDigits(h.cells, base, h.length, v);
    }
  }

  lemma EncodeHolds(x: seq<byte>, size: nat)
    requires Lead(x) <= size
    ensures var h := EncodeCells(false, x, size); Holds(h.cells, 58, h.length, Val(256, x))
  {
    var cap, inp: seq<nat> := Min(EncodeSize(|x|), size - Lead(x)), x[Lead(x)..];
    CoreValue(256, x, Lead(x));
    ReadPlain(false, inp);
    assert EncodeCells(false, x, size) == Run(false, 256, 58, cap, inp) && IsDigits(256, inp);
    hide *;
    UnsignedClean(256, 58, cap, inp);
    CleanRunHolds(false, 256, 58, cap, inp);
  }

  lemma DecodeHolds(s: seq<byte>, size: nat)
    requires InAlphabet(s) && Ones(s) <= size
    ensures var h := DecodeCells(false, s, size); Holds(h.cells, 256, h.length, Val(58, Indices(s)))
  {
    var cap, inp := Min(DecodeSize(|s|), size - Ones(s)), Indices(s)[Ones(s)..];
    CoreValue(58, Indices(s), Ones(s));
    assert DecodeCells(false, s, size) == Run(false, 58, 256, cap, inp) && IsDigits(58, inp);
    hide *;
    UnsignedClean(58, 256, cap, inp);
    CleanRunHolds(false, 58, 256, cap, inp);
  }

  lemma EncodedLength(x: seq<byte>)
    ensures |Encoded(x)| == Lead(x) + |Digits(58, Val(256, x))|
  {
    EncodedIsRendered(x);
  }

  /** With unsigned characters the result is the encoding if and only if the buffer has room for it. */
  lemma UnsignedEncode(x: seq<byte>, size: nat)
    ensures EncodedInto(false, x, size) == Done(Encoded(x)) <==> |Encoded(x)| <= size
  {
    EncodedLength(x);
    DigitsFitSize(x);
    assert IsDigits(256, x);
    if Lead(x) <= size {
      hide *;
      EncodedIff(false, x, size);
      EncodeHolds(x, size);
      DigitsShown(EncodeCells(false, x, size), 58, Val(256, x), size - Lead(x), EncodeSize(|x|));
    }
  }

  /** With unsigned characters the result is the decoded string if and only if the buffer has room for its number. */
  lemma UnsignedDecode(s: seq<byte>, size: nat)
    requires InAlphabet(s)
    ensures DecodedInto(false, s, size) == Done(Decoded(s)) <==> DecodingFits(s, size)
  {
    DigitsFitSize(Indices(s));
    if Ones(s) <= size {
      assert DecodingFits(s, size) <==> Val(58, Indices(s)) < Pow(256, size - Ones(s));
      hide *;
      DecodedIff(false, s, size);
      DecodeHolds(s, size);
      DigitsShown(DecodeCells(false, s, size), 256, Val(58, Indices(s)), size - Ones(s), DecodeSize(|s|));
    }
  }

  // ---------------------------------------------------------------- the loops

  /** The working digits in a stretch of the buffer. */
  ghost function Cells(buf: array<byte>, lo: nat, cap: nat): (s: seq<nat>)
    requires lo + cap <= buf.Length
    reads buf
    ensures |s| == cap && forall k :: 0 <= k < cap ==> s[k] == buf[lo + k]
  {
    buf[lo..lo + cap]
  }

  function Minus(length: nat, i: nat): nat {
    if i <= length then length - i else 0
  }

  /** The inner loop so far: what is still to come, in front of the cells already written. */
  ghost predicate Sweeping(signed: bool, from: nat, to: nat, all: Swept, front: seq<nat>, carry: nat, length: nat,
                           c: seq<nat>)
    requires to > 1
  {
    var r := Sweep(signed, from, to, front, carry, length);
    all == Swept(r.cells + c, r.length + |c|, r.left)
  }

  lemma SweepingStep(signed: bool, from: nat, to: nat, all: Swept, front: seq<nat>, carry: nat, length: nat,
                     c: seq<nat>)
    requires to > 1 && front != [] && (carry > 0 || length > 0)
    requires Sweeping(signed, from, to, all, front, carry, length, c)
    ensures var n, x := |front| - 1, front[|front| - 1];
            Sweeping(signed, from, to, all, front[..n], Next(signed, from, to, carry, x), Less(length),
                     [Digit(signed, from, to, carry, x)] + c)
  {
    var n := |front| - 1;
    assert front == front[..n] + [front[n]];
    Unfold(signed, from, to, front[..n], front[n], carry, length);
    var r := Sweep(signed, from, to, front[..n], Next(signed, from, to, carry, front[n]), Less(length));
    var d := Digit(signed, from, to, carry, front[n]);
    assert r.cells + [d] + c == r.cells + ([d] + c);
  }

  /** The loop stops where the function does. */
  lemma SweepingEnd(signed: bool, from: nat, to: nat, all: Swept, front: seq<nat>, carry: nat, length: nat, c: seq<nat>)
    requires to > 1 && Sweeping(signed, from, to, all, front, carry, length, c)
    requires front == [] || (carry == 0 && length == 0)
    ensures all.cells == front + c && all.length == |c|
  {
  }

  /** One cell: takes the carry in, leaves a digit and passes the new carry on. */
  method MultiplyAddCell(signed: bool, from: nat, to: nat, buf: array<byte>, j: nat, carry: nat) returns (rest: nat)
    requires j < buf.Length && 1 < to <= 256
    modifies buf
    ensures forall k :: 0 <= k < buf.Length && k != j ==> buf[k] == old(buf[k])
    ensures buf[j] == Digit(signed, from, to, carry, old(buf[j])) && rest == Next(signed, from, to, carry, old(buf[j]))
  {
    var t := Total(signed, from, carry, buf[j]);
    buf[j] := t % to;
    rest := t / to;
  }

  lemma CellSwept(signed: bool, from: nat, to: nat, all: Swept, o: seq<nat>, carry: nat, length: nat, c: seq<nat>,
                  i: nat, d: nat)
    requires to > 1 && i < |o| && (carry > 0 || length > i) && d == Digit(signed, from, to, carry, o[|o| - 1 - i])
    requires Sweeping(signed, from, to, all, o[..|o| - i], carry, Minus(length, i), c)
    ensures Sweeping(signed, from, to, all, o[..|o| - (i + 1)], Next(signed, from, to, carry, o[|o| - 1 - i]),
                     Minus(length, i + 1), [d] + c)
  {
    var front := o[..|o| - i];
    assert front[..|front| - 1] == o[..|o| - (i + 1)];
    hide Sweeping, Digit, Next;
    SweepingStep(signed, from, to, all, front, carry, Minus(length, i), c);
  }

  /** The inner loop, from the last cell backwards, until there is no carry and no digit left, or no cell. */
  method SweepLoop(signed: bool, from: nat, to: nat, buf: array<byte>, lo: nat, cap: nat, digit: nat, length: nat,
                   ghost o: seq<nat>, ghost all: Swept) returns (i: nat, ghost carry: nat, ghost c: seq<nat>)
    requires lo + cap <= buf.Length && 1 < to <= 256
    requires |o| == cap && forall k :: lo <= k < lo + cap ==> buf[k] == o[k - lo]
    requires Sweeping(signed, from, to, all, o[..cap], digit, length, [])
    modifies buf
    ensures i == |c| <= cap && (i == cap || (carry == 0 && i >= length))
    ensures forall k :: 0 <= k < lo + cap - i || lo + cap <= k < buf.Length ==> buf[k] == old(buf[k])
    ensures forall k :: lo + cap - i <= k < lo + cap ==> buf[k] == c[k - (lo + cap - i)]
    ensures Sweeping(signed, from, to, all, o[..cap - i], carry, Minus(length, i), c)
  {
    hide Sweeping, Digit, Next;
    var rest := digit;
    i, c := 0, [];
    while (rest != 0 || i < length) && i < cap
      invariant i == |c| <= cap
      invariant forall k :: 0 <= k < lo + cap - i || lo + cap <= k < buf.Length ==> buf[k] == old(buf[k])
      invariant forall k :: lo + cap - i <= k < lo + cap ==> buf[k] == c[k - (lo + cap - i)]
      invariant Sweeping(signed, from, to, all, o[..cap - i], rest, Minus(length, i), c)
      decreases cap - i
    {
      var j := lo + cap - 1 - i;
      assert o[cap - 1 - i] == buf[j];
      ghost var was := rest;
      rest := MultiplyAddCell(signed, from, to, buf, j, rest);
      CellSwept(signed, from, to, all, o, was, length, c, i, buf[j]);
      c := [buf[j]] + c;
      i := i + 1;
    }
    carry := rest;
  }

  /** Multiplies the working digits by one base and adds a digit, as far as the loop does that. */
  method SweepCells(signed: bool, from: nat, to: nat, buf: array<byte>, lo: nat, cap: nat, digit: nat, length: nat)
      returns (i: nat)
    requires lo + cap <= buf.Length && 1 < to <= 256
    modifies buf
    ensures forall k :: 0 <= k < lo || lo + cap <= k < buf.Length ==> buf[k] == old(buf[k])
    ensures var r := Sweep(signed, from, to, old(Cells(buf, lo, cap)), digit, length);
            Cells(buf, lo, cap) == r.cells && i == r.length
  {
    ghost var o, carry, c;
    o := Cells(buf, lo, cap);
    ghost var all := Sweep(signed, from, to, o, digit, length);
    assert o[..cap] == o && all.cells + [] == all.cells;
    assert Sweeping(signed, from, to, all, o[..cap], digit, length, []);
    hide Sweeping, Sweep;
    i, carry, c := SweepLoop(signed, from, to, buf, lo, cap, digit, length, o, all);
    SweepingEnd(signed, from, to, all, o[..cap - i], carry, Minus(length, i), c);
    assert Cells(buf, lo, cap) == o[..cap - i] + c;
  }

  /** How many times the string starts with the given element. */
  method CountLeading(s: seq<byte>, c: byte) returns (z: nat)
    ensures z <= |s| && (forall i :: 0 <= i < z ==> s[i] == c) && (z < |s| ==> s[z] != c)
  {
    z := 0;
    while z < |s| && s[z] == c
      invariant z <= |s| && forall i :: 0 <= i < z ==> s[i] == c
    {
      z := z + 1;
    }
  }

  /** Before the first byte or character. */
  lemma NothingRead(signed: bool, buf: array<byte>, lo: nat, cap: nat)
    requires lo + cap <= buf.Length && forall i :: lo <= i < lo + cap ==> buf[i] == 0
    ensures Held(Cells(buf, lo, cap), 0) == Run(signed, 256, 58, cap, Read(signed, []))
    ensures Held(Cells(buf, lo, cap), 0) == Run(signed, 58, 256, cap, [])
  {
    assert Cells(buf, lo, cap) == Nils(cap) && Read(signed, []) == [];
  }

  /** One round of either outer loop. */
  method ReadOneMore(signed: bool, from: nat, to: nat, buf: array<byte>, lo: nat, cap: nat, carry: nat, length: nat,
                     ghost inp: seq<nat>) returns (longer: nat)
    requires lo + cap <= buf.Length && 1 < to <= 256
    requires Held(Cells(buf, lo, cap), length) == Run(signed, from, to, cap, inp)
    modifies buf
    ensures Held(Cells(buf, lo, cap), longer) == Run(signed, from, to, cap, inp + [carry])
  {
    hide *;
    RunPush(signed, from, to, cap, inp, carry);
    longer := SweepCells(signed, from, to, buf, lo, cap, carry, length);
  }

  /** The outer loop of encoding. */
  method Accumulate(signed: bool, buf: array<byte>, lo: nat, cap: nat, inp: seq<byte>, start: nat) returns (length: nat)
    requires lo + cap <= buf.Length && start <= |inp|
    requires forall i :: lo <= i < lo + cap ==> buf[i] == 0
    modifies buf
    ensures Held(Cells(buf, lo, cap), length) == Run(signed, 256, 58, cap, Read(signed, inp[start..]))
  {
    hide *;
    length := 0;
    var p := start;
    NothingRead(signed, buf, lo, cap);
    assert inp[start..start] == [];
    while p < |inp|
      invariant start <= p <= |inp|
      invariant Held(Cells(buf, lo, cap), length) == Run(signed, 256, 58, cap, Read(signed, inp[start..p]))
    {
      ghost var front := inp[start..p];
      assert inp[start..p + 1] == front + [inp[p]];
      ReadPush(signed, front, inp[p]);
      length := ReadOneMore(signed, 256, 58, buf, lo, cap, Widened(signed, inp[p]), length, Read(signed, front));
      p := p + 1;
    }
    assert inp[start..p] == inp[start..];
  }

  /** The outer loop of decoding: stops with an error at the first character outside the alphabet. */
  method AccumulateCharacters(signed: bool, buf: array<byte>, lo: nat, cap: nat, s: seq<byte>, start: nat)
      returns (length: Option<nat>)
    requires lo + cap <= buf.Length && start <= |s|
    requires forall i :: lo <= i < lo + cap ==> buf[i] == 0
    modifies buf
    ensures length.None? <==> !InAlphabet(s[start..])
    ensures length.Some? ==> Held(Cells(buf, lo, cap), length.value) == Run(signed, 58, 256, cap, Indices(s[start..]))
  {
    hide *;
    var n: nat, p := 0, start;
    ghost var ds: seq<nat> := [];
    NothingRead(signed, buf, lo, cap);
    NothingFound(s[start..start]);
    while p < |s|
      invariant start <= p <= |s|
      invariant Found(s[start..p], ds)
      invariant Held(Cells(buf, lo, cap), n) == Run(signed, 58, 256, cap, ds)
    {
      assert s[start..p + 1] == s[start..p] + [s[p]];
      var d := Find(s[p]);
      if d.None? {
        ForeignIn(s[start..], p - start);
        return None;
      }
      FoundMore(s[start..p], ds, s[p]);
      n := ReadOneMore(signed, 58, 256, buf, lo, cap, d.value, n, ds);
      ds := ds + [d.value];
      p := p + 1;
    }
    assert s[start..p] == s[start..];
    FoundAll(s[start..], ds);
    return Some(n);
  }

  lemma NothingFound(s: seq<byte>)
    requires s == []
    ensures Found(s, [])
  {
  }

  lemma ForeignIn(s: seq<byte>, i: nat)
    requires i < |s| && Find(s[i]).None?
    ensures !InAlphabet(s)
  {
  }

  lemma FoundAll(s: seq<byte>, ds: seq<nat>)
    requires Found(s, ds)
    ensures InAlphabet(s) && Indices(s) == ds
  {
  }

  ghost predicate Found(s: seq<byte>, ds: seq<nat>) {
    |ds| == |s| && forall i :: 0 <= i < |s| ==> Find(s[i]) == Some(ds[i])
  }

  lemma FoundMore(s: seq<byte>, ds: seq<nat>, c: byte)
    requires Found(s, ds) && Find(c).Some?
    ensures Found(s + [c], ds + [Find(c).value])
  {
  }

  // ---------------------------------------------------------------- the codec

  /** Fills in one character for each leading zero and moves the digits up behind them. */
  method Emit(buf: array<byte>, z: nat, cap: nat, length: nat, zero: byte, ghost cells: seq<nat>)
    requires z + cap <= buf.Length && length <= cap && cells == Cells(buf, z, cap)
    modifies buf
    ensures buf[..z + length] == seq(z, _ => zero) + cells[cap - length..]
  {
    forall i | 0 <= i < z {
      buf[i] := zero;
    }
    forall i | 0 <= i < length {
      buf[z + i] := buf[z + cap - length + i];
    }
  }

  method Clear(buf: array<byte>, lo: nat, cap: nat)
    requires lo + cap <= buf.Length
    modifies buf
    ensures forall i :: lo <= i < lo + cap ==> buf[i] == 0
  {
    forall i | lo <= i < lo + cap {
      buf[i] := 0;
    }
  }

  /** Turns the digits behind the leading characters into characters. */
  method Transcribe(buf: array<byte>, z: nat, n: nat, ghost digits: seq<nat>)
    requires IsDigits(58, digits) && |digits| == n && z + n <= buf.Length
    requires buf[..z + n] == seq(z, _ => 49) + digits
    modifies buf
    ensures buf[..z + n] == Rendered(z, digits)
  {
    assert forall i :: z <= i < z + n ==> buf[i] == buf[..z + n][i] == digits[i - z];
    assert forall i :: 0 <= i < z ==> buf[i] == buf[..z + n][i] == 49;
    forall i | z <= i < z + n {
      buf[i] := Code(buf[i]);
    }
  }

  /** Encodes into the front of the buffer. More leading zeros than the buffer has room for are written past its end. */
  method Encode(signed: bool, buf: array<byte>, inp: seq<byte>) returns (r: Outcome<nat>)
    modifies buf
    ensures r.Done? ==> r.value <= buf.Length
    ensures EncodedInto(signed, inp, buf.Length) == if r.Done? then Done(buf[..r.value]) else Overrun
  {
    var z := CountLeading(inp, 0);
    LeadUnique(inp, z);
    if z > buf.Length {
      return Overrun;
    }
    var cap := Min(EncodeSize(|inp|), buf.Length - z);
    Clear(buf, z, cap);
    hide EncodeSize, Lead, Read, Run;
    var length := Accumulate(signed, buf, z, cap, inp, z);
    ghost var h := EncodeCells(signed, inp, buf.Length);
    assert h == Held(Cells(buf, z, cap), length);
    Emit(buf, z, cap, length, 49, h.cells);
    Transcribe(buf, z, length, h.cells[cap - length..]);
    return Done(z + length);
  }

  lemma AlphabetBehindOnes(s: seq<byte>)
    ensures InAlphabet(s) <==> InAlphabet(s[Ones(s)..])
    ensures InAlphabet(s) ==> Indices(s[Ones(s)..]) == Indices(s)[Ones(s)..]
  {
    var z := Ones(s);
    assert forall i :: z <= i < |s| ==> s[i] == s[z..][i - z];
  }

  /** Decodes into the front of the buffer. More leading ones than the buffer has room for are written past its end. */
  method Decode(signed: bool, buf: array<byte>, s: seq<byte>) returns (r: Outcome<nat>)
    modifies buf
    ensures r.Done? ==> r.value <= buf.Length
    ensures DecodedInto(signed, s, buf.Length)
         == match r { case Done(n) => Done(buf[..n]) case Foreign => Foreign case Overrun => Overrun }
  {
    var z := CountLeading(s, 49);
    OnesUnique(s, z);
    if z > buf.Length {
      return Overrun;
    }
    var cap := Min(DecodeSize(|s|), buf.Length - z);
    assert cap <= buf.Length - z && (!InAlphabet(s) ==> DecodedInto(signed, s, buf.Length) == Foreign);
    hide *;
    Clear(buf, z, cap);
    var length := AccumulateCharacters(signed, buf, z, cap, s, z);
    AlphabetBehindOnes(s);
    if length.None? {
      return Foreign;
    }
    ghost var h := Held(Cells(buf, z, cap), length.value);
    DecodeCellsAre(signed, s, buf.Length, cap, h);
    Emit(buf, z, cap, length.value, 0, h.cells);
    DecodedShown(signed, s, buf.Length, h, buf[..z + length.value]);
    return Done(z + length.value);
  }

  lemma DecodeCellsAre(signed: bool, s: seq<byte>, size: nat, cap: nat, h: Held)
    requires InAlphabet(s) && Ones(s) <= size && cap == Min(DecodeSize(|s|), size - Ones(s))
    requires InAlphabet(s[Ones(s)..]) && h == Run(signed, 58, 256, cap, Indices(s[Ones(s)..]))
    ensures DecodeCells(signed, s, size) == h
  {
    AlphabetBehindOnes(s);
  }

  lemma DecodedShown(signed: bool, s: seq<byte>, size: nat, h: Held, result: seq<byte>)
    requires InAlphabet(s) && Ones(s) <= size && h == DecodeCells(signed, s, size)
    requires result == seq(Ones(s), _ => 0) + h.cells[|h.cells| - h.length..]
    ensures DecodedInto(signed, s, size) == Done(result)
  {
    hide DecodeCells, Ones, Min, DecodeSize;
    assert AsBytes(h.cells[|h.cells| - h.length..]) == h.cells[|h.cells| - h.length..];
    assert Nils(Ones(s)) == seq(Ones(s), _ => 0);
  }

  // ---------------------------------------------------------------- the string forms

  /** b58encode_size leaves room for every encoding. */
  lemma EncodedFitsSize(x: seq<byte>)
    ensures |Encoded(x)| <= EncodeSize(|x|)
  {
    CoreValue(256, x, Lead(x));
    var inp: seq<nat> := x[Lead(x)..];
    assert IsDigits(256, inp) && |inp| == |x| - Lead(x);
    ZerosFitSize(Lead(x), |inp|);
    hide *;
    EncodedLength(x);
    DigitsFitSize(inp);
  }

  lemma ZerosFitSize(z: nat, n: nat)
    ensures z + EncodeSize(n) <= EncodeSize(z + n)
  {
  }

  /** From 64 bytes on, leading zeros included, b58encode_size leaves at least one character over. */
  lemma EncodedSpare(x: seq<byte>)
    requires |x| >= 64
    ensures |Encoded(x)| < EncodeSize(|x|)
  {
    CoreValue(256, x, Lead(x));
    var inp: seq<nat> := x[Lead(x)..];
    assert IsDigits(256, inp) && Lead(x) + |inp| == |x|;
    hide *;
    EncodedLength(x);
    DigitsSpare(Lead(x), inp);
  }

  lemma DigitsSpare(z: nat, inp: seq<nat>)
    requires IsDigits(256, inp) && z + |inp| >= 64
    ensures z + |Digits(58, Val(256, inp))| < EncodeSize(z + |inp|)
  {
    hide *;
    if |inp| >= 64 {
      ZerosFitSize(z, |inp|);
      LongSpare(inp);
    } else {
      DigitsFitSize(inp);
      FewBehindZeros(z, |inp|);
    }
  }

  lemma LongSpare(inp: seq<nat>)
    requires IsDigits(256, inp) && |inp| >= 64
    ensures |Digits(58, Val(256, inp))| < EncodeSize(|inp|)
  {
    hide Val, Pow, Digits;
    ValBound(256, inp);
    EncodePowSpare(|inp|);
    DigitsFit(58, Val(256, inp), EncodeSize(|inp|) - 1);
  }

  lemma FewBehindZeros(z: nat, n: nat)
    requires z + n >= 64 && n < 64
    ensures z + EncodeSize(n) < EncodeSize(z + n)
  {
  }

  /** Encoding to a new string. With unsigned characters it always gives the encoding. */
  method EncodeString(signed: bool, x: seq<byte>) returns (r: Outcome<seq<byte>>)
    ensures r == EncodedInto(signed, x, EncodeSize(|x|))
    ensures !signed ==> r == Done(Encoded(x))
  {
    EncodedFitsSize(x);
    UnsignedEncode(x, EncodeSize(|x|));
    var buf := new byte[EncodeSize(|x|)](_ => 0);
    var len := Encode(signed, buf, x);
    hide *;
    return if len.Done? then Done(buf[..len.value]) else Overrun;
  }

  /** b58decode_size leaves room for every decoded string without leading ones. */
  lemma DecodedFitsSize(s: seq<byte>)
    requires InAlphabet(s) && Ones(s) == 0
    ensures |Decoded(s)| <= DecodeSize(|s|)
  {
    DecodedIs(s);
    DigitsFitSize(Indices(s));
  }

  ghost function AllOnes(n: nat): (s: seq<byte>)
    ensures |s| == n
  {
    seq(n, _ => 49)
  }

  lemma OnesDecode(n: nat)
    ensures InAlphabet(AllOnes(n)) && Ones(AllOnes(n)) == n && Decoded(AllOnes(n)) == Nils(n)
  {
    var s := AllOnes(n);
    assert Indices(s) == Nils(n);
    DecodedIs(s);
    OnesUnique(s, n);
    ValNils(58, n);
  }

  /** It does not count leading ones: of strings of nothing else it has room for three, and a longer one overruns. */
  lemma OnesFitSize(signed: bool, n: nat)
    ensures InAlphabet(AllOnes(n)) && Decoded(AllOnes(n)) == Nils(n)
    ensures DecodedInto(signed, AllOnes(n), DecodeSize(n)) == if n <= 3 then Done(Decoded(AllOnes(n))) else Overrun
  {
    OnesDecode(n);
    var s := AllOnes(n);
    if n <= 3 {
      assert Indices(s)[n..] == [];
      var h := DecodeCells(signed, s, DecodeSize(n));
      assert h.length == 0 && h.cells[|h.cells|..] == [];
      hide DecodeCells;
      assert Nils(n) + [] == Nils(n);
      DecodedShown(signed, s, DecodeSize(n), h, Decoded(s));
    }
  }

  /** "1111", the encoding of four zeros, is the shortest string that overruns. */
  lemma FourOnesOverrun(signed: bool)
    ensures Encoded([0, 0, 0, 0]) == [49, 49, 49, 49] && DecodedInto(signed, [49, 49, 49, 49], DecodeSize(4)) == Overrun
  {
    var s := AllOnes(4);
    OnesFitSize(signed, 4);
    assert s == [49, 49, 49, 49] && Nils(4) == [0, 0, 0, 0];
    hide *;
    EncodeInvertsDecode(s);
  }

  lemma ValueOfZzz()
    ensures Val(58, [0, 57, 57, 57]) == 195111
  {
    var ds: seq<nat> := [0, 57, 57, 57];
    assert ds[..3] == [0, 57, 57] && [0, 57, 57][..2] == [0, 57] && [0, 57][..1] == [0] && [0][..0] == [];
  }

  lemma BytesOfZzz()
    ensures Digits(256, 195111) == [2, 250, 39]
  {
    assert Digits(256, 195111) == Digits(256, 762) + [39] == Digits(256, 2) + [250] + [39] == [2, 250, 39];
  }

  /** And "1zzz", the encoding of 0, 2, 250, 39, needs four bytes where the size function gives three. */
  lemma OneLeadingOneCanBeTooMany()
    ensures Encoded([0, 2, 250, 39]) == [49, 122, 122, 122]
    ensures |Decoded([49, 122, 122, 122])| == 4 && DecodeSize(4) == 3
  {
    var s: seq<byte>, ds: seq<nat> := [49, 122, 122, 122], [0, 57, 57, 57];
    ValueOfZzz();
    BytesOfZzz();
    assert Ones(s[1..]) == 0;
    hide Val, Digits;
    assert Indices(s) == ds;
    DecodedIs(s);
    assert Decoded(s) == [0, 2, 250, 39];
    hide Decoded, Encoded;
    EncodeInvertsDecode(s);
  }

  /**
    Decoding to a new string of b58decode_size. With unsigned characters it gives the decoded string if and only if
    what the leading ones leave of that size has room for the number of the rest.
   */
  method DecodeString(signed: bool, s: seq<byte>) returns (r: Outcome<seq<byte>>)
    ensures r == DecodedInto(signed, s, DecodeSize(|s|))
    ensures !signed && InAlphabet(s) ==> (r == Done(Decoded(s)) <==> DecodingFits(s, DecodeSize(|s|)))
    ensures r == Overrun <==> Ones(s) > DecodeSize(|s|)
    ensures r == Foreign <==> Ones(s) <= DecodeSize(|s|) && !InAlphabet(s)
  {
    if InAlphabet(s) {
      UnsignedDecode(s, DecodeSize(|s|));
    }
    ghost var result := DecodedInto(signed, s, DecodeSize(|s|));
    assert result == Overrun <==> Ones(s) > DecodeSize(|s|);
    assert result == Foreign <==> Ones(s) <= DecodeSize(|s|) && !InAlphabet(s);
    var buf := new byte[DecodeSize(|s|)](_ => 0);
    var len := Decode(signed, buf, s);
    hide *;
    match len {
      case Done(n) => return Done(buf[..n]);
      case Foreign => return Foreign;
      case Overrun => return Overrun;
    }
  }
}
