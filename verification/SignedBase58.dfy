/**
  The base58 codec where characters are signed, as they are in the library's own build: when its results are still
  those of the encoding, and inputs for which they are not.
 */
module SignedBase58 {
  import opened Arithmetic
  import opened Bytes
  import opened Radix
  import opened Conversion
  import opened Base58
  import opened SignedEncoding
  import opened EncodeErrors
  import opened SignedDecoding

  // ---------------------------------------------------------------- encoding

  lemma SmallCore(x: seq<nat>, z: nat)
    requires z <= |x| && forall i :: 0 <= i < z ==> x[i] == 0
    ensures IsDigits(128, x[z..]) <==> IsDigits(128, x)
  {
    assert forall i :: z <= i < |x| ==> x[i] == x[z..][i - z];
  }

  /** The bytes behind the leading zeros, and how many cells there are for their number. */
  ghost function EncodeCore(x: seq<byte>): (inp: seq<nat>)
    ensures IsDigits(256, inp) && (IsDigits(128, inp) <==> IsDigits(128, x)) && Val(256, inp) == Val(256, x)
  {
    SmallCore(x, Lead(x));
    CoreValue(256, x, Lead(x));
    x[Lead(x)..]
  }

  ghost function EncodeRoom(x: seq<byte>, size: nat): (cap: nat)
    requires Lead(x) <= size
    ensures cap <= EncodeSize(|x|) && cap <= size - Lead(x) && (cap == EncodeSize(|x|) || cap == size - Lead(x))
  {
    Min(EncodeSize(|x|), size - Lead(x))
  }

  lemma EncodeCellsSigned(x: seq<byte>, size: nat)
    requires Lead(x) <= size
    ensures EncodeCells(true, x, size) == EncodeRun(EncodeRoom(x, size), EncodeCore(x))
  {
  }

  /** Bytes below 128 are encoded alike, whether characters are signed or not. */
  lemma SmallBytesEncodeAlike(x: seq<byte>, size: nat)
    requires IsDigits(128, x)
    ensures EncodedInto(true, x, size) == EncodedInto(false, x, size)
  {
    if Lead(x) <= size {
      var inp := x[Lead(x)..];
      SmallCore(x, Lead(x));
      ReadPlain(true, inp);
      ReadPlain(false, inp);
      SmallRun(Min(EncodeSize(|x|), size - Lead(x)), inp);
    }
  }

  /** A right result means that the cells stand for the number, use no more than its digits, and have room for it. */
  lemma RightResult(x: seq<byte>, size: nat)
    requires Lead(x) <= size && EncodedInto(true, x, size) == Done(Encoded(x))
    ensures var cap, inp := EncodeRoom(x, size), EncodeCore(x);
            && EncodeGap(cap, inp) == 0 && Val(256, inp) < Pow(58, cap)
            && EncodeRun(cap, inp).length == |Digits(58, Val(256, x))|
  {
    hide *;
    EncodedIff(true, x, size);
    EncodeCellsSigned(x, size);
    var h, cap := EncodeCells(true, x, size), EncodeRoom(x, size);
    DigitsHeld(h.cells, 58, h.length, Val(256, x));
    DigitsFit(58, Val(256, x), cap);
    NoGap(cap, EncodeCore(x), h);
  }

  /** With one cell to spare, the result is the encoding if and only if every byte is below 128. */
  lemma SignedEncodeIff(x: seq<byte>, size: nat)
    requires |Encoded(x)| < size && |Encoded(x)| < Lead(x) + EncodeSize(|x|)
    ensures EncodedInto(true, x, size) == Done(Encoded(x)) <==> IsDigits(128, x)
  {
    if IsDigits(128, x) {
      SmallBytesEncodeAlike(x, size);
      UnsignedEncode(x, size);
    } else {
      hide *;
      EncodedLength(x);
      if EncodedInto(true, x, size) == Done(Encoded(x)) {
        RightResult(x, size);
        EncodeGapGrows(EncodeRoom(x, size), EncodeCore(x));
      }
    }
  }

  lemma NoGap(cap: nat, inp: seq<nat>, h: Held)
    requires h == EncodeRun(cap, inp)
    ensures EncodeGap(cap, inp) == Val(58, h.cells) - Val(256, inp)
  {
  }

  /**
    In any buffer with room for the encoding, the cells are right after every byte if and only if every byte is below
    128.
   */
  lemma SignedEncodeEachByteIff(x: seq<byte>, size: nat)
    requires |Encoded(x)| <= size
    ensures Lead(x) <= size && (EncodesEachByte(EncodeRoom(x, size), EncodeCore(x)) <==> IsDigits(128, x))
  {
    assert IsDigits(256, x);
    hide *;
    EncodedLength(x);
    DigitsFitSize(x);
    EachByte(EncodeRoom(x, size), EncodeCore(x), Val(256, x));
  }

  lemma EachByte(cap: nat, inp: seq<nat>, v: nat)
    requires IsDigits(256, inp) && Val(256, inp) == v && |Digits(58, v)| <= cap
    ensures EncodesEachByte(cap, inp) <==> IsDigits(128, inp)
  {
    hide *;
    DigitsFit(58, v, cap);
    EncodesEachByteIff(cap, inp);
  }

  lemma {:induction false} CountBehind(x: seq<nat>, z: nat)
    requires z <= |x|
    ensures Count(Marks(x[z..])) <= Count(Marks(x))
  {
    if z < |x| {
      var n := |x| - 1;
      var front := x[..n];
      CountBehind(front, z);
      assert Marks(x) == Marks(front) + [x[n] >= 128] && Marks(x[z..]) == Marks(front[z..]) + [x[n] >= 128];
      Push(Marks(front), x[n] >= 128);
      Push(Marks(front[z..]), x[n] >= 128);
    }
  }

  /** How many bytes are 128 or more. */
  ghost function LargeBytes(x: seq<byte>): nat {
    Count(Marks(x))
  }

  /**
    With up to three bytes from 128 on, or up to seven bytes behind the leading zeros, the result is the encoding if
    and only if there is room for it and every byte is below 128, in every buffer.
   */
  lemma SignedEncodeFewIff(x: seq<byte>, size: nat)
    requires LargeBytes(x) <= 3 || |x| <= Lead(x) + 7
    ensures EncodedInto(true, x, size) == Done(Encoded(x)) <==> |Encoded(x)| <= size && IsDigits(128, x)
  {
    UnsignedEncode(x, size);
    if IsDigits(128, x) {
      SmallBytesEncodeAlike(x, size);
    } else if Lead(x) <= size && EncodedInto(true, x, size) == Done(Encoded(x)) {
      CoreHasFew(x);
      hide *;
      RightResult(x, size);
      GapStaysOpen(EncodeRoom(x, size), EncodeCore(x));
    }
  }

  lemma CoreHasFew(x: seq<byte>)
    requires LargeBytes(x) <= 3 || |x| <= Lead(x) + 7
    ensures Count(Marks(EncodeCore(x))) <= 3 || |EncodeCore(x)| <= 7
  {
    CountBehind(x, Lead(x));
  }

  /** The string form: up to eight bytes, from 64 bytes on, or with up to three bytes from 128 on. */
  lemma SignedEncodeStringIff(x: seq<byte>)
    requires |x| <= 8 || |x| >= 64 || LargeBytes(x) <= 3
    ensures EncodedInto(true, x, EncodeSize(|x|)) == Done(Encoded(x)) <==> IsDigits(128, x)
  {
    EncodedFitsSize(x);
    if |x| >= 64 {
      EncodedSpare(x);
      hide *;
      SignedEncodeIff(x, EncodeSize(|x|));
    } else if |x| == 8 && Lead(x) == 0 {
      EightBytes(x);
      SignedEncodeIff(x, EncodeSize(|x|));
    } else {
      SignedEncodeFewIff(x, EncodeSize(|x|));
    }
  }

  lemma EightBytes(x: seq<byte>)
    requires |x| == 8 && Lead(x) == 0
    ensures |Encoded(x)| < EncodeSize(8)
  {
    var inp: seq<nat> := x;
    ValBound(256, inp);
    EncodeSteps();
    EncodedLength(x);
    assert EncodeSize(8) == 12;
    hide *;
    DigitsFit(58, Val(256, inp), 11);
  }

  // ---------------------------------------------------------------- decoding

  /** The decodings of all prefixes shorter than n have only bytes below 128. */
  ghost predicate Readable(s: seq<byte>, n: int)
    requires InAlphabet(s) && n <= |s|
  {
    forall p :: 0 <= p < n ==> ReadableAt(s, p)
  }

  ghost predicate ReadableAt(s: seq<byte>, p: nat)
    requires InAlphabet(s) && p <= |s|
  {
    IsDigits(128, Decoded(s[..p]))
  }

  /** The digits behind the leading ones, and how many cells there are for their number. */
  ghost function Core(s: seq<byte>): (ds: seq<nat>)
    requires InAlphabet(s)
    ensures IsDigits(58, ds) && |ds| == |s| - Ones(s)
  {
    Indices(s)[Ones(s)..]
  }

  ghost function Room(s: seq<byte>, size: nat): nat
    requires Ones(s) <= size
  {
    Min(DecodeSize(|s|), size - Ones(s))
  }

  lemma DecodeCellsSigned(s: seq<byte>, size: nat)
    requires InAlphabet(s) && Ones(s) <= size
    ensures DecodeCells(true, s, size) == DecodeRun(Room(s, size), Core(s))
    ensures Val(58, Core(s)) == Val(58, Indices(s))
  {
    CoreValue(58, Indices(s), Ones(s));
  }

  lemma PrefixDecodes(s: seq<byte>, p: nat)
    requires InAlphabet(s) && p <= |s|
    ensures ReadableAt(s, p) <==> SmallNumber(Indices(s)[..p])
  {
    var t := s[..p];
    assert Indices(t) == Indices(s)[..p];
    DecodedIs(t);
    var z, digits := Ones(t), Digits(256, Val(58, Indices(t)));
    hide Indices, Digits, Val, Decoded, Ones;
    assert Decoded(t)[z..] == digits;
    SmallCore(Decoded(t), z);
  }

  /** Leading ones do not matter to the numbers of the prefixes. */
  lemma CorePrefix(ds: seq<nat>, z: nat, p: nat)
    requires z <= |ds| && (forall i :: 0 <= i < z ==> ds[i] == 0) && p <= |ds| - z
    ensures SmallNumber(ds[..z + p]) <==> SmallNumber(ds[z..][..p])
  {
    assert ds[..z + p][z..] == ds[z..][..p];
    CoreValue(58, ds[..z + p], z);
  }

  lemma OnesAreSmall(ds: seq<nat>, p: nat)
    requires p <= |ds| && forall i :: 0 <= i < p ==> ds[i] == 0
    ensures SmallNumber(ds[..p])
  {
    assert ds[..p] == Nils(p);
    ValNils(58, p);
  }

  lemma PrefixReadable(s: seq<byte>, p: nat)
    requires InAlphabet(s) && p <= |s|
    ensures p < Ones(s) ==> ReadableAt(s, p)
    ensures Ones(s) <= p ==> (ReadableAt(s, p) <==> SmallNumber(Core(s)[..p - Ones(s)]))
  {
    hide *;
    PrefixDecodes(s, p);
    CoreIs(s);
    if p < Ones(s) {
      OnesAreSmall(Indices(s), p);
    } else {
      CorePrefix(Indices(s), Ones(s), p - Ones(s));
    }
  }

  lemma CoreIs(s: seq<byte>)
    requires InAlphabet(s)
    ensures Core(s) == Indices(s)[Ones(s)..] && forall i :: 0 <= i < Ones(s) ==> Indices(s)[i] == 0
  {
  }

  /** The prefixes are readable exactly when their digits behind the leading ones are. */
  lemma ReadableIff(s: seq<byte>, n: nat)
    requires InAlphabet(s) && Ones(s) + n <= |s|
    ensures Readable(s, Ones(s) + n) <==> SmallPrefixes(Core(s)[..n])
  {
    hide SmallNumber, ReadableAt, Ones, Core, InAlphabet;
    var z, core := Ones(s), Core(s);
    if Readable(s, z + n) {
      forall p | 0 <= p < n ensures SmallNumber(core[..n][..p]) {
        assert core[..n][..p] == core[..p];
        PrefixReadable(s, z + p);
      }
    }
    if SmallPrefixes(core[..n]) {
      forall p | 0 <= p < z + n ensures ReadableAt(s, p) {
        PrefixReadable(s, p);
        if z <= p {
          assert SmallNumber(core[..n][..p - z]) && core[..n][..p - z] == core[..p - z];
        }
      }
    }
  }

  lemma AllReadableIff(s: seq<byte>)
    requires InAlphabet(s)
    ensures Readable(s, |s|) <==> SmallPrefixes(Core(s))
  {
    ReadableIff(s, |s| - Ones(s));
    assert Core(s)[..|s| - Ones(s)] == Core(s);
  }

  /** The signed loops decode a string whose proper prefixes are readable. */
  lemma SmallPrefixesDecode(s: seq<byte>, size: nat)
    requires InAlphabet(s) && DecodingFits(s, size) && Readable(s, |s|)
    ensures DecodedInto(true, s, size) == Done(Decoded(s))
  {
    hide *;
    FitsHere(s, size);
    AllReadableIff(s);
    DecodeCellsSigned(s, size);
    DecodedIff(true, s, size);
    AllSmallIff(Room(s, size), Core(s));
    SmallHolds(Room(s, size), Core(s));
    var h := DecodeCells(true, s, size);
    HeldDigits(h.cells, 256, h.length, Val(58, Core(s)));
  }

  lemma FitsHere(s: seq<byte>, size: nat)
    requires InAlphabet(s)
    ensures DecodingFits(s, size) <==>
              Ones(s) <= size && Val(58, Core(s)) < Pow(256, Room(s, size))
  {
    DigitsFitSize(Indices(s));
    CoreValue(58, Indices(s), Ones(s));
    if Ones(s) <= size {
      Fitting(Val(58, Indices(s)), DecodeSize(|s|), size - Ones(s));
    }
  }

  lemma Fitting(v: nat, most: nat, room: nat)
    requires |Digits(256, v)| <= most
    ensures v < Pow(256, room) <==> v < Pow(256, Min(most, room))
  {
    DigitsFit(256, v, room);
    DigitsFit(256, v, Min(most, room));
  }

  /**
    The result is the decoded string if and only if there is room for its number and every proper prefix decodes to
    bytes below 128, provided that those which are shorter by more than eight characters do.
   */
  lemma SignedDecodeIff(s: seq<byte>, size: nat)
    requires InAlphabet(s) && Readable(s, |s| - 8)
    ensures DecodedInto(true, s, size) == Done(Decoded(s)) <==> DecodingFits(s, size) && Readable(s, |s|)
  {
    if DecodingFits(s, size) && Readable(s, |s|) {
      SmallPrefixesDecode(s, size);
    } else if Ones(s) <= size && DecodedInto(true, s, size) == Done(Decoded(s)) {
      RightOnlyIf(s, size);
    }
  }

  lemma RightOnlyIf(s: seq<byte>, size: nat)
    requires InAlphabet(s) && Readable(s, |s| - 8) && Ones(s) <= size
    requires DecodedInto(true, s, size) == Done(Decoded(s))
    ensures DecodingFits(s, size) && Readable(s, |s|)
  {
    hide *;
    FitsHere(s, size);
    AllReadableIff(s);
    EarlyPrefixes(s);
    DecodeCellsSigned(s, size);
    DecodedIff(true, s, size);
    var h, ds := DecodeCells(true, s, size), Core(s);
    DigitsFit(256, Val(58, ds), Room(s, size));
    DigitsHeld(h.cells, 256, h.length, Val(58, ds));
    GapIs(Room(s, size), ds, h);
    DecodesIff(Room(s, size), ds);
  }

  lemma GapIs(cap: nat, ds: seq<nat>, h: Held)
    requires h == DecodeRun(cap, ds)
    ensures DecodeGap(cap, ds) == Val(256, h.cells) - Val(58, ds)
  {
  }

  lemma EarlyPrefixes(s: seq<byte>)
    requires InAlphabet(s) && Readable(s, |s| - 8)
    ensures var ds := Core(s); |ds| > 8 ==> SmallPrefixes(ds[..|ds| - 8])
  {
    if |s| - Ones(s) > 8 {
      ReadableIff(s, |s| - Ones(s) - 8);
    }
  }

  /** Up to ten characters behind the leading ones, nothing else has to be provided. */
  lemma SignedDecodeShortIff(s: seq<byte>, size: nat)
    requires InAlphabet(s) && |s| <= Ones(s) + 10
    ensures DecodedInto(true, s, size) == Done(Decoded(s)) <==> DecodingFits(s, size) && Readable(s, |s|)
  {
    if |s| >= 8 {
      forall p | 0 <= p < |s| - 8 ensures ReadableAt(s, p) {
        PrefixDecodes(s, p);
        ShortNumber(Indices(s)[..p], Ones(s));
      }
    }
    SignedDecodeIff(s, size);
  }

  lemma ShortNumber(ds: seq<nat>, z: nat)
    requires IsDigits(58, ds) && |ds| <= z + 1 && forall i :: 0 <= i < z && i < |ds| ==> ds[i] == 0
    ensures SmallNumber(ds)
  {
    if |ds| <= z {
      assert ds[..|ds|] == ds;
      OnesAreSmall(ds, |ds|);
    } else {
      assert ds == Nils(z) + [ds[z]];
      ValNils(58, z);
      ValPush(58, Nils(z), ds[z]);
      assert Val(58, ds) == ds[z] < 58;
    }
  }

  /**
    In any buffer with room, the cells are right after every character if and only if every proper prefix decodes to
    bytes below 128.
   */
  lemma SignedDecodeEachCharacterIff(s: seq<byte>, size: nat)
    requires InAlphabet(s) && DecodingFits(s, size)
    ensures Ones(s) <= size && (DecodesEachCharacter(Room(s, size), Core(s)) <==> Readable(s, |s|))
  {
    hide *;
    FitsHere(s, size);
    AllReadableIff(s);
    DecodesEachCharacterIff(Room(s, size), Core(s));
  }

  // ---------------------------------------------------------------- inputs that fail

  lemma SweepOne(signed: bool, from: nat, to: nat, front: seq<nat>, x: nat, carry: nat, length: nat,
                 next: nat, digit: nat, rest: Swept, o: seq<nat>, r: Swept)
    requires to > 1 && (carry > 0 || length > 0) && o == front + [x]
    requires Next(signed, from, to, carry, x) == next && Digit(signed, from, to, carry, x) == digit
    requires Sweep(signed, from, to, front, next, Less(length)) == rest
    requires r == Swept(rest.cells + [digit], rest.length + 1, rest.left)
    ensures Sweep(signed, from, to, o, carry, length) == r
  {
    Unfold(signed, from, to, front, x, carry, length);
  }

  lemma CellsOf128()
    ensures EncodeCells(true, [128], EncodeSize(1)) == Held([26, 12], 2)
  {
    var x: seq<byte> := [128];
    assert Lead(x) == 0 && EncodeSize(1) == 2 && x[0..] == x;
    SweepOf128();
    RunOf128();
  }

  lemma RunOf128()
    ensures Run(true, 256, 58, 2, Read(true, [128])) == Held([26, 12], 2)
  {
    SweepOf128();
    RunPush(true, 256, 58, 2, [], WORD - 128);
    assert Read(true, [128]) == [] + [WORD - 128] && Nils(2) == [0, 0];
    hide Sweep;
  }

  lemma SweepOf128()
    ensures var r := Sweep(true, 256, 58, [0, 0], WORD - 128, 0); r.cells == [26, 12] && r.length == 2
  {
    var c: nat := 318047311615681922;
    var d: nat := 5483574338201412;
    SweepOne(true, 256, 58, [], 0, c, 0, d, 26, Swept([], 0, d), [0], Swept([26], 1, d));
    SweepOne(true, 256, 58, [0], 0, WORD - 128, 0, c, 12, Swept([26], 1, d), [0, 0], Swept([26, 12], 2, d));
  }

  lemma NumberOf128()
    ensures Digits(58, Val(256, [128])) == [2, 12]
  {
    assert [128][..0] == [] && Val(256, [128]) == 128;
    assert Digits(58, 128) == Digits(58, 2) + [12];
  }

  lemma CodesOf(a: nat, b: nat)
    requires a < 58 && b < 58
    ensures IsDigits(58, [a, b]) && Rendered(0, [a, b]) == [Code(a), Code(b)]
  {
  }

  /** The byte 128, which encodes to "3D", is encoded as "TD". */
  lemma EncodingOf128()
    ensures EncodedInto(true, [128], EncodeSize(1)) == Done([84, 68]) && Encoded([128]) == [51, 68]
  {
    var x: seq<byte> := [128];
    assert Lead(x) == 0 && EncodeSize(1) == 2;
    CodesOf(26, 12);
    CodesOf(2, 12);
    assert Code(26) == 84 && Code(12) == 68 && Code(2) == 51;
    hide Digits, Val, Encoded, Rendered, EncodeCells;
    NumberOf128();
    EncodedIsRendered(x);
    CellsOf128();
    assert [26, 12][0..] == [26, 12];
  }

  lemma OneSweep(o: seq<nat>, d: nat, length: nat, r: Swept, ds: seq<nat>, next: seq<nat>)
    requires Run(true, 58, 256, |o|, ds) == Held(o, length) && Sweep(true, 58, 256, o, d, length) == r
    requires next == ds + [d]
    ensures Run(true, 58, 256, |o|, next) == Held(r.cells, r.length)
  {
    RunPush(true, 58, 256, |o|, ds, d);
  }

  lemma CellsOf2ABPf()
    ensures Run(true, 58, 256, 4, [1, 9, 10, 22, 38]) == Held([0, 199, 199, 2], 4)
  {
    assert Run(true, 58, 256, 4, []) == Held([0, 0, 0, 0], 0);
    hide Run;
    FirstSweep();
    SecondSweep();
    ThirdSweep();
    OneSweep([0, 0, 0, 0], 1, 0, Swept([0, 0, 0, 1], 1, 0), [], [1]);
    OneSweep([0, 0, 0, 1], 9, 1, Swept([0, 0, 0, 67], 1, 0), [1], [1, 9]);
    OneSweep([0, 0, 0, 67], 10, 1, Swept([0, 0, 15, 56], 2, 0), [1, 9], [1, 9, 10]);
    FourthSweep();
    OneSweep([0, 0, 15, 56], 22, 2, Swept([0, 3, 114, 198], 3, 0), [1, 9, 10], [1, 9, 10, 22]);
    FifthSweep();
    OneSweep([0, 3, 114, 198], 38, 3, Swept([0, 199, 199, 2], 4, 4294967296), [1, 9, 10, 22], [1, 9, 10, 22, 38]);
  }

  lemma FirstSweep()
    ensures Sweep(true, 58, 256, [0, 0, 0, 0], 1, 0) == Swept([0, 0, 0, 1], 1, 0)
  {
    SweepOne(true, 58, 256, [0, 0, 0], 0, 1, 0, 0, 1, Swept([0, 0, 0], 0, 0), [0, 0, 0, 0], Swept([0, 0, 0, 1], 1, 0));
  }

  lemma SecondSweep()
    ensures Sweep(true, 58, 256, [0, 0, 0, 1], 9, 1) == Swept([0, 0, 0, 67], 1, 0)
  {
    SweepOne(true, 58, 256, [0, 0, 0], 1, 9, 1, 0, 67,
             Swept([0, 0, 0], 0, 0), [0, 0, 0, 1], Swept([0, 0, 0, 67], 1, 0));
  }

  lemma ThirdSweep()
    ensures Sweep(true, 58, 256, [0, 0, 0, 67], 10, 1) == Swept([0, 0, 15, 56], 2, 0)
  {
    SweepOne(true, 58, 256, [0, 0], 0, 15, 0, 0, 15, Swept([0, 0], 0, 0), [0, 0, 0], Swept([0, 0, 15], 1, 0));
    SweepOne(true, 58, 256, [0, 0, 0], 67, 10, 1, 15, 56,
             Swept([0, 0, 15], 1, 0), [0, 0, 0, 67], Swept([0, 0, 15, 56], 2, 0));
  }

  lemma FourthSweep()
    ensures Sweep(true, 58, 256, [0, 0, 15, 56], 22, 2) == Swept([0, 3, 114, 198], 3, 0)
  {
    SweepOne(true, 58, 256, [0], 0, 3, 0, 0, 3, Swept([0], 0, 0), [0, 0], Swept([0, 3], 1, 0));
    SweepOne(true, 58, 256, [0, 0], 15, 12, 1, 3, 114, Swept([0, 3], 1, 0), [0, 0, 15], Swept([0, 3, 114], 2, 0));
    SweepOne(true, 58, 256, [0, 0, 15], 56, 22, 2, 12, 198,
             Swept([0, 3, 114], 2, 0), [0, 0, 15, 56], Swept([0, 3, 114, 198], 3, 0));
  }

  lemma FifthSweep()
    ensures Sweep(true, 58, 256, [0, 3, 114, 198], 38, 3) == Swept([0, 199, 199, 2], 4, 4294967296)
  {
    SweepOne(true, 58, 256, [], 0, 1099511627776, 0, 4294967296, 0,
             Swept([], 0, 4294967296), [0], Swept([0], 1, 4294967296));
    SweepOne(true, 58, 256, [0], 3, 281474976710681, 1, 1099511627776, 199,
             Swept([0], 1, 4294967296), [0, 3], Swept([0, 199], 2, 4294967296));
    SweepOne(true, 58, 256, [0, 3], 114, 72057594037927923, 2, 281474976710681, 199,
             Swept([0, 199], 2, 4294967296), [0, 3, 114], Swept([0, 199, 199], 3, 4294967296));
    SweepOne(true, 58, 256, [0, 3, 114], 198, 38, 3, 72057594037927923, 2,
             Swept([0, 199, 199], 3, 4294967296), [0, 3, 114, 198], Swept([0, 199, 199, 2], 4, 4294967296));
  }

  lemma NumberOf2ABPf()
    ensures Val(58, [1, 9, 10, 22, 38]) == 13107458 && Digits(256, 13107458) == [200, 1, 2]
  {
    var ds: seq<nat> := [1, 9, 10, 22, 38];
    assert ds[..4] == [1, 9, 10, 22] && [1, 9, 10, 22][..3] == [1, 9, 10] && [1, 9, 10][..2] == [1, 9];
    assert [1, 9][..1] == [1] && [1][..0] == [];
    assert Digits(256, 13107458) == Digits(256, 51201) + [2] == Digits(256, 200) + [1] + [2] == [200, 1, 2];
  }

  lemma CharactersOf2ABPf()
    ensures var s: seq<byte> := [50, 65, 66, 80, 102];
            InAlphabet(s) && Indices(s) == [1, 9, 10, 22, 38] && Ones(s) == 0
  {
  }

  /** "2ABPf", the encoding of 200, 1, 2, is decoded as 0, 199, 199, 2. */
  lemma DecodingOf2ABPf()
    ensures var s: seq<byte> := [50, 65, 66, 80, 102];
            InAlphabet(s) && DecodedInto(true, s, DecodeSize(5)) == Done([0, 199, 199, 2]) && Decoded(s) == [200, 1, 2]
  {
    var s: seq<byte> := [50, 65, 66, 80, 102];
    CharactersOf2ABPf();
    hide Ones, InAlphabet, Indices, Digits, Val, Run, Decoded;
    CellsOf2ABPf();
    NumberOf2ABPf();
    DecodedIs(s);
    assert DecodeSize(5) == 4 && Indices(s)[0..] == Indices(s);
    assert DecodeCells(true, s, 4) == Held([0, 199, 199, 2], 4);
    hide DecodeCells, DecodeSize;
    assert [0, 199, 199, 2][0..] == [0, 199, 199, 2] && Nils(0) == [];
    DecodedShown(true, s, 4, Held([0, 199, 199, 2], 4), [0, 199, 199, 2]);
  }
}
