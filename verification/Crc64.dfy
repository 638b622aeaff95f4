/**
  CRC-64/JONES: the table-driven loop, and why it catches bursts.  Exclusive or
  is addition over GF(2), and the register is a linear, invertible map.
  */
module Crc64 {
  import opened Words

  type Octets = seq<bv8>

  const POLY: bv64 := 0xad93d23594c935a9
  const REFLECTED_POLY: bv64 := 0x95ac9329ac4bc9b5

  // ---------------------------------------------------------------- addition

  function Add(x: bv64, y: bv64): bv64 {
    x ^ y
  }

  lemma AddAssociative(a: bv64, b: bv64, c: bv64)
    ensures Add(Add(a, b), c) == Add(a, Add(b, c))
  {
  }

  lemma AddCommutative(a: bv64, b: bv64)
    ensures Add(a, b) == Add(b, a)
  {
  }

  lemma AddShuffle(a: bv64, b: bv64, s: bv64, t: bv64)
    ensures Add(Add(a, b), Add(s, t)) == Add(Add(a, s), Add(b, t))
  {
    hide Add;
    AddAssociative(a, b, Add(s, t));
    AddAssociative(b, s, t);
    AddCommutative(b, s);
    AddAssociative(s, b, t);
    AddAssociative(a, s, Add(b, t));
  }

  lemma AddZero(x: bv64)
    ensures Add(x, 0) == x && Add(0, x) == x && Add(x, x) == 0
  {
  }

  lemma AddIsZero(x: bv64, y: bv64)
    ensures Add(x, y) == 0 <==> x == y
  {
  }

  // ------------------------------------------------------------ the register

  function Half(x: bv64): bv64 {
    x >> 1
  }

  function Feedback(x: bv64): bv64 {
    if x & 1 != 0 then REFLECTED_POLY else 0
  }

  /** One bit through the shift register. */
  function BitStep(x: bv64): bv64 {
    Add(Half(x), Feedback(x))
  }

  function Steps(x: bv64, n: nat): bv64 {
    if n == 0 then x else BitStep(Steps(x, n - 1))
  }

  function ByteStep(x: bv64): bv64 {
    Steps(x, 8)
  }

  function Widen(b: bv8): bv64 {
    b as bv64
  }

  /** The checksum, bit by bit, without a table. */
  function Crc(crc: bv64, buf: Octets): bv64 {
    if |buf| == 0 then crc else ByteStep(Add(Crc(crc, buf[..|buf| - 1]), Widen(buf[|buf| - 1])))
  }

  // ------------------------------------------------------------------ linear

  lemma HalfLinear(x: bv64, y: bv64)
    ensures Half(Add(x, y)) == Add(Half(x), Half(y))
  {
  }

  lemma FeedbackLinear(x: bv64, y: bv64)
    ensures Feedback(Add(x, y)) == Add(Feedback(x), Feedback(y))
  {
    assert (x ^ y) & 1 == (x & 1) ^ (y & 1);
  }

  lemma BitStepLinear(x: bv64, y: bv64)
    ensures BitStep(Add(x, y)) == Add(BitStep(x), BitStep(y))
  {
    hide Half, Feedback, Add;
    HalfLinear(x, y);
    FeedbackLinear(x, y);
    AddShuffle(Half(x), Half(y), Feedback(x), Feedback(y));
  }

  lemma {:induction false} StepsLinear(x: bv64, y: bv64, n: nat)
    ensures Steps(Add(x, y), n) == Add(Steps(x, n), Steps(y, n))
  {
    hide BitStep, Add;
    if n > 0 {
      StepsLinear(x, y, n - 1);
      BitStepLinear(Steps(x, n - 1), Steps(y, n - 1));
    }
  }

  function AddByte(x: bv8, y: bv8): bv8 {
    x ^ y
  }

  function Difference(s: Octets, t: Octets): Octets
    requires |s| == |t|
  {
    seq(|s|, i requires 0 <= i < |s| => AddByte(s[i], t[i]))
  }

  lemma WidenLinear(s: bv8, t: bv8)
    ensures Widen(AddByte(s, t)) == Add(Widen(s), Widen(t))
  {
  }

  /** (Linearity) The checksum of a difference is the difference of checksums. */
  lemma {:induction false} CrcLinear(a: bv64, b: bv64, s: Octets, t: Octets)
    requires |s| == |t|
    ensures Crc(Add(a, b), Difference(s, t)) == Add(Crc(a, s), Crc(b, t))
  {
    hide Steps, Add, Widen, AddByte;
    if |s| > 0 {
      var n := |s| - 1;
      CrcLinear(a, b, s[..n], t[..n]);
      assert Difference(s, t)[..n] == Difference(s[..n], t[..n]);
      WidenLinear(s[n], t[n]);
      StepsLinear(Add(Crc(a, s[..n]), Widen(s[n])), Add(Crc(b, t[..n]), Widen(t[n])), 8);
      AddShuffle(Crc(a, s[..n]), Crc(b, t[..n]), Widen(s[n]), Widen(t[n]));
    }
  }

  // -------------------------------------------------------------- invertible

  /** The polynomial's top bit remembers the bit that was shifted out, so only
      zero steps to zero. */
  lemma BitStepZero(x: bv64)
    ensures BitStep(x) == 0 <==> x == 0
  {
  }

  lemma {:induction false} StepsZero(x: bv64, n: nat)
    ensures Steps(x, n) == 0 <==> x == 0
  {
    hide BitStep;
    if n > 0 {
      StepsZero(x, n - 1);
      BitStepZero(Steps(x, n - 1));
    }
  }

  /** (Invertibility) Different registers stay different. */
  lemma StepsInjective(x: bv64, y: bv64, n: nat)
    requires Steps(x, n) == Steps(y, n)
    ensures x == y
  {
    hide Steps, Add;
    StepsLinear(x, y, n);
    AddIsZero(Steps(x, n), Steps(y, n));
    StepsZero(Add(x, y), n);
    AddIsZero(x, y);
  }

  function Zeros(n: nat): Octets {
    seq(n, _ => 0)
  }

  /** Zero bytes keep a zero register zero and a nonzero one nonzero. */
  lemma {:induction false} CrcOfZeros(crc: bv64, n: nat)
    ensures Crc(crc, Zeros(n)) == 0 <==> crc == 0
  {
    hide Steps, Add, Widen;
    if n > 0 {
      CrcOfZeros(crc, n - 1);
      var c := Crc(crc, Zeros(n - 1));
      assert Zeros(n)[..n - 1] == Zeros(n - 1);
      WidenZero();
      AddZero(c);
      StepsZero(c, 8);
    }
  }

  lemma WidenZero()
    ensures Widen(0) == 0
  {
  }

  lemma {:induction false} CrcAppend(crc: bv64, s: Octets, t: Octets)
    ensures Crc(crc, s + t) == Crc(Crc(crc, s), t)
  {
    hide Steps, Add, Widen;
    if |t| == 0 {
      assert s + t == s;
    } else {
      var n := |t| - 1;
      CrcAppend(crc, s, t[..n]);
      assert (s + t)[..|s + t| - 1] == s + t[..n];
    }
  }

  // ------------------------------------------------------ the table-driven loop

  function Shifted(x: bv64, k: bv64): bv64
    requires k <= 8
  {
    x >> k
  }

  /** While the low byte is zero a step only shifts. */
  lemma ZeroBitShifts(x: bv64, k: bv64)
    requires x & 0xff == 0 && k < 8
    ensures BitStep(Shifted(x, k)) == Shifted(x, k + 1)
  {
    assert (x >> k) & 1 == 0;
  }

  lemma NotShifted(x: bv64)
    ensures Shifted(x, 0) == x
  {
  }

  lemma EightStepsShift(x: bv64)
    requires x & 0xff == 0
    ensures Steps(x, 8) == Shifted(x, 8)
  {
    hide BitStep, Shifted;
    NotShifted(x);
    ZeroBitShifts(x, 0);
    ZeroBitShifts(x, 1);
    ZeroBitShifts(x, 2);
    ZeroBitShifts(x, 3);
    ZeroBitShifts(x, 4);
    ZeroBitShifts(x, 5);
    ZeroBitShifts(x, 6);
    ZeroBitShifts(x, 7);
    assert Steps(x, 1) == Shifted(x, 1);
    assert Steps(x, 2) == Shifted(x, 2);
    assert Steps(x, 3) == Shifted(x, 3);
    assert Steps(x, 4) == Shifted(x, 4);
    assert Steps(x, 5) == Shifted(x, 5);
    assert Steps(x, 6) == Shifted(x, 6);
    assert Steps(x, 7) == Shifted(x, 7);
  }

  /** Table lookup for the low byte, shift for the rest. */
  lemma LookupStep(x: bv64)
    ensures Steps(x, 8) == Add(x >> 8, Steps(x & 0xff, 8))
  {
    hide Steps, Add;
    var high, low := x & 0xffffffffffffff00, x & 0xff;
    SplitLow(x);
    StepsLinear(high, low, 8);
    EightStepsShift(high);
  }

  lemma SplitLow(x: bv64)
    ensures Add(x & 0xffffffffffffff00, x & 0xff) == x
    ensures (x & 0xffffffffffffff00) & 0xff == 0
    ensures (x & 0xffffffffffffff00) >> 8 == x >> 8
  {
  }

  lemma HighUntouched(crc: bv64, b: bv8)
    ensures Add(crc, Widen(b)) >> 8 == crc >> 8
  {
  }

  // ------------------------------------------------------ building the table

  /** The constant is the polynomial with its bits reversed. */
  lemma ReflectedPolynomial()
    ensures ReverseBits(POLY) == REFLECTED_POLY
  {
  }

  function Word(i: nat): bv64
    requires i < 256
  {
    i as bv64
  }

  lemma WordOfByte(w: bv64)
    requires w < 256
    ensures w as nat < 256 && Word(w as nat) == w
  {
  }

  lemma LowByte(w: bv64)
    ensures w & 0xff < 256
  {
  }

  ghost predicate IsTable(table: array<bv64>)
    reads table
  {
    table.Length == 256 && forall i :: 0 <= i < 256 ==> table[i] == Steps(Word(i), 8)
  }

  method BuildTable() returns (table: array<bv64>)
    ensures fresh(table) && IsTable(table)
  {
    hide Steps, BitStep, Word;
    table := new bv64[256];
    for i := 0 to 256
      invariant forall k :: 0 <= k < i ==> table[k] == Steps(Word(k), 8)
    {
      var crc := Word(i);
      NoSteps(crc);
      for bit := 0 to 8
        invariant crc == Steps(Word(i), bit)
        invariant forall k :: 0 <= k < i ==> table[k] == Steps(Word(k), 8)
      {
        StepOnce(Word(i), bit);
        BranchingStep(crc);
        crc := if crc & 1 != 0 then Add(Half(crc), REFLECTED_POLY) else Half(crc);
      }
      table[i] := crc;
    }
  }

  lemma NoSteps(x: bv64)
    ensures Steps(x, 0) == x
  {
  }

  lemma StepOnce(x: bv64, n: nat)
    ensures Steps(x, n + 1) == BitStep(Steps(x, n))
  {
  }

  lemma BranchingStep(x: bv64)
    ensures BitStep(x) == if x & 1 != 0 then Add(Half(x), REFLECTED_POLY) else Half(x)
  {
  }

  /** The running checksum over a buffer. */
  method Crc64(table: array<bv64>, crc: bv64, buf: Octets) returns (r: bv64)
    requires IsTable(table)
    ensures r == Crc(crc, buf)
  {
    hide Steps, Add, Widen, Word;
    r := crc;
    for k := 0 to |buf|
      invariant r == Crc(crc, buf[..k])
    {
      var x := Add(r, Widen(buf[k]));
      var index := x & 0xff;
      LowByte(x);
      WordOfByte(index);
      var entry := table[index as nat];
      LookupStep(x);
      HighUntouched(r, buf[k]);
      assert buf[..k + 1][..k] == buf[..k];
      r := Add(r >> 8, entry);
    }
    assert buf[..|buf|] == buf;
  }

  // ------------------------------------------------------------ check value

  function EightSteps(x: bv64): bv64 {
    BitStep(BitStep(BitStep(BitStep(BitStep(BitStep(BitStep(BitStep(x))))))))
  }

  lemma ByteIsEight(x: bv64)
    ensures ByteStep(x) == EightSteps(x)
  {
    hide BitStep, Steps;
    NoSteps(x);
    StepOnce(x, 0);
    StepOnce(x, 1);
    StepOnce(x, 2);
    StepOnce(x, 3);
    StepOnce(x, 4);
    StepOnce(x, 5);
    StepOnce(x, 6);
    StepOnce(x, 7);
  }

  lemma OneByte(buf: Octets, i: nat, crc: bv64, x: bv64)
    requires i < |buf| && Crc(0, buf[..i]) == crc && Add(crc, Widen(buf[i])) == x
    ensures Crc(0, buf[..i + 1]) == EightSteps(x)
  {
    hide EightSteps, Steps, Add, Widen;
    ByteIsEight(x);
    assert buf[..i + 1][..i] == buf[..i];
  }

  /** The register before and after each byte of "123456789". */
  lemma Rolled()
    ensures EightSteps(0x31) == 0xfdc17184a9f739fa
    ensures EightSteps(0xfdc17184a9f739c8) == 0xe10364513a98ed96
    ensures EightSteps(0xe10364513a98eda5) == 0xd5bcfb814479b1ac
    ensures EightSteps(0xd5bcfb814479b198) == 0x43593c5dcda521f0
    ensures EightSteps(0x43593c5dcda521c5) == 0xf0758513239c7e0d
    ensures EightSteps(0xf0758513239c7e3b) == 0xa3a90925b2ab4903
    ensures EightSteps(0xa3a90925b2ab4934) == 0x47824d362431ad45
    ensures EightSteps(0x47824d362431ad7d) == 0x49ec20b315e86dc2
    ensures EightSteps(0x49ec20b315e86dfb) == 0xe9c6d914c4b8d9ca
  {
  }

  lemma NoBytes(crc: bv64)
    ensures Crc(crc, []) == crc
  {
  }

  /** (Check value) The checksum of "123456789". */
  lemma CheckValue()
    ensures Crc(0, [49, 50, 51, 52, 53, 54, 55, 56, 57]) == 0xe9c6d914c4b8d9ca
  {
    hide Crc, EightSteps;
    var s: Octets := [49, 50, 51, 52, 53, 54, 55, 56, 57];
    NoBytes(0);
    Rolled();
    assert s[..0] == [] && s[..9] == s;
    OneByte(s, 0, 0, 0x31);
    OneByte(s, 1, 0xfdc17184a9f739fa, 0xfdc17184a9f739c8);
    OneByte(s, 2, 0xe10364513a98ed96, 0xe10364513a98eda5);
    OneByte(s, 3, 0xd5bcfb814479b1ac, 0xd5bcfb814479b198);
    OneByte(s, 4, 0x43593c5dcda521f0, 0x43593c5dcda521c5);
    OneByte(s, 5, 0xf0758513239c7e0d, 0xf0758513239c7e3b);
    OneByte(s, 6, 0xa3a90925b2ab4903, 0xa3a90925b2ab4934);
    OneByte(s, 7, 0x47824d362431ad45, 0x47824d362431ad7d);
    OneByte(s, 8, 0x49ec20b315e86dc2, 0x49ec20b315e86dfb);
  }
}
