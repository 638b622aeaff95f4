/** The DUMP footer: two bytes of version, then the CRC of everything before it. */
module Dump {
  import opened ByteStrings
  import opened Crc64

  const DUMP_RDB_VERSION: bv64 := 11
  const DUMP_FOOTER_LEN: nat := 10

  // ------------------------------------------------------------ little endian

  function Join(b: bv8, high: bv64): bv64 {
    Widen(b) | (high << 8)
  }

  function LowByteOf(w: bv64): bv8 {
    (w & 0xff) as bv8
  }

  function BytesWord(s: Octets): bv64 {
    if |s| == 0 then 0 else Join(s[0], BytesWord(s[1..]))
  }

  function WordBytes(w: bv64, n: nat): (s: Octets)
    ensures |s| == n
  {
    if n == 0 then [] else [LowByteOf(w)] + WordBytes(w >> 8, n - 1)
  }

  lemma SplitJoin(b: bv8, high: bv64)
    requires high >> 56 == 0
    ensures LowByteOf(Join(b, high)) == b && Join(b, high) >> 8 == high
  {
  }

  lemma JoinSplit(w: bv64)
    ensures Join(LowByteOf(w), w >> 8) == w && (w >> 8) >> 56 == 0
  {
  }

  lemma ShiftedOut(w: bv64)
    ensures (w >> 8) >> 48 == w >> 56 && (w >> 8) >> 40 == w >> 48 && (w >> 8) >> 32 == w >> 40
    ensures (w >> 8) >> 24 == w >> 32 && (w >> 8) >> 16 == w >> 24 && (w >> 8) >> 8 == w >> 16
    ensures w >> 0 == w
  {
  }

  /** Fewer than eight bytes leave the top byte of the word zero. */
  lemma {:induction false} BytesWordFits(s: Octets)
    requires |s| <= 7
    ensures BytesWord(s) >> 56 == 0
    ensures |s| < 7 ==> BytesWord(s) >> 48 == 0
    ensures |s| < 6 ==> BytesWord(s) >> 40 == 0
    ensures |s| < 5 ==> BytesWord(s) >> 32 == 0
    ensures |s| < 4 ==> BytesWord(s) >> 24 == 0
    ensures |s| < 3 ==> BytesWord(s) >> 16 == 0
    ensures |s| < 2 ==> BytesWord(s) >> 8 == 0
    ensures |s| < 1 ==> BytesWord(s) == 0
  {
    hide Join;
    if |s| > 0 {
      BytesWordFits(s[1..]);
      var v := BytesWord(s[1..]);
      SplitJoin(s[0], v);
      ShiftedOut(BytesWord(s));
    }
  }

  lemma {:induction false} ToFromWord(s: Octets)
    requires |s| <= 8
    ensures WordBytes(BytesWord(s), |s|) == s
  {
    hide Join, LowByteOf;
    if |s| > 0 {
      ToFromWord(s[1..]);
      BytesWordFits(s[1..]);
      SplitJoin(s[0], BytesWord(s[1..]));
      assert s == [s[0]] + s[1..];
    }
  }

  lemma {:induction false} FromToWord(w: bv64, n: nat)
    requires n <= 8
    requires n == 8 || (n == 7 && w >> 56 == 0) || (n == 6 && w >> 48 == 0) || (n == 5 && w >> 40 == 0)
      || (n == 4 && w >> 32 == 0) || (n == 3 && w >> 24 == 0) || (n == 2 && w >> 16 == 0)
      || (n == 1 && w >> 8 == 0) || (n == 0 && w == 0)
    ensures BytesWord(WordBytes(w, n)) == w
  {
    hide Join, LowByteOf;
    if n > 0 {
      ShiftedOut(w);
      JoinSplit(w);
      FromToWord(w >> 8, n - 1);
    }
  }

  lemma BytesWordInjective(s: Octets, t: Octets)
    requires |s| == |t| <= 8 && BytesWord(s) == BytesWord(t)
    ensures s == t
  {
    ToFromWord(s);
    ToFromWord(t);
  }

  // ----------------------------------------------------------------- residue

  /** Feeding the register its own low byte leaves its other bytes. */
  lemma EatByte(b: bv8, high: bv64)
    requires high >> 56 == 0
    ensures Steps(Add(Join(b, high), Widen(b)), 8) == high
  {
    hide Steps;
    var x := Add(Join(b, high), Widen(b));
    ClearedLowByte(b, high);
    EightStepsShift(x);
  }

  lemma ClearedLowByte(b: bv8, high: bv64)
    requires high >> 56 == 0
    ensures var x := Add(Join(b, high), Widen(b)); x & 0xff == 0 && Crc64.Shifted(x, 8) == high
  {
  }

  /** Feeding up to eight bytes to a register that differs from them by `x` leaves
      zero exactly when `x` is zero. */
  lemma {:induction false} Residue(c: bv64, x: bv64, s: Octets)
    requires |s| <= 8 && c == Add(x, BytesWord(s))
    ensures Crc(c, s) == 0 <==> x == 0
    decreases |s|
  {
    hide Steps, Add, Widen, Join, Crc;
    if |s| == 0 {
      AddZero(x);
      CrcOfNothing(c);
    } else {
      var b, t := s[0], s[1..];
      var high := BytesWord(t);
      BytesWordFits(t);
      AddAssociative(x, Join(b, high), Widen(b));
      StepsLinear(x, Add(Join(b, high), Widen(b)), 8);
      EatByte(b, high);
      CrcOfByte(c, b);
      CrcAppend(c, [b], t);
      assert s == [b] + t;
      Residue(Add(Steps(x, 8), high), Steps(x, 8), t);
      StepsZero(x, 8);
    }
  }

  lemma CrcOfNothing(c: bv64)
    ensures Crc(c, []) == c
  {
  }

  lemma CrcOfByte(c: bv64, b: bv8)
    ensures Crc(c, [b]) == Steps(Add(c, Widen(b)), 8)
  {
    assert [b][..0] == [];
  }

  /** Eight bytes bring the register to zero exactly when they spell it. */
  lemma EightByteResidue(c: bv64, s: Octets)
    requires |s| == 8
    ensures Crc(c, s) == 0 <==> BytesWord(s) == c
  {
    hide Crc, Add, BytesWord;
    var w := BytesWord(s);
    AddAssociative(c, w, w);
    AddZero(w);
    AddZero(c);
    Residue(c, Add(c, w), s);
    AddIsZero(c, w);
  }

  // ------------------------------------------------------------ seal, verify

  function Versioned(body: Octets): Octets {
    body + WordBytes(DUMP_RDB_VERSION, 2)
  }

  function Seal(body: Octets): Octets {
    Versioned(body) + WordBytes(Crc(0, Versioned(body)), 8)
  }

  function Version(buf: Octets): bv64
    requires |buf| >= DUMP_FOOTER_LEN
  {
    BytesWord(buf[|buf| - 10..|buf| - 8])
  }

  /** A payload is good when its version is known and the register, run over all
      of it, comes back to zero. */
  ghost function Verified(buf: Octets): Option<Octets> {
    if |buf| >= DUMP_FOOTER_LEN && Version(buf) <= DUMP_RDB_VERSION && Crc(0, buf) == 0
    then Some(buf[..|buf| - DUMP_FOOTER_LEN])
    else None
  }

  method SealDump(table: array<bv64>, body: Octets) returns (r: Octets)
    requires IsTable(table)
    ensures r == Seal(body)
  {
    r := body + WordBytes(DUMP_RDB_VERSION, 2);
    var crc := Crc64.Crc64(table, 0, r);
    r := r + WordBytes(crc, 8);
  }

  method VerifyDump(table: array<bv64>, buf: Octets) returns (r: Option<Octets>)
    requires IsTable(table)
    ensures r == Verified(buf)
  {
    hide BytesWord, Crc;
    if |buf| < DUMP_FOOTER_LEN {
      return None;
    }
    var split := |buf| - DUMP_FOOTER_LEN;
    var body, footer := buf[..split], buf[split..];
    assert footer[0..2] == buf[split..split + 2];
    var version := BytesWord(footer[0..2]);
    if version > DUMP_RDB_VERSION {
      return None;
    }
    var stored := BytesWord(footer[2..10]);
    var computed := Crc64.Crc64(table, 0, buf[..|buf| - 8]);
    assert footer[2..10] == buf[|buf| - 8..];
    StoredMatches(buf);
    if stored != computed {
      return None;
    }
    return Some(body);
  }

  /** Comparing the stored checksum is the same as testing the residue. */
  lemma StoredMatches(buf: Octets)
    requires |buf| >= 8
    ensures Crc(0, buf) == 0 <==> BytesWord(buf[|buf| - 8..]) == Crc(0, buf[..|buf| - 8])
  {
    hide BytesWord, Crc;
    var n := |buf| - 8;
    CrcAppend(0, buf[..n], buf[n..]);
    assert buf == buf[..n] + buf[n..];
    EightByteResidue(Crc(0, buf[..n]), buf[n..]);
  }

  /** (Round trip) What was sealed verifies, and gives the body back. */
  lemma SealedVerifies(body: Octets)
    ensures Verified(Seal(body)) == Some(body)
  {
    hide BytesWord, WordBytes, Crc;
    var buf, v := Seal(body), Versioned(body);
    var crc := Crc(0, v);
    FromToWord(crc, 8);
    VersionFits();
    FromToWord(DUMP_RDB_VERSION, 2);
    assert buf[|buf| - 8..] == WordBytes(crc, 8) && buf[..|buf| - 8] == v;
    assert buf[|buf| - 10..|buf| - 8] == WordBytes(DUMP_RDB_VERSION, 2);
    assert buf[..|buf| - 10] == body;
    StoredMatches(buf);
    VersionItself();
  }

  lemma VersionFits()
    ensures DUMP_RDB_VERSION >> 16 == 0
  {
  }

  lemma VersionItself()
    ensures DUMP_RDB_VERSION <= DUMP_RDB_VERSION
  {
  }

  /** Only sealing makes a payload of this version. */
  lemma OnlySealed(buf: Octets, body: Octets)
    requires Verified(buf) == Some(body) && Version(buf) == DUMP_RDB_VERSION
    ensures buf == Seal(body)
  {
    hide BytesWord, WordBytes, Crc;
    var n := |buf|;
    StoredMatches(buf);
    ToFromWord(buf[n - 8..]);
    ToFromWord(buf[n - 10..n - 8]);
    assert buf[..n - 8] == Versioned(body);
    assert buf == buf[..n - 8] + buf[n - 8..];
  }

  // ------------------------------------------------------------------ bursts

  /** The buffers agree except within eight bytes from `i`. */
  ghost predicate DifferWithin(f: Octets, g: Octets, i: nat) {
    && |f| == |g| && i + 8 <= |f|
    && f[..i] == g[..i] && f[i + 8..] == g[i + 8..]
  }

  lemma SameByte(x: bv8)
    ensures AddByte(x, x) == 0
  {
  }

  lemma DifferentByte(x: bv8, y: bv8)
    ensures AddByte(x, y) == 0 ==> x == y
  {
  }

  /** A burst of eight bytes leaves a residue, wherever it is. */
  lemma BurstLeavesResidue(f: Octets, g: Octets, i: nat)
    requires DifferWithin(f, g, i) && f != g && Crc(0, f) == 0
    ensures Crc(0, g) != 0
  {
    hide Crc, Add, AddByte, BytesWord;
    var d := Difference(f, g);
    var burst, tail := d[i..i + 8], |f| - i - 8;
    BurstShape(f, g, i);
    AddZero(0);
    CrcLinear(0, 0, f, g);
    AddZero(Crc(0, g));
    CrcAppend(0, Zeros(i), burst + Zeros(tail));
    CrcAppend(0, burst, Zeros(tail));
    CrcOfZeros(0, i);
    CrcOfZeros(Crc(0, burst), tail);
    EightByteResidue(0, burst);
    ZerosAreZero();
    if BytesWord(burst) == 0 {
      BytesWordInjective(burst, Zeros(8));
    }
  }

  lemma ZerosAreZero()
    ensures BytesWord(Zeros(8)) == 0
  {
    BytesWordOfZeros(8);
  }

  lemma {:induction false} BytesWordOfZeros(n: nat)
    ensures BytesWord(Zeros(n)) == 0
  {
    if n > 0 {
      BytesWordOfZeros(n - 1);
      assert Zeros(n)[1..] == Zeros(n - 1);
    }
  }

  lemma BurstShape(f: Octets, g: Octets, i: nat)
    requires DifferWithin(f, g, i) && f != g
    ensures var d := Difference(f, g);
      d == Zeros(i) + (d[i..i + 8] + Zeros(|f| - i - 8)) && d[i..i + 8] != Zeros(8)
  {
    hide AddByte;
    var d := Difference(f, g);
    forall k | 0 <= k < |f|
      ensures f[k] == g[k] <==> d[k] == 0
      ensures k < i || i + 8 <= k ==> d[k] == 0
    {
      SameByte(f[k]);
      DifferentByte(f[k], g[k]);
      if k < i {
        assert f[k] == f[..i][k] == g[..i][k];
      } else if i + 8 <= k {
        assert f[k] == f[i + 8..][k - i - 8] == g[i + 8..][k - i - 8];
      }
    }
    var k :| 0 <= k < |f| && f[k] != g[k];
    assert d[i..i + 8][k - i] != 0;
  }

  /** (Burst detection) Changing a sealed payload within any eight consecutive
      bytes, footer included, gets it rejected. */
  lemma BurstRejected(body: Octets, g: Octets, i: nat)
    requires DifferWithin(Seal(body), g, i) && g != Seal(body)
    ensures Verified(g) == None
  {
    hide Crc, Seal, BytesWord;
    SealedVerifies(body);
    BurstLeavesResidue(Seal(body), g, i);
  }
}
