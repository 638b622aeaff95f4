/** The byte encoding of listpack entries. */
module ListpackCodec {
  import opened ByteStrings
  import Arithmetic
  import opened Decimal
  import opened LittleEndian

  const ENC_6BIT_STR: Byte := 0x80
  const ENC_13BIT_INT: Byte := 0xC0
  const ENC_12BIT_STR: Byte := 0xE0
  const ENC_32BIT_STR: Byte := 0xF0
  const ENC_16BIT_INT: Byte := 0xF1
  const ENC_24BIT_INT: Byte := 0xF2
  const ENC_32BIT_INT: Byte := 0xF3
  const ENC_64BIT_INT: Byte := 0xF4

  datatype Entry = Int(v: int) | Str(s: Bytes)

  // -------------------------------------------------- strings that are numbers

  /** Canonical decimal text of an i64: what `string2ll` accepts. */
  function Canonical(s: Bytes): Option<int> {
    var neg := |s| > 0 && s[0] == MINUS;
    var digits := if neg then s[1..] else s;
    if s == [ZERO] then Some(0)
    else if |digits| > 0 && AllDigits(digits) && digits[0] != ZERO then
      var magnitude: int := Value(digits);
      var v: int := if neg then -magnitude else magnitude;
      if IsI64(v) then Some(v) else None
    else None
  }

  /** A string that reads as a number is stored as one. */
  function Canonicalize(e: Entry): Entry {
    match e
    case Int(_) => e
    case Str(s) => match Canonical(s) case Some(v) => Int(v) case None => e
  }

  /** An entry the encoder is handed: its number is an i64. */
  predicate Encodable(e: Entry) {
    match e
    case Int(v) => IsI64(v)
    case Str(s) => |s| < 0x1_0000_0000
  }

  // ---------------------------------------------------------- encoding ladder

  function PayloadEnclen(e: Entry): (n: nat)
    ensures n > 0
  {
    match e
    case Int(v) =>
      if 0 <= v <= 127 then 1
      else if -4096 <= v <= 4095 then 2
      else if -32768 <= v <= 32767 then 3
      else if -8388608 <= v <= 8388607 then 4
      else if -2147483648 <= v <= 2147483647 then 5
      else 9
    case Str(s) =>
      if |s| < 64 then 1 + |s| else if |s| < 4096 then 2 + |s| else 5 + |s|
  }

  /** Encoding byte(s) and data of an entry. */
  function Encode(e: Entry): (r: Bytes)
    requires Encodable(e)
    ensures |r| == PayloadEnclen(e)
  {
    match e
    case Int(v) =>
      Powers();
      if 0 <= v <= 127 then [v]
      else if -4096 <= v <= 4095 then
        var u := if v < 0 then v + 8192 else v;
        [ENC_13BIT_INT + u / 256, u % 256]
      else if -32768 <= v <= 32767 then [ENC_16BIT_INT] + ToSigned(v, 2)
      else if -8388608 <= v <= 8388607 then [ENC_24BIT_INT] + ToSigned(v, 3)
      else if -2147483648 <= v <= 2147483647 then [ENC_32BIT_INT] + ToSigned(v, 4)
      else [ENC_64BIT_INT] + ToSigned(v, 8)
    case Str(s) =>
      if |s| < 64 then [ENC_6BIT_STR + |s|] + s
      else if |s| < 4096 then [ENC_12BIT_STR + |s| / 256, |s| % 256] + s
      else [ENC_32BIT_STR] + ToLe(|s|, 4) + s
  }

  /** The bytes `from .. from + n`, if they are there. */
  function Cut(buf: Bytes, from: nat, n: nat): Option<Bytes> {
    if from + n <= |buf| then Some(buf[from..from + n]) else None
  }

  /** Length of encoding and data at `off`. */
  function EnclenAt(buf: Bytes, off: nat): (r: Option<nat>)
    ensures r.Some? ==> r.value > 0
  {
    if off >= |buf| then None
    else
      var b0: int := buf[off];
      if b0 < 0x80 then Some(1)
      else if b0 < 0xC0 then Some(1 + (b0 - 0x80))
      else if b0 < 0xE0 then Some(2)
      else if b0 < 0xF0 then if off + 1 < |buf| then (var b1: int := buf[off + 1]; Some(2 + 256 * (b0 - 0xE0) + b1)) else None
      else if b0 == ENC_16BIT_INT then Some(3)
      else if b0 == ENC_24BIT_INT then Some(4)
      else if b0 == ENC_32BIT_INT then Some(5)
      else if b0 == ENC_64BIT_INT then Some(9)
      else if b0 == ENC_32BIT_STR then
        (match Cut(buf, off + 1, 4) case None => None case Some(h) => Some(5 + FromLe(h)))
      else None
  }

  function SignedAt(buf: Bytes, off: nat, n: nat): Option<Entry>
    requires n > 0
  {
    match Cut(buf, off + 1, n) case None => None case Some(h) => Some(Int(FromSigned(h)))
  }

  function StringAt(buf: Bytes, off: nat, n: nat): Option<Entry> {
    match Cut(buf, off, n) case None => None case Some(s) => Some(Str(s))
  }

  /** The entry at `off` and the length of its encoding and data. */
  function DecodeAt(buf: Bytes, off: nat): Option<(Entry, nat)> {
    match EnclenAt(buf, off)
    case None => None
    case Some(n) =>
      var b0: int := buf[off];
      var e :=
        if b0 < 0x80 then Some(Int(b0))
        else if b0 < 0xC0 then StringAt(buf, off + 1, b0 - 0x80)
        else if b0 < 0xE0 then
          if off + 1 < |buf| then
            var b1: int := buf[off + 1];
            var u := 256 * (b0 - 0xC0) + b1;
            Some(Int(if u >= 4096 then u - 8192 else u))
          else None
        else if b0 < 0xF0 then StringAt(buf, off + 2, n - 2)
        else if b0 == ENC_32BIT_STR then StringAt(buf, off + 5, n - 5)
        else SignedAt(buf, off, n - 1);
      if e == None then None else Some((e.value, n))
  }

  /** (Round trip) What was encoded decodes to the same entry, wherever it stands. */
  lemma DecodeEncode(e: Entry, rest: Bytes)
    requires Encodable(e)
    ensures DecodeAt(Encode(e) + rest, 0) == Some((e, PayloadEnclen(e)))
  {
    var buf := Encode(e) + rest;
    Powers();
    match e {
      case Int(v) => DecodeEncodeInt(v, rest);
      case Str(s) =>
        if |s| < 64 {
          assert buf[1..1 + |s|] == s;
        } else if |s| < 4096 {
          assert buf[2..2 + |s|] == s;
        } else {
          FromToLe(|s|, 4);
          assert buf[1..5] == ToLe(|s|, 4);
          assert buf[5..5 + |s|] == s;
        }
    }
  }

  /** (Shortest) No byte string shorter than what is written decodes to the same
      entry. */
  lemma EncodeShortest(buf: Bytes, off: nat)
    requires DecodeAt(buf, off).Some?
    ensures PayloadEnclen(DecodeAt(buf, off).value.0) <= DecodeAt(buf, off).value.1
  {
    Powers();
    var b0: int := buf[off];
    if b0 == ENC_16BIT_INT || b0 == ENC_24BIT_INT || b0 == ENC_32BIT_INT || b0 == ENC_64BIT_INT {
      ToFromSigned(buf[off + 1..off + EnclenAt(buf, off).value]);
    }
  }

  lemma DecodeEncodeInt(v: int, rest: Bytes)
    requires IsI64(v)
    ensures DecodeAt(Encode(Int(v)) + rest, 0) == Some((Int(v), PayloadEnclen(Int(v))))
  {
    hide FromSigned, ToSigned;
    var buf := Encode(Int(v)) + rest;
    Powers();
    if 0 <= v <= 127 || -4096 <= v <= 4095 {
    } else if -32768 <= v <= 32767 {
      FromToSigned(v, 2);
      assert buf[1..3] == ToSigned(v, 2);
    } else if -8388608 <= v <= 8388607 {
      FromToSigned(v, 3);
      assert buf[1..4] == ToSigned(v, 3);
    } else if -2147483648 <= v <= 2147483647 {
      FromToSigned(v, 4);
      assert buf[1..5] == ToSigned(v, 4);
    } else {
      FromToSigned(v, 8);
      assert buf[1..9] == ToSigned(v, 8);
    }
  }

  // ----------------------------------------------------------------- backlen

  /** Bytes of a backlen; the bounds are off by one as in Redis. */
  function BacklenSize(l: nat): (n: nat)
    ensures 1 <= n <= 5
  {
    if l <= 127 then 1
    else if l < 16383 then 2
    else if l < 2097151 then 3
    else if l < 268435455 then 4
    else 5
  }

  function Pow128(n: nat): (p: nat)
    ensures p > 0
  {
    if n == 0 then 1 else 128 * Pow128(n - 1)
  }

  /** Big-endian groups of seven bits, all but the first marked. */
  function Groups(l: nat, n: nat): (s: Bytes)
    requires n > 0
    ensures |s| == n
  {
    if n == 1 then [l % 128] else Groups(l / 128, n - 1) + [128 + l % 128]
  }

  function Backlen(l: nat): Bytes {
    Groups(l, BacklenSize(l))
  }

  /** A backlen takes the fewest groups that hold the length, but for the greatest
      length of two, three or four groups, which takes one more. */
  lemma BacklenTight(l: nat)
    ensures var n := BacklenSize(l);
      && 1 <= n <= 5 && (n > 1 ==> l >= Pow128(n - 1) - if n > 2 then 1 else 0)
      && (n < 5 ==> l < Pow128(n) - if n > 1 then 1 else 0)
  {
    assert Pow128(1) == 128 && Pow128(2) == 16384 && Pow128(3) == 2097152;
    assert Pow128(4) == 268435456;
  }

  lemma BacklenFits(l: nat)
    requires l < Pow128(5)
    ensures l < Pow128(BacklenSize(l))
  {
    assert Pow128(2) == 16384 && Pow128(3) == 2097152;
    assert Pow128(4) == 268435456;
  }

  /** Reading groups backwards from `last`, at most `fuel` of them. */
  function ReadBack(buf: Bytes, last: int, fuel: nat): (r: Option<(nat, nat)>)
    ensures r.Some? ==> 0 < r.value.1 <= fuel && r.value.1 <= last + 1
  {
    if fuel == 0 || last < 0 || last >= |buf| then None
    else if buf[last] < 128 then Some((buf[last], 1))
    else
      match ReadBack(buf, last - 1, fuel - 1)
      case None => None
      case Some((v, n)) => Some((128 * v + (buf[last] - 128), n + 1))
  }

  /** (Round trip) The backward walk reads back the length that was written. */
  lemma {:induction false} ReadGroups(pre: Bytes, l: nat, n: nat, rest: Bytes, fuel: nat)
    requires 0 < n <= fuel && l < Pow128(n)
    ensures ReadBack(pre + Groups(l, n) + rest, |pre| + n - 1, fuel) == Some((l, n))
  {
    var buf := pre + Groups(l, n) + rest;
    if n > 1 {
      var last: Byte := 128 + l % 128;
      ReadGroups(pre, l / 128, n - 1, [last] + rest, fuel - 1);
      assert buf == pre + Groups(l / 128, n - 1) + ([last] + rest);
      assert buf[|pre| + n - 1] == last;
    }
  }

  method WriteBacklen(l: nat) returns (dst: Bytes)
    requires l < Pow128(5)
    ensures dst == Backlen(l)
  {
    var n := BacklenSize(l);
    BacklenFits(l);
    dst := [];
    for i := 0 to n
      invariant |dst| == i
      invariant i > 0 ==> dst == Groups(l / Pow128(n - i), i)
    {
      var b: nat := (l / Pow128(n - 1 - i)) % 128;
      NextGroup(l, n - 1 - i);
      dst := dst + [if i != 0 then b + 128 else b];
    }
    assert Pow128(0) == 1;
  }

  lemma NextGroup(l: nat, k: nat)
    ensures (l / Pow128(k)) / 128 == l / Pow128(k + 1)
  {
    DivDiv(l, Pow128(k));
  }

  lemma DivDiv(l: nat, d: nat)
    requires d > 0
    ensures (l / d) / 128 == l / (128 * d)
  {
    var q: nat, r: nat := l / d, l % d;
    var a: nat, b: nat := q / 128, q % 128;
    assert l == q * d + r && q == 128 * a + b;
    Remainder(b, r, d);
    Regroup(a, b, r, d);
    QuotientOf(l, a, b * d + r, 128 * d);
  }

  lemma QuotientOf(l: nat, a: nat, rest: nat, d: nat)
    requires l == a * d + rest && rest < d
    ensures l / d == a
  {
    Arithmetic.Division(a, rest, d);
  }

  lemma Remainder(b: nat, r: nat, d: nat)
    requires b < 128 && r < d
    ensures 0 <= b * d + r < 128 * d
  {
    Arithmetic.AtLeast(128 - b, d);
    Arithmetic.Distribute(128, b, d);
  }

  lemma Regroup(a: nat, b: nat, r: nat, d: nat)
    ensures (128 * a + b) * d + r == a * (128 * d) + (b * d + r)
  {
  }

  method DecodeBacklen(buf: Bytes, last: nat) returns (r: Option<(nat, nat)>)
    requires last < |buf|
    ensures r == ReadBack(buf, last, 5)
  {
    var val: nat, scale: nat, p: int, n: nat := 0, 1, last, 0;
    while true
      invariant 0 <= n < 5 && p == last - n >= 0 && scale == Pow128(n) && val >= 0
      invariant ReadBack(buf, last, 5) == Grown(ReadBack(buf, p, 5 - n), val, scale, n)
      decreases 5 - n
    {
      var b := buf[p];
      GrowStep(ReadBack(buf, p - 1, 4 - n), val, scale, n, b);
      val := val + (b % 128) * scale;
      n := n + 1;
      if b < 128 {
        return Some((val, n));
      }
      scale := scale * 128;
      if n == 5 || p == 0 {
        return None;
      }
      p := p - 1;
    }
  }

  ghost function Grown(rest: Option<(nat, nat)>, val: nat, scale: nat, n: nat): Option<(nat, nat)> {
    match rest
    case None => None
    case Some((v, k)) => Some((v * scale + val, k + n))
  }

  lemma GrowStep(rest: Option<(nat, nat)>, val: nat, scale: nat, n: nat, b: Byte)
    ensures b >= 128 && rest.Some? ==>
      Grown(Some((128 * rest.value.0 + (b - 128), rest.value.1 + 1)), val, scale, n)
      == Grown(rest, val + (b % 128) * scale, scale * 128, n + 1)
  {
    if b >= 128 && rest.Some? {
      var v := rest.value.0;
      assert (128 * v + (b - 128)) * scale == v * (scale * 128) + (b - 128) * scale;
    }
  }
}
