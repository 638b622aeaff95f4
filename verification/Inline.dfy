/** Inline commands: a line of words, some of them quoted. */
module Inline {
  import opened ByteStrings

  const DQUOTE: Byte := 34
  const SQUOTE: Byte := 39
  const ESCAPE: Byte := 92
  const SPACE: Byte := 32

  predicate IsSpace(c: Byte) {
    c == 9 || c == 10 || c == 12 || c == 13 || c == SPACE
  }

  function SkipSpaces(line: Bytes, i: nat): (j: nat)
    requires i <= |line|
    ensures i <= j <= |line|
    ensures j < |line| ==> !IsSpace(line[j])
    decreases |line| - i
  {
    if i < |line| && IsSpace(line[i]) then SkipSpaces(line, i + 1) else i
  }

  function WordEnd(line: Bytes, i: nat): (j: nat)
    requires i <= |line|
    ensures i <= j <= |line|
    ensures i < |line| && !IsSpace(line[i]) ==> i < j
    decreases |line| - i
  {
    if i < |line| && !IsSpace(line[i]) then WordEnd(line, i + 1) else i
  }

  function HexVal(c: Byte): (v: Option<nat>)
    ensures v.Some? ==> v.value < 16
  {
    if 48 <= c <= 57 then Some(c - 48)
    else if 97 <= c <= 102 then Some(c - 97 + 10)
    else if 65 <= c <= 70 then Some(c - 65 + 10)
    else None
  }

  function Unescape(c: Byte): Byte {
    if c == 110 then 10
    else if c == 114 then 13
    else if c == 116 then 9
    else if c == 98 then 8
    else if c == 97 then 7
    else c
  }

  /** The byte an escape at `i` stands for and the position after it. */
  function EscapeAt(line: Bytes, i: nat): (r: (Byte, nat))
    requires i + 1 < |line|
    ensures i < r.1 <= |line|
  {
    if line[i + 1] == 120 && i + 3 < |line| && HexVal(line[i + 2]).Some? && HexVal(line[i + 3]).Some?
    then (16 * HexVal(line[i + 2]).value + HexVal(line[i + 3]).value, i + 4)
    else (Unescape(line[i + 1]), i + 2)
  }

  predicate WordBreak(line: Bytes, i: nat) {
    i < |line| ==> IsSpace(line[i])
  }

  /** The rest of a double-quoted word and the position after its quote. */
  function DoubleQuoted(line: Bytes, i: nat): (r: Option<(Bytes, nat)>)
    requires i <= |line|
    ensures r.Some? ==> i < r.value.1 <= |line|
    decreases |line| - i
  {
    if i == |line| then None
    else if line[i] == ESCAPE then
      if i + 1 == |line| then None
      else
        var (b, next) := EscapeAt(line, i);
        Prepend(b, DoubleQuoted(line, next))
    else if line[i] == DQUOTE then if WordBreak(line, i + 1) then Some(([], i + 1)) else None
    else Prepend(line[i], DoubleQuoted(line, i + 1))
  }

  function Prepend(b: Byte, rest: Option<(Bytes, nat)>): (r: Option<(Bytes, nat)>)
    ensures r.Some? <==> rest.Some?
    ensures r.Some? ==> r.value.1 == rest.value.1
  {
    if rest == None then None else Some(([b] + rest.value.0, rest.value.1))
  }

  /** The rest of a single-quoted word and the position after its quote. */
  function SingleQuoted(line: Bytes, i: nat): (r: Option<(Bytes, nat)>)
    requires i <= |line|
    ensures r.Some? ==> i < r.value.1 <= |line|
    decreases |line| - i
  {
    if i == |line| then None
    else if line[i] == ESCAPE && i + 1 < |line| && line[i + 1] == SQUOTE then Prepend(SQUOTE, SingleQuoted(line, i + 2))
    else if line[i] == SQUOTE then if WordBreak(line, i + 1) then Some(([], i + 1)) else None
    else Prepend(line[i], SingleQuoted(line, i + 1))
  }

  /** The words from `i` on. */
  function SplitFrom(line: Bytes, i: nat): Option<seq<Bytes>>
    requires i <= |line|
    decreases |line| - i
  {
    var j := SkipSpaces(line, i);
    if j == |line| then Some([])
    else
      var word :=
        if line[j] == DQUOTE then DoubleQuoted(line, j + 1)
        else if line[j] == SQUOTE then SingleQuoted(line, j + 1)
        else Some((line[j..WordEnd(line, j)], WordEnd(line, j)));
      if word == None then None
      else
        var rest := SplitFrom(line, word.value.1);
        if rest == None then None else Some([word.value.0] + rest.value)
  }

  // --------------------------------------------------------------- the code

  method ReadDoubleQuoted(line: Bytes, from: nat) returns (r: Option<(Bytes, nat)>)
    requires from <= |line|
    ensures r == DoubleQuoted(line, from)
  {
    var i, buf: Bytes := from, [];
    AfterNothing(DoubleQuoted(line, from));
    while true
      invariant from <= i <= |line|
      invariant DoubleQuoted(line, from) == After(buf, DoubleQuoted(line, i))
      decreases |line| - i
    {
      if i == |line| {
        return None;
      }
      var c := line[i];
      if c == ESCAPE {
        if i + 1 == |line| {
          return None;
        }
        var (b, next) := EscapeAt(line, i);
        AfterPrepend(buf, b, DoubleQuoted(line, next));
        buf, i := buf + [b], next;
      } else if c == DQUOTE {
        i := i + 1;
        if i < |line| && !IsSpace(line[i]) {
          return None;
        }
        assert buf + [] == buf;
        return Some((buf, i));
      } else {
        AfterPrepend(buf, c, DoubleQuoted(line, i + 1));
        buf, i := buf + [c], i + 1;
      }
    }
  }

  ghost function After(buf: Bytes, rest: Option<(Bytes, nat)>): Option<(Bytes, nat)> {
    if rest == None then None else Some((buf + rest.value.0, rest.value.1))
  }

  lemma AfterNothing(rest: Option<(Bytes, nat)>)
    ensures After([], rest) == rest
  {
    if rest.Some? {
      assert [] + rest.value.0 == rest.value.0;
    }
  }

  lemma AfterPrepend(buf: Bytes, b: Byte, rest: Option<(Bytes, nat)>)
    ensures After(buf, Prepend(b, rest)) == After(buf + [b], rest)
  {
    if rest.Some? {
      assert buf + ([b] + rest.value.0) == (buf + [b]) + rest.value.0;
    }
  }

  method ReadSingleQuoted(line: Bytes, from: nat) returns (r: Option<(Bytes, nat)>)
    requires from <= |line|
    ensures r == SingleQuoted(line, from)
  {
    var i, buf: Bytes := from, [];
    AfterNothing(SingleQuoted(line, from));
    while true
      invariant from <= i <= |line|
      invariant SingleQuoted(line, from) == After(buf, SingleQuoted(line, i))
      decreases |line| - i
    {
      if i == |line| {
        return None;
      }
      var c := line[i];
      if c == ESCAPE && i + 1 < |line| && line[i + 1] == SQUOTE {
        AfterPrepend(buf, SQUOTE, SingleQuoted(line, i + 2));
        buf, i := buf + [SQUOTE], i + 2;
      } else if c == SQUOTE {
        i := i + 1;
        if i < |line| && !IsSpace(line[i]) {
          return None;
        }
        assert buf + [] == buf;
        return Some((buf, i));
      } else {
        AfterPrepend(buf, c, SingleQuoted(line, i + 1));
        buf, i := buf + [c], i + 1;
      }
    }
  }

  method SplitInline(line: Bytes) returns (r: Option<seq<Bytes>>)
    ensures r == SplitFrom(line, 0)
  {
    var out: seq<Bytes>, i: nat := [], 0;
    JoinedNothing(SplitFrom(line, 0));
    while i < |line|
      invariant i <= |line|
      invariant SplitFrom(line, 0) == Joined(out, SplitFrom(line, i))
      decreases |line| - i
    {
      ghost var from := i;
      while i < |line| && IsSpace(line[i])
        invariant i <= |line| && SkipSpaces(line, from) == SkipSpaces(line, i)
      {
        i := i + 1;
      }
      if i >= |line| {
        assert out + [] == out;
        return Some(out);
      }
      var word;
      if line[i] == DQUOTE {
        word := ReadDoubleQuoted(line, i + 1);
      } else if line[i] == SQUOTE {
        word := ReadSingleQuoted(line, i + 1);
      } else {
        var start := i;
        while i < |line| && !IsSpace(line[i])
          invariant start <= i <= |line| && WordEnd(line, start) == WordEnd(line, i)
        {
          i := i + 1;
        }
        word := Some((line[start..i], i));
      }
      if word == None {
        return None;
      }
      JoinedWord(out, word.value.0, SplitFrom(line, word.value.1));
      out, i := out + [word.value.0], word.value.1;
    }
    assert out + [] == out;
    return Some(out);
  }

  ghost function Joined(out: seq<Bytes>, rest: Option<seq<Bytes>>): Option<seq<Bytes>> {
    if rest == None then None else Some(out + rest.value)
  }

  lemma JoinedNothing(rest: Option<seq<Bytes>>)
    ensures Joined([], rest) == rest
  {
    if rest.Some? {
      assert [] + rest.value == rest.value;
    }
  }

  lemma JoinedWord(out: seq<Bytes>, word: Bytes, rest: Option<seq<Bytes>>)
    ensures Joined(out, if rest == None then None else Some([word] + rest.value)) == Joined(out + [word], rest)
  {
    if rest.Some? {
      assert out + ([word] + rest.value) == (out + [word]) + rest.value;
    }
  }

  // ------------------------------------------------------------- round trip

  /** One byte inside double quotes: as it is, in hexadecimal, or as a letter after
      a backslash. */
  datatype Unit = Verbatim(b: Byte) | Hex(b: Byte, upper: bool) | Letter(c: Byte)

  /** A word as it can be spelled. */
  datatype Spelling = Bare(w: Bytes) | Single(w: Bytes) | Double(units: seq<Unit>)

  /** A word and the white space after it. */
  datatype Word = Word(spelling: Spelling, gap: Bytes)

  function HexDigit(v: nat, upper: bool): (c: Byte)
    requires v < 16
  {
    if v < 10 then 48 + v else (if upper then 65 else 97) + (v - 10)
  }

  ghost predicate IsHex(c: Byte) {
    exists v: nat, upper: bool :: v < 16 && HexDigit(v, upper) == c
  }

  /** `\x` takes two hexadecimal digits; without them it is the letter. */
  lemma HexOrLetter(line: Bytes, i: nat)
    requires i + 1 < |line| && line[i + 1] == 120
    ensures EscapeAt(line, i) == if i + 3 < |line| && IsHex(line[i + 2]) && IsHex(line[i + 3])
      then (16 * HexVal(line[i + 2]).value + HexVal(line[i + 3]).value, i + 4) else (120, i + 2)
  {
    forall c: Byte
      ensures HexVal(c).Some? <==> IsHex(c)
    {
      if HexVal(c).Some? {
        assert HexDigit(HexVal(c).value, c < 97) == c;
      }
    }
  }

  predicate UnitOk(u: Unit) {
    match u
    case Verbatim(b) => b != 34 && b != 92
    case Hex(_, _) => true
    case Letter(c) => c != 120
  }

  function UnitBytes(u: Unit): Bytes {
    match u
    case Verbatim(b) => [b]
    case Hex(b, upper) => [92, 120, HexDigit(b / 16, upper), HexDigit(b % 16, upper)]
    case Letter(c) => [92, c]
  }

  /** `\n`, `\r`, `\t`, `\b` and `\a` are control characters; any other letter is itself. */
  function UnitMeans(u: Unit): Byte {
    match u
    case Verbatim(b) => b
    case Hex(b, _) => b
    case Letter(c) => var letters := map[110 := 10, 114 := 13, 116 := 9, 98 := 8, 97 := 7]; if c in letters then letters[c] else c
  }

  function UnitsBytes(units: seq<Unit>): Bytes {
    if |units| == 0 then [] else UnitBytes(units[0]) + UnitsBytes(units[1..])
  }

  function UnitsMean(units: seq<Unit>): Bytes {
    if |units| == 0 then [] else [UnitMeans(units[0])] + UnitsMean(units[1..])
  }

  /** Inside single quotes only the quote itself is escaped. */
  function SingleBytes(w: Bytes): Bytes {
    if |w| == 0 then [] else (if w[0] == 39 then [92, 39] else [w[0]]) + SingleBytes(w[1..])
  }

  predicate White(b: Byte) {
    b in [9, 10, 12, 13, 32]
  }

  predicate SpellingOk(s: Spelling) {
    match s
    case Bare(w) => |w| > 0 && w[0] != 34 && w[0] != 39 && forall i :: 0 <= i < |w| ==> !White(w[i])
    case Single(w) => |w| > 0 ==> w[|w| - 1] != 92
    case Double(units) => forall i :: 0 <= i < |units| ==> UnitOk(units[i])
  }

  function SpellingBytes(s: Spelling): Bytes {
    match s
    case Bare(w) => w
    case Single(w) => [39] + SingleBytes(w) + [39]
    case Double(units) => [34] + UnitsBytes(units) + [34]
  }

  function Means(s: Spelling): Bytes {
    match s
    case Bare(w) => w
    case Single(w) => w
    case Double(units) => UnitsMean(units)
  }

  /** White space follows every word but perhaps the last. */
  predicate WordsOk(words: seq<Word>) {
    && (forall i :: 0 <= i < |words| ==> SpellingOk(words[i].spelling))
    && (forall i, j :: 0 <= i < |words| && 0 <= j < |words[i].gap| ==> White(words[i].gap[j]))
    && (forall i :: 0 <= i < |words| - 1 ==> words[i].gap != [])
  }

  function Line(words: seq<Word>): Bytes {
    if |words| == 0 then [] else SpellingBytes(words[0].spelling) + words[0].gap + Line(words[1..])
  }

  function Meanings(words: seq<Word>): seq<Bytes> {
    if |words| == 0 then [] else [Means(words[0].spelling)] + Meanings(words[1..])
  }

  lemma ReadsUnit(line: Bytes, i: nat, u: Unit)
    requires UnitOk(u) && i + |UnitBytes(u)| < |line| && line[i..i + |UnitBytes(u)|] == UnitBytes(u)
    ensures DoubleQuoted(line, i) == Prepend(UnitMeans(u), DoubleQuoted(line, i + |UnitBytes(u)|))
  {
    hide DoubleQuoted, Unescape;
    var e := line[i..i + |UnitBytes(u)|];
    assert line[i] == e[0];
    if !u.Verbatim? {
      assert line[i + 1] == e[1];
      if u.Hex? {
        assert line[i + 2] == e[2] && line[i + 3] == e[3];
      } else {
        UnescapeMeans(u.c);
      }
    }
    DoubleStep(line, i);
  }

  lemma UnescapeMeans(c: Byte)
    ensures Unescape(c) == UnitMeans(Letter(c))
  {
  }

  lemma DoubleStep(line: Bytes, i: nat)
    requires i + 1 < |line|
    ensures line[i] == ESCAPE ==> DoubleQuoted(line, i) == Prepend(EscapeAt(line, i).0, DoubleQuoted(line, EscapeAt(line, i).1))
    ensures line[i] != ESCAPE && line[i] != DQUOTE ==> DoubleQuoted(line, i) == Prepend(line[i], DoubleQuoted(line, i + 1))
  {
  }

  /** A double-quoted word reads as its units mean. */
  lemma {:induction false} ReadsUnits(pre: Bytes, units: seq<Unit>, post: Bytes)
    requires (forall i :: 0 <= i < |units| ==> UnitOk(units[i])) && (|post| > 0 ==> White(post[0]))
    ensures DoubleQuoted(pre + (UnitsBytes(units) + [DQUOTE] + post), |pre|) == Some((UnitsMean(units), |pre| + |UnitsBytes(units)| + 1))
    decreases |units|
  {
    hide UnitBytes, UnitMeans, EscapeAt;
    var line := pre + (UnitsBytes(units) + [DQUOTE] + post);
    if |units| == 0 {
      assert line[|pre|] == DQUOTE;
      assert |post| > 0 ==> line[|pre| + 1] == post[0];
    } else {
      hide DoubleQuoted;
      var e := UnitBytes(units[0]);
      ReadsUnits(pre + e, units[1..], post);
      assert line == (pre + e) + (UnitsBytes(units[1..]) + [DQUOTE] + post);
      assert line[|pre|..|pre| + |e|] == e;
      ReadsUnit(line, |pre|, units[0]);
    }
  }

  lemma SingleStep(line: Bytes, i: nat)
    requires i + 1 < |line|
    ensures line[i] == ESCAPE && line[i + 1] == SQUOTE ==> SingleQuoted(line, i) == Prepend(SQUOTE, SingleQuoted(line, i + 2))
    ensures line[i] != SQUOTE && !(line[i] == ESCAPE && line[i + 1] == SQUOTE) ==>
      SingleQuoted(line, i) == Prepend(line[i], SingleQuoted(line, i + 1))
  {
  }

  lemma Front(pre: Bytes, e: Bytes, a: Bytes, b: Bytes)
    requires |e| > 0 && |b| > 0
    ensures var line := pre + ((e + a) + b);
      && line == (pre + e) + (a + b) && line[|pre|] == e[0]
      && line[|pre| + 1] == if |e| > 1 then e[1] else if |a| > 0 then a[0] else b[0]
  {
  }

  lemma SingleHead(w: Bytes)
    ensures |w| > 0 ==> |SingleBytes(w)| > 0 && SingleBytes(w)[0] == if w[0] == 39 then 92 else w[0]
  {
  }

  /** So does a single-quoted one. */
  lemma {:induction false} ReadsSingle(pre: Bytes, w: Bytes, post: Bytes)
    requires (|w| > 0 ==> w[|w| - 1] != 92) && (|post| > 0 ==> White(post[0]))
    ensures SingleQuoted(pre + (SingleBytes(w) + ([SQUOTE] + post)), |pre|) == Some((w, |pre| + |SingleBytes(w)| + 1))
    decreases |w|
  {
    var line := pre + (SingleBytes(w) + ([SQUOTE] + post));
    if |w| == 0 {
      assert line[|pre|] == SQUOTE;
      assert |post| > 0 ==> line[|pre| + 1] == post[0];
    } else {
      hide SingleQuoted;
      var e: Bytes := if w[0] == 39 then [92, 39] else [w[0]];
      ReadsSingle(pre + e, w[1..], post);
      Front(pre, e, SingleBytes(w[1..]), [SQUOTE] + post);
      if w[0] == 92 {
        SingleHead(w[1..]);
      }
      SingleStep(line, |pre|);
      assert [w[0]] + w[1..] == w;
    }
  }

  /** A bare word ends at the first white space. */
  lemma {:induction false} ReadsBare(pre: Bytes, w: Bytes, post: Bytes)
    requires (forall i :: 0 <= i < |w| ==> !White(w[i])) && (|post| > 0 ==> White(post[0]))
    ensures WordEnd(pre + (w + post), |pre|) == |pre| + |w|
    decreases |w|
  {
    var line := pre + (w + post);
    if |w| == 0 {
      assert |post| > 0 ==> line[|pre|] == post[0];
    } else {
      ReadsBare(pre + [w[0]], w[1..], post);
      assert line == (pre + [w[0]]) + (w[1..] + post);
      assert line[|pre|] == w[0];
    }
  }

  /** The spelling stands at `i` and reads as a word up to `next`. */
  ghost predicate WordAt(line: Bytes, i: nat, word: Bytes, next: nat) {
    && i < next <= |line| && !IsSpace(line[i])
    && if line[i] == DQUOTE then DoubleQuoted(line, i + 1) == Some((word, next))
       else if line[i] == SQUOTE then SingleQuoted(line, i + 1) == Some((word, next))
       else WordEnd(line, i) == next && line[i..next] == word
  }

  lemma BareWord(pre: Bytes, w: Bytes, post: Bytes)
    requires SpellingOk(Bare(w)) && (|post| > 0 ==> White(post[0]))
    ensures WordAt(pre + (w + post), |pre|, w, |pre| + |w|)
  {
    hide WordEnd, DoubleQuoted, SingleQuoted;
    var line := pre + (w + post);
    ReadsBare(pre, w, post);
    assert line[|pre|] == w[0] && line[|pre|..|pre| + |w|] == w;
  }

  lemma SingleWord(pre: Bytes, w: Bytes, post: Bytes)
    requires SpellingOk(Single(w)) && (|post| > 0 ==> White(post[0]))
    ensures WordAt(pre + ([39] + SingleBytes(w) + [39] + post), |pre|, w, |pre| + |SingleBytes(w)| + 2)
  {
    hide WordEnd, DoubleQuoted, SingleQuoted, SingleBytes;
    var line := pre + ([39] + SingleBytes(w) + [39] + post);
    ReadsSingle(pre + [39], w, post);
    assert line == (pre + [39]) + (SingleBytes(w) + ([SQUOTE] + post));
    assert line[|pre|] == 39;
  }

  lemma DoubleWord(pre: Bytes, units: seq<Unit>, post: Bytes)
    requires SpellingOk(Double(units)) && (|post| > 0 ==> White(post[0]))
    ensures WordAt(pre + ([34] + UnitsBytes(units) + [34] + post), |pre|, UnitsMean(units), |pre| + |UnitsBytes(units)| + 2)
  {
    hide WordEnd, DoubleQuoted, SingleQuoted, UnitsBytes, UnitsMean;
    var line := pre + ([34] + UnitsBytes(units) + [34] + post);
    ReadsUnits(pre + [34], units, post);
    assert line == (pre + [34]) + (UnitsBytes(units) + [DQUOTE] + post);
    assert line[|pre|] == 34;
  }

  /** The first word of a line. */
  lemma FirstWord(pre: Bytes, s: Spelling, post: Bytes, rest: seq<Bytes>)
    requires SpellingOk(s) && (|post| > 0 ==> White(post[0]))
    requires SplitFrom(pre + (SpellingBytes(s) + post), |pre| + |SpellingBytes(s)|) == Some(rest)
    ensures SplitFrom(pre + (SpellingBytes(s) + post), |pre|) == Some([Means(s)] + rest)
  {
    hide SplitFrom, WordAt, UnitsBytes, UnitsMean, SingleBytes, SpellingOk, White;
    match s {
      case Bare(w) => BareWord(pre, w, post);
      case Single(w) => SingleWord(pre, w, post);
      case Double(units) => DoubleWord(pre, units, post);
    }
    OneWord(pre + (SpellingBytes(s) + post), |pre|, Means(s), |pre| + |SpellingBytes(s)|, rest);
  }

  lemma OneWord(line: Bytes, i: nat, word: Bytes, next: nat, rest: seq<Bytes>)
    requires WordAt(line, i, word, next) && SplitFrom(line, next) == Some(rest)
    ensures SplitFrom(line, i) == Some([word] + rest)
  {
    hide DoubleQuoted, SingleQuoted, WordEnd;
    assert SkipSpaces(line, i) == i;
  }

  lemma {:induction false} SkipGap(line: Bytes, i: nat, n: nat)
    requires i + n <= |line| && forall j :: i <= j < i + n ==> White(line[j])
    ensures SplitFrom(line, i) == SplitFrom(line, i + n)
    decreases n
  {
    if n > 0 {
      hide SplitFrom;
      SkipGap(line, i + 1, n - 1);
      SkipOneSpace(line, i);
    }
  }

  lemma SkipOneSpace(line: Bytes, i: nat)
    requires i < |line| && White(line[i])
    ensures SplitFrom(line, i) == SplitFrom(line, i + 1)
  {
  }

  lemma NoWords(line: Bytes)
    ensures SplitFrom(line, |line|) == Some([])
  {
  }

  /** Any words, in any mix of spellings and with any white space between them,
      split into what they mean. */
  lemma {:induction false} SplitSpelled(pre: Bytes, words: seq<Word>)
    requires WordsOk(words)
    ensures SplitFrom(pre + Line(words), |pre|) == Some(Meanings(words))
    decreases |words|
  {
    hide SplitFrom, SpellingOk, SpellingBytes, Means, White;
    var line := pre + Line(words);
    if |words| == 0 {
      NoWords(line);
    } else {
      var w, rest := words[0], Line(words[1..]);
      var word := SpellingBytes(w.spelling);
      var head := pre + word + w.gap;
      SplitSpelled(head, words[1..]);
      assert line == head + rest;
      assert line == pre + (word + (w.gap + rest));
      forall j | |pre| + |word| <= j < |head|
        ensures White(line[j])
      {
        assert line[j] == w.gap[j - |pre| - |word|];
      }
      SkipGap(line, |pre| + |word|, |w.gap|);
      if w.gap == [] {
        assert words[1..] == [];
      } else {
        assert (w.gap + rest)[0] == w.gap[0];
      }
      FirstWord(pre, w.spelling, w.gap + rest, Meanings(words[1..]));
    }
  }

  /** Every byte in hexadecimal: a spelling that every argument has. */
  function Quoted(arg: Bytes): Spelling {
    Double(seq(|arg|, i requires 0 <= i < |arg| => Hex(arg[i], false)))
  }

  lemma {:induction false} QuotedMeans(arg: Bytes)
    ensures SpellingOk(Quoted(arg)) && Means(Quoted(arg)) == arg
    decreases |arg|
  {
    if |arg| > 0 {
      QuotedMeans(arg[1..]);
      assert Quoted(arg).units[1..] == Quoted(arg[1..]).units;
      assert [arg[0]] + arg[1..] == arg;
    }
  }

  function QuotedWords(args: seq<Bytes>): seq<Word> {
    if |args| == 0 then [] else [Word(Quoted(args[0]), [SPACE])] + QuotedWords(args[1..])
  }

  /** Any argument list survives being quoted into one line and split again. */
  lemma {:induction false} SplitQuoted(args: seq<Bytes>)
    ensures WordsOk(QuotedWords(args)) && Meanings(QuotedWords(args)) == args
    ensures SplitFrom(Line(QuotedWords(args)), 0) == Some(args)
    decreases |args|
  {
    hide SplitFrom, Quoted;
    if |args| > 0 {
      SplitQuoted(args[1..]);
      QuotedMeans(args[0]);
      assert [args[0]] + args[1..] == args;
    }
    SplitSpelled([], QuotedWords(args));
    assert [] + Line(QuotedWords(args)) == Line(QuotedWords(args));
  }
}
