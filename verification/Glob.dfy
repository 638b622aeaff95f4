/** The glob matcher behind KEYS and SCAN MATCH. */
module Glob {
  import opened ByteStrings

  const STAR: Byte := 42
  const QUESTION: Byte := 63
  const OPEN: Byte := 91
  const CLOSE: Byte := 93
  const CARET: Byte := 94
  const DASH: Byte := 45
  const BACKSLASH: Byte := 92

  // ------------------------------------------------- what a pattern means

  /** An inclusive range of bytes; a literal is a range of one. */
  datatype Item = Item(lo: Byte, hi: Byte)

  datatype Token =
    | Star
    | Any
    | Literal(b: Byte)
    | Class(negate: bool, items: seq<Item>)

  predicate InItems(items: seq<Item>, c: Byte) {
    exists i :: 0 <= i < |items| && items[i].lo <= c <= items[i].hi
  }

  predicate Accepts(t: Token, c: Byte)
    requires !t.Star?
  {
    match t
    case Any => true
    case Literal(b) => b == c
    case Class(negate, items) => InItems(items, c) != negate
  }

  /** The first item of a class body at `p`, if any, and the position after it. */
  function ItemAt(pattern: Bytes, p: nat): (r: (Option<Item>, nat))
    requires p < |pattern| && pattern[p] != CLOSE
    ensures p < r.1 <= |pattern|
  {
    if pattern[p] == BACKSLASH then
      if p + 1 < |pattern| then (Some(Item(pattern[p + 1], pattern[p + 1])), p + 2) else (None, p + 1)
    else if p + 2 < |pattern| && pattern[p + 1] == DASH && pattern[p + 2] != CLOSE then
      var a, b := pattern[p], pattern[p + 2];
      (Some(if a <= b then Item(a, b) else Item(b, a)), p + 3)
    else (Some(Item(pattern[p], pattern[p])), p + 1)
  }

  /** The items of a class body from `p` on, and the position after its end. */
  function ClassBody(pattern: Bytes, p: nat): (r: (seq<Item>, nat))
    requires p <= |pattern|
    ensures p <= r.1 <= |pattern|
    decreases |pattern| - p
  {
    if p == |pattern| then ([], p)
    else if pattern[p] == CLOSE then ([], p + 1)
    else
      var (item, next) := ItemAt(pattern, p);
      var (items, end) := ClassBody(pattern, next);
      (if item.Some? then [item.value] + items else items, end)
  }

  function Negated(pattern: Bytes, open: nat): bool {
    open + 1 < |pattern| && pattern[open + 1] == CARET
  }

  function BodyStart(pattern: Bytes, open: nat): nat {
    if Negated(pattern, open) then open + 2 else open + 1
  }

  /** The token at `p` and the position after it. */
  function TokenAt(pattern: Bytes, p: nat): (r: (Token, nat))
    requires p < |pattern|
    ensures p < r.1 <= |pattern|
  {
    var b := pattern[p];
    if b == STAR then (Star, p + 1)
    else if b == QUESTION then (Any, p + 1)
    else if b == OPEN then
      var (items, end) := ClassBody(pattern, BodyStart(pattern, p));
      (Class(Negated(pattern, p), items), end)
    else if b == BACKSLASH && p + 1 < |pattern| then (Literal(pattern[p + 1]), p + 2)
    else (Literal(b), p + 1)
  }

  function Tokens(pattern: Bytes, p: nat): seq<Token>
    requires p <= |pattern|
    decreases |pattern| - p
  {
    if p == |pattern| then []
    else
      var (t, next) := TokenAt(pattern, p);
      [t] + Tokens(pattern, next)
  }

  /** The tokens from `i` on match the string from `n` on: a star takes any
      substring, every other token exactly one byte. */
  ghost predicate Denotes(ts: seq<Token>, i: nat, s: Bytes, n: nat)
    requires i <= |ts| && n <= |s|
    decreases |ts| - i
  {
    if i == |ts| then n == |s|
    else if ts[i].Star? then (var j := i + 1; exists m :: n <= m <= |s| && Denotes(ts, j, s, m))
    else n < |s| && Accepts(ts[i], s[n]) && Denotes(ts, i + 1, s, n + 1)
  }

  /** Where the star at `i` stops. */
  lemma StarTakes(ts: seq<Token>, i: nat, s: Bytes, n: nat) returns (m: nat)
    requires i < |ts| && n <= |s| && ts[i].Star? && Denotes(ts, i, s, n)
    ensures n <= m <= |s| && Denotes(ts, i + 1, s, m)
  {
    var j := i + 1;
    m :| n <= m <= |s| && Denotes(ts, j, s, m);
  }

  ghost predicate GlobMatches(pattern: Bytes, s: Bytes) {
    Denotes(Tokens(pattern, 0), 0, s, 0)
  }

  /** The pattern from `p` on matches the string from `n` on. */
  ghost predicate MatchesFrom(pattern: Bytes, p: nat, s: Bytes, n: nat)
    requires p <= |pattern| && n <= |s|
  {
    Denotes(Tokens(pattern, p), 0, s, n)
  }

  /** ... from `n` on or later. */
  ghost predicate MatchesLater(pattern: Bytes, p: nat, s: Bytes, n: nat)
    requires p <= |pattern| && n <= |s|
  {
    exists m :: n <= m <= |s| && MatchesFrom(pattern, p, s, m)
  }

  lemma {:induction false} DenotesRest(t: Token, ts: seq<Token>, i: nat, s: Bytes, n: nat)
    requires i <= |ts| && n <= |s|
    ensures Denotes([t] + ts, i + 1, s, n) <==> Denotes(ts, i, s, n)
    decreases |ts| - i
  {
    if i < |ts| {
      var j, k := i + 1, i + 2;
      forall m | n <= m <= |s|
        ensures Denotes([t] + ts, k, s, m) <==> Denotes(ts, j, s, m)
      {
        DenotesRest(t, ts, j, s, m);
      }
    }
  }

  /** What each byte of a pattern asks for: a star any number of bytes, a question
      mark one, a backslash the byte behind it, any other byte but `[` itself. */
  lemma GlobLaw(pattern: Bytes, p: nat, s: Bytes, n: nat)
    requires p <= |pattern| && n <= |s|
    ensures p == |pattern| ==> (MatchesFrom(pattern, p, s, n) <==> n == |s|)
    ensures p < |pattern| && pattern[p] == 42 ==>
      (MatchesFrom(pattern, p, s, n) <==> MatchesLater(pattern, p + 1, s, n))
    ensures p < |pattern| && pattern[p] == 63 ==>
      (MatchesFrom(pattern, p, s, n) <==> n < |s| && MatchesFrom(pattern, p + 1, s, n + 1))
    ensures p + 1 < |pattern| && pattern[p] == 92 ==>
      (MatchesFrom(pattern, p, s, n) <==> n < |s| && s[n] == pattern[p + 1] && MatchesFrom(pattern, p + 2, s, n + 1))
    ensures p < |pattern| && pattern[p] !in [42, 63, 91, 92] ==>
      (MatchesFrom(pattern, p, s, n) <==> n < |s| && s[n] == pattern[p] && MatchesFrom(pattern, p + 1, s, n + 1))
  {
    if p < |pattern| {
      var (t, next) := TokenAt(pattern, p);
      TokenLaw(pattern, p, s, n, t, next);
    }
  }

  lemma TokenLaw(pattern: Bytes, p: nat, s: Bytes, n: nat, t: Token, next: nat)
    requires p < |pattern| && n <= |s| && TokenAt(pattern, p) == (t, next)
    ensures MatchesFrom(pattern, p, s, n) <==>
      if t.Star? then MatchesLater(pattern, next, s, n)
      else n < |s| && Accepts(t, s[n]) && MatchesFrom(pattern, next, s, n + 1)
  {
    hide TokenAt, Accepts;
    var ts := Tokens(pattern, next);
    assert Tokens(pattern, p) == [t] + ts;
    var all, j := [t] + ts, 0 + 1;
    assert all[0] == t;
    forall m | n <= m <= |s|
      ensures Denotes(all, j, s, m) <==> MatchesFrom(pattern, next, s, m)
    {
      DenotesRest(t, ts, 0, s, m);
    }
    if t.Star? {
      if Denotes(all, 0, s, n) {
        var m := StarTakes(all, 0, s, n);
        assert MatchesFrom(pattern, next, s, m);
      }
      if MatchesLater(pattern, next, s, n) {
        var m :| n <= m <= |s| && MatchesFrom(pattern, next, s, m);
        assert Denotes(all, j, s, m);
      }
    } else if n < |s| {
      assert Denotes(all, j, s, n + 1) <==> MatchesFrom(pattern, next, s, n + 1);
    }
  }

  /** A class with one range takes the bytes between its ends, whichever way round,
      or, behind a caret, the others. */
  lemma RangeLaw(a: Byte, b: Byte, c: Byte)
    requires a != 92 && a != 93 && a != 94 && b != 93
    ensures GlobMatches([91, a, 45, b, 93], [c]) <==> a <= c <= b || b <= c <= a
    ensures GlobMatches([91, 94, a, 45, b, 93], [c]) <==> !(a <= c <= b || b <= c <= a)
  {
    OneClass([91, a, 45, b, 93], 1, a, b, c);
    OneClass([91, 94, a, 45, b, 93], 2, a, b, c);
  }

  lemma OneClass(pattern: Bytes, p: nat, a: Byte, b: Byte, c: Byte)
    requires a != 92 && a != 93 && a != 94 && b != 93
    requires pattern == (if p == 1 then [91] else [91, 94]) + [a, 45, b, 93] && 1 <= p <= 2
    ensures GlobMatches(pattern, [c]) <==> ((a <= c <= b || b <= c <= a) <==> p == 1)
  {
    var item := Item(if a <= b then a else b, if a <= b then b else a);
    assert pattern[p] == a && pattern[p + 1] == 45 && pattern[p + 2] == b && pattern[p + 3] == 93;
    assert ClassBody(pattern, p + 3) == ([], |pattern|) && [item] + [] == [item];
    assert ItemAt(pattern, p) == (Some(item), p + 3);
    assert ClassBody(pattern, p) == ([item], |pattern|);
    assert TokenAt(pattern, 0) == (Class(p == 2, [item]), |pattern|);
    assert InItems([item], c) <==> item.lo <= c <= item.hi by {
      assert [item][0] == item;
    }
    TokenLaw(pattern, 0, [c], 0, Class(p == 2, [item]), |pattern|);
    GlobLaw(pattern, |pattern|, [c], 1);
  }

  /** No byte with a meaning of its own. */
  predicate PlainText(pattern: Bytes) {
    forall i :: 0 <= i < |pattern| ==> pattern[i] !in [42, 63, 91, 92]
  }

  lemma {:induction false} PlainFrom(text: Bytes, rest: Bytes, p: nat, s: Bytes, n: nat)
    requires PlainText(text) && p <= |text| && n <= |s|
    ensures MatchesFrom(text + rest, p, s, n) <==>
      n + |text| - p <= |s| && s[n..n + |text| - p] == text[p..] && MatchesFrom(text + rest, |text|, s, n + |text| - p)
    decreases |text| - p
  {
    hide MatchesFrom;
    if p < |text| {
      GlobLaw(text + rest, p, s, n);
      if n < |s| {
        PlainFrom(text, rest, p + 1, s, n + 1);
        var k := n + |text| - p;
        if k <= |s| {
          assert s[n..k] == [s[n]] + s[n + 1..k] && text[p..] == [text[p]] + text[p + 1..];
        }
      }
    }
  }

  /** Plain text matches itself alone, and with a star behind it everything it is a
      prefix of; a star alone matches everything. */
  lemma PlainLaw(text: Bytes, s: Bytes)
    requires PlainText(text)
    ensures GlobMatches(text, s) <==> s == text
    ensures GlobMatches(text + [42], s) <==> Prefix(text, s)
    ensures GlobMatches([42], s)
  {
    assert text + [] == text;
    PlainFrom(text, [], 0, s, 0);
    PlainFrom(text, [42], 0, s, 0);
    StarAtEnd(text + [42], s, |text|);
    StarAtEnd([42], s, 0);
    if |text| <= |s| {
      GlobLaw(text, |text|, s, |text|);
    }
  }

  lemma StarAtEnd(pattern: Bytes, s: Bytes, n: nat)
    requires |pattern| > 0 && pattern[|pattern| - 1] == 42
    ensures n <= |s| ==> MatchesFrom(pattern, |pattern| - 1, s, n)
  {
    if n <= |s| {
      GlobLaw(pattern, |pattern| - 1, s, n);
      GlobLaw(pattern, |pattern|, s, |s|);
      assert MatchesFrom(pattern, |pattern| - 1 + 1, s, |s|);
    }
  }

  // ---------------------------------------------- why one star is enough

  /** The tokens from `i` to `j` are no stars and accept the bytes from `n` on. */
  ghost predicate Run(ts: seq<Token>, i: nat, j: nat, s: Bytes, n: nat)
    requires i <= j <= |ts|
  {
    && n + (j - i) <= |s|
    && forall k :: i <= k < j ==> !ts[k].Star? && Accepts(ts[k], s[n + k - i])
  }

  lemma {:induction false} RunDenotes(ts: seq<Token>, i: nat, j: nat, s: Bytes, n: nat)
    requires i <= j <= |ts| && Run(ts, i, j, s, n)
    ensures Denotes(ts, i, s, n) <==> Denotes(ts, j, s, n + (j - i))
    decreases j - i
  {
    if i < j {
      RunDenotes(ts, i + 1, j, s, n + 1);
    }
  }

  /** Without stars every match consumes exactly one byte a token. */
  lemma {:induction false} NoStarShift(ts: seq<Token>, i: nat, j: nat, s: Bytes, n: nat)
    requires i <= j <= |ts| && n <= |s| && (forall k :: i <= k < j ==> !ts[k].Star?)
    requires Denotes(ts, i, s, n)
    ensures n + (j - i) <= |s| && Denotes(ts, j, s, n + (j - i))
    decreases j - i
  {
    if i < j {
      NoStarShift(ts, i + 1, j, s, n + 1);
    }
  }

  /** After a run that follows the last star, a new star makes the old one moot:
      what the old star could still reach, the new one reaches as well. */
  lemma LastStarSuffices(ts: seq<Token>, star: nat, i: nat, s: Bytes, n: nat)
    requires star < i < |ts| && ts[star].Star? && ts[i].Star? && n <= |s|
    requires Run(ts, star + 1, i, s, n)
    ensures Denotes(ts, star, s, n) <==> Denotes(ts, i, s, n + (i - star - 1))
  {
    var now := n + (i - star - 1);
    if Denotes(ts, i, s, now) {
      RunDenotes(ts, star + 1, i, s, n);
      assert Denotes(ts, star + 1, s, n);
    }
    if Denotes(ts, star, s, n) {
      var m := StarTakes(ts, star, s, n);
      NoStarShift(ts, star + 1, i, s, m);
      var later := m + (i - star - 1);
      var e := StarTakes(ts, i, s, later);
    }
  }

  /** When the current attempt fails, the last star has to take one byte more. */
  lemma StarRetry(ts: seq<Token>, star: nat, i: nat, s: Bytes, n: nat)
    requires star < i <= |ts| && ts[star].Star? && n <= |s|
    requires Run(ts, star + 1, i, s, n) && !Denotes(ts, i, s, n + (i - star - 1))
    ensures Denotes(ts, star, s, n) <==> n < |s| && Denotes(ts, star, s, n + 1)
  {
    RunDenotes(ts, star + 1, i, s, n);
    if Denotes(ts, star, s, n) {
      var m := StarTakes(ts, star, s, n);
      assert n < m;
    }
    if n < |s| && Denotes(ts, star, s, n + 1) {
      var m := StarTakes(ts, star, s, n + 1);
    }
  }

  // ----------------------------------------------------------- the matcher

  /** Match one class against `c`, starting at its bracket. */
  method MatchClass(pattern: Bytes, open: nat, c: Byte) returns (matched: bool, next: nat)
    requires open < |pattern| && pattern[open] == OPEN
    ensures var (t, end) := TokenAt(pattern, open); !t.Star? && matched == Accepts(t, c) && next == end
  {
    var p := open + 1;
    var negate := p < |pattern| && pattern[p] == CARET;
    if negate {
      p := p + 1;
    }
    ghost var (items, end) := ClassBody(pattern, p);
    var found := false;
    while true
      invariant p <= |pattern|
      invariant ClassBody(pattern, p).1 == end
      invariant InItems(items, c) <==> found || InItems(ClassBody(pattern, p).0, c)
      decreases |pattern| - p
    {
      if p == |pattern| {
        break;
      }
      if pattern[p] == CLOSE {
        p := p + 1;
        break;
      }
      ghost var (item, after) := ItemAt(pattern, p);
      ghost var rest := ClassBody(pattern, after).0;
      if item.Some? {
        ItemsCons(item.value, rest, c);
      }
      if pattern[p] == BACKSLASH {
        if p + 1 < |pattern| {
          if pattern[p + 1] == c {
            found := true;
          }
          p := p + 2;
        } else {
          p := p + 1;
        }
      } else {
        var isRange := p + 2 < |pattern| && pattern[p + 1] == DASH && pattern[p + 2] != CLOSE;
        if isRange {
          var first, last := pattern[p], pattern[p + 2];
          var lo, hi := if first <= last then first else last, if first <= last then last else first;
          if lo <= c <= hi {
            found := true;
          }
          p := p + 3;
        } else {
          if pattern[p] == c {
            found := true;
          }
          p := p + 1;
        }
      }
    }
    return found != negate, p;
  }

  lemma ItemsCons(item: Item, rest: seq<Item>, c: Byte)
    ensures InItems([item] + rest, c) <==> item.lo <= c <= item.hi || InItems(rest, c)
  {
    var all := [item] + rest;
    assert all[0] == item;
    assert forall i :: 0 <= i < |rest| ==> all[i + 1] == rest[i];
    if InItems(all, c) {
      var i :| 0 <= i < |all| && all[i].lo <= c <= all[i].hi;
      assert i == 0 || all[i] == rest[i - 1];
    }
  }

  /** At the end of the string the last star has nothing more to give. */
  lemma AtEnd(ts: seq<Token>, star: nat, i: nat, s: Bytes, n: nat)
    requires star < i <= |ts| && ts[star].Star? && n <= |s|
    requires Run(ts, star + 1, i, s, n) && n + (i - star - 1) == |s|
    ensures Denotes(ts, star, s, n) <==> Denotes(ts, i, s, |s|)
  {
    RunDenotes(ts, star + 1, i, s, n);
    if Denotes(ts, star, s, n) {
      var m := StarTakes(ts, star, s, n);
      NoStarShift(ts, star + 1, i, s, m);
    }
  }

  /** Try the single token at `p` on the byte `c`. */
  method TakeOne(pattern: Bytes, p: nat, c: Byte) returns (ok: bool, next: nat)
    requires p < |pattern| && pattern[p] != STAR
    ensures var (t, end) := TokenAt(pattern, p); !t.Star? && ok == Accepts(t, c) && (ok ==> next == end)
  {
    if pattern[p] == QUESTION {
      return true, p + 1;
    } else if pattern[p] == OPEN {
      ok, next := MatchClass(pattern, p, c);
    } else if pattern[p] == BACKSLASH {
      if p + 1 < |pattern| {
        return pattern[p + 1] == c, p + 2;
      }
      return c == BACKSLASH, p + 1;
    } else {
      return pattern[p] == c, p + 1;
    }
  }

  /** Where the matcher stands: at token `i` of `ts` and byte `n`, with the last
      star, if any, at token `star` having given up the bytes before `from`. */
  ghost predicate Standing(ts: seq<Token>, str: Bytes, i: nat, n: nat, star: Option<nat>, from: nat) {
    && i <= |ts| && from <= n <= |str|
    && if star == None then from == 0 && (Denotes(ts, 0, str, 0) <==> Denotes(ts, i, str, n))
       else
         && star.value < i && ts[star.value].Star? && n == from + (i - star.value - 1)
         && Run(ts, star.value + 1, i, str, from)
         && (Denotes(ts, 0, str, 0) <==> Denotes(ts, star.value, str, from))
  }

  lemma MeetStar(ts: seq<Token>, str: Bytes, i: nat, n: nat, star: Option<nat>, from: nat)
    requires Standing(ts, str, i, n, star, from) && i < |ts| && ts[i].Star?
    ensures Standing(ts, str, i + 1, n, Some(i), n)
  {
    hide Denotes;
    if star.Some? {
      LastStarSuffices(ts, star.value, i, str, from);
    }
  }

  lemma TakeToken(ts: seq<Token>, str: Bytes, i: nat, n: nat, star: Option<nat>, from: nat)
    requires Standing(ts, str, i, n, star, from) && i < |ts| && n < |str| && !ts[i].Star? && Accepts(ts[i], str[n])
    ensures Standing(ts, str, i + 1, n + 1, star, from)
  {
  }

  lemma Mismatch(ts: seq<Token>, str: Bytes, i: nat, n: nat, star: Option<nat>, from: nat)
    requires Standing(ts, str, i, n, star, from) && n < |str|
    requires i < |ts| ==> !ts[i].Star? && !Accepts(ts[i], str[n])
    ensures star == None ==> !Denotes(ts, 0, str, 0)
    ensures star.Some? ==> Standing(ts, str, star.value + 1, from + 1, star, from + 1)
  {
    assert !Denotes(ts, i, str, n);
    if star.Some? {
      StarRetry(ts, star.value, i, str, from);
    }
  }

  /** At the end of the string only stars may be left. */
  lemma StringOver(ts: seq<Token>, str: Bytes, i: nat, star: Option<nat>, from: nat)
    requires Standing(ts, str, i, |str|, star, from)
    ensures Denotes(ts, 0, str, 0) <==> Denotes(ts, i, str, |str|)
  {
    if star.Some? {
      AtEnd(ts, star.value, i, str, from);
    }
  }

  lemma OnlyStarsLeft(ts: seq<Token>, str: Bytes, i: nat)
    requires i < |ts|
    ensures Denotes(ts, i, str, |str|) <==> ts[i].Star? && Denotes(ts, i + 1, str, |str|)
  {
    if Denotes(ts, i, str, |str|) && ts[i].Star? {
      var m := StarTakes(ts, i, str, |str|);
    }
  }

  lemma NextToken(pattern: Bytes, p: nat, ts: seq<Token>, i: nat)
    requires p < |pattern| && i <= |ts| && ts[i..] == Tokens(pattern, p)
    ensures i < |ts| && ts[i] == TokenAt(pattern, p).0 && ts[i + 1..] == Tokens(pattern, TokenAt(pattern, p).1)
    ensures ts[i].Star? <==> pattern[p] == STAR
    ensures pattern[p] == STAR ==> TokenAt(pattern, p).1 == p + 1
  {
    var (t, next) := TokenAt(pattern, p);
    assert ts[i..] == [t] + Tokens(pattern, next);
    assert ts[i] == ts[i..][0] && ts[i + 1..] == ts[i..][1..];
  }

  /** Match iteratively, backtracking to the last star only. */
  method GlobMatch(pattern: Bytes, str: Bytes) returns (r: bool)
    ensures r <==> GlobMatches(pattern, str)
  {
    hide Denotes, Standing, Tokens, TokenAt, Accepts, Run;
    ghost var ts := Tokens(pattern, 0);
    var p: nat, s: nat := 0, 0;
    var starP: Option<nat> := None;
    var starS: nat := 0;
    ghost var i: nat, star: Option<nat> := 0, None;
    Beginning(ts, str);
    while s < |str|
      invariant p <= |pattern| && i <= |ts| && ts[i..] == Tokens(pattern, p)
      invariant starS <= s <= |str| && Standing(ts, str, i, s, star, starS)
      invariant star == None <==> starP == None
      invariant starP.Some? ==> starP.value < p && star.value < i
      invariant starP.Some? ==> Tokens(pattern, starP.value + 1) == ts[star.value + 1..]
      decreases |str| - starS, |pattern| - p
    {
      var advanced := false;
      if p < |pattern| {
        NextToken(pattern, p, ts, i);
        if pattern[p] == STAR {
          MeetStar(ts, str, i, s, star, starS);
          starP, starS := Some(p), s;
          star := Some(i);
          p := p + 1;
          i := i + 1;
          continue;
        }
        var next;
        advanced, next := TakeOne(pattern, p, str[s]);
        if advanced {
          TakeToken(ts, str, i, s, star, starS);
          p := next;
          s := s + 1;
          i := i + 1;
        }
      } else {
        TokensOver(pattern, ts, i);
      }
      if !advanced {
        Mismatch(ts, str, i, s, star, starS);
        if starP == None {
          return false;
        }
        starS := starS + 1;
        s := starS;
        p := starP.value + 1;
        i := star.value + 1;
      }
    }
    StringOver(ts, str, i, star, starS);
    while p < |pattern| && pattern[p] == STAR
      invariant p <= |pattern| && i <= |ts| && ts[i..] == Tokens(pattern, p)
      invariant GlobMatches(pattern, str) <==> Denotes(ts, i, str, |str|)
    {
      NextToken(pattern, p, ts, i);
      OnlyStarsLeft(ts, str, i);
      p := p + 1;
      i := i + 1;
    }
    if p < |pattern| {
      NextToken(pattern, p, ts, i);
      OnlyStarsLeft(ts, str, i);
    } else {
      TokensOver(pattern, ts, i);
      NothingLeft(ts, str);
    }
    return p >= |pattern|;
  }

  lemma Beginning(ts: seq<Token>, str: Bytes)
    ensures Standing(ts, str, 0, 0, None, 0)
  {
  }

  lemma TokensOver(pattern: Bytes, ts: seq<Token>, i: nat)
    requires i <= |ts| && ts[i..] == Tokens(pattern, |pattern|)
    ensures i == |ts|
  {
  }

  lemma NothingLeft(ts: seq<Token>, str: Bytes)
    ensures Denotes(ts, |ts|, str, |str|)
  {
  }
}
