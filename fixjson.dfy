/** The repair in `fixjson.py`: every double-quoted literal of a file's content, as the pattern
    `"((?:[^"\\]|\\.)*)"` (compiled with DOTALL) finds it, that holds a hard line break is
    rewritten with the break escaped, and each such rewrite is recorded with the line on which
    the literal starts. */
module FixJson {
  import opened Strings
  import opened Optional

  /** How many characters of a literal a change record quotes. */
  const SnippetLength: nat := 50

  /** The texts the group `(?:[^"\\]|\\.)*` matches as a whole: characters other than `"` and
      `\`, and escape pairs, a `\` followed by any one character; with DOTALL that character
      may be a line break, and it may be `"`. */
  predicate Body(t: string)
    decreases |t|
  {
    |t| == 0
    || (t[0] != '"' && t[0] != '\\' && Body(t[1..]))
    || (|t| >= 2 && t[0] == '\\' && Body(t[2..]))
  }

  /** A body none of whose escape pairs escapes a line break. */
  predicate SafeBody(t: string)
    decreases |t|
  {
    |t| == 0
    || (t[0] != '"' && t[0] != '\\' && SafeBody(t[1..]))
    || (|t| >= 2 && t[0] == '\\' && t[1] != '\n' && t[1] != '\r' && SafeBody(t[2..]))
  }

  lemma {:induction false} BodyAppend(a: string, b: string)
    requires Body(a) && Body(b)
    ensures Body(a + b)
    decreases |a|
  {
    if |a| > 0 {
      if a[0] != '\\' {
        BodyAppend(a[1..], b);
        assert (a + b)[1..] == a[1..] + b;
      } else {
        BodyAppend(a[2..], b);
        assert (a + b)[2..] == a[2..] + b;
      }
    } else {
      assert a + b == b;
    }
  }

  /** The greedy group, started at index `j`, followed by the closing `"`: the index of that
      quote, or None when the content ends first (or ends just after a `\`). */
  function LiteralEnd(s: string, j: nat): (r: Option<nat>)
    requires j <= |s|
    ensures r.Some? ==> j <= r.value < |s| && s[r.value] == '"'
    decreases |s| - j
  {
    if j == |s| then None
    else if s[j] == '"' then Some(j)
    else if s[j] == '\\' then (if j + 1 < |s| then LiteralEnd(s, j + 2) else None)
    else LiteralEnd(s, j + 1)
  }

  /** The match of the pattern at index `i`: the index of the literal's closing quote. */
  function MatchAt(s: string, i: nat): (r: Option<nat>)
    requires i < |s|
    ensures r.Some? ==> s[i] == '"' && i < r.value < |s| && s[r.value] == '"'
  {
    if s[i] == '"' then LiteralEnd(s, i + 1) else None
  }

  /** The scan stops at `k` exactly when `k` holds a quote and the text before it is a body; so
      there is at most one such `k`, and backtracking could not find another match. */
  lemma {:induction false} LiteralEndBody(s: string, j: nat, k: nat)
    requires j <= k < |s|
    ensures LiteralEnd(s, j) == Some(k) <==> s[k] == '"' && Body(s[j..k])
    decreases k - j
  {
    if j < k {
      var t := s[j..k];
      assert t[0] == s[j];
      if s[j] == '\\' {
        if j + 1 < k {
          assert t[2..] == s[j + 2..k];
          LiteralEndBody(s, j + 2, k);
        }
      } else if s[j] != '"' {
        assert t[1..] == s[j + 1..k];
        LiteralEndBody(s, j + 1, k);
      }
    }
  }

  /** A quote, a body and a quote form one literal, whatever follows. */
  lemma MatchAtLiteral(inner: string, rest: string)
    requires Body(inner)
    ensures MatchAt("\"" + inner + "\"" + rest, 0) == Some(|inner| + 1)
  {
    var s := "\"" + inner + "\"" + rest;
    assert s[1..|inner| + 1] == inner;
    LiteralEndBody(s, 1, |inner| + 1);
  }

  lemma EscapedQuoteBody(a: string, b: string)
    requires Body(a) && Body(b)
    ensures Body(a + "\\\"" + b)
  {
    var u := "\\\"" + b;
    assert u[2..] == b;
    BodyAppend(a, u);
    assert a + "\\\"" + b == a + u;
  }

  /** An escaped quote `\"` does not end a literal. */
  lemma EscapedQuote(a: string, b: string, rest: string)
    requires Body(a) && Body(b)
    ensures MatchAt("\"" + (a + "\\\"" + b) + "\"" + rest, 0) == Some(|a + "\\\"" + b| + 1)
  {
    EscapedQuoteBody(a, b);
    MatchAtLiteral(a + "\\\"" + b, rest);
  }

  /** The content as `pattern.sub` walks it: a matched literal, with the index of its opening
      quote in the content, or one character that starts no match. */
  datatype Segment = Plain(c: char) | Literal(at: nat, inner: string)

  function Text(g: Segment): string {
    match g
    case Plain(c) => [c]
    case Literal(_, inner) => "\"" + inner + "\""
  }

  function Render(gs: seq<Segment>): string
    decreases |gs|
  {
    if |gs| == 0 then "" else Text(gs[0]) + Render(gs[1..])
  }

  /** The segment `pattern.sub` finds at the start of `t`, the content from index `base` on: the
      pattern has no anchor and looks at nothing before its match, so the match there depends on
      `t` alone. */
  function FirstSegment(t: string, base: nat): (g: Segment)
    requires |t| > 0
    ensures 0 < |Text(g)| <= |t|
    ensures g.Literal? ==> g.at == base
    ensures g.Plain? <==> MatchAt(t, 0).None?
  {
    match MatchAt(t, 0)
    case Some(k) => Literal(base, t[1..k])
    case None => Plain(t[0])
  }

  /** The segments of `t`, the content from index `base` on, in order. */
  function Scan(t: string, base: nat): seq<Segment>
    decreases |t|
  {
    if |t| == 0 then []
    else
      var g := FirstSegment(t, base);
      [g] + Scan(t[|Text(g)|..], base + |Text(g)|)
  }

  function Segments(s: string): seq<Segment> {
    Scan(s, 0)
  }

  lemma ScanStep(t: string, base: nat)
    requires |t| > 0
    ensures var n := |Text(FirstSegment(t, base))|;
      Scan(t, base) == [FirstSegment(t, base)] + Scan(t[n..], base + n)
  {
  }

  /** The first segment's text is what `t` starts with. */
  lemma FirstText(t: string, base: nat)
    requires |t| > 0
    ensures t == Text(FirstSegment(t, base)) + t[|Text(FirstSegment(t, base))|..]
  {
    match MatchAt(t, 0)
    case Some(k) =>
      assert t == "\"" + t[1..k] + "\"" + t[k + 1..];
    case None =>
      assert t == [t[0]] + t[1..];
  }

  lemma RenderCons(g: Segment, rest: seq<Segment>)
    ensures Render([g] + rest) == Text(g) + Render(rest)
  {
    assert ([g] + rest)[1..] == rest;
  }

  lemma RenderStep(t: string, base: nat)
    requires |t| > 0
    ensures var n := |Text(FirstSegment(t, base))|;
      Render(Scan(t, base)) == Text(FirstSegment(t, base)) + Render(Scan(t[n..], base + n))
  {
    var g := FirstSegment(t, base);
    ScanStep(t, base);
    RenderCons(g, Scan(t[|Text(g)|..], base + |Text(g)|));
  }

  /** Putting the segments back together gives the content: the scan loses nothing. */
  lemma {:induction false} RenderScan(t: string, base: nat)
    ensures Render(Scan(t, base)) == t
    decreases |t|
  {
    if |t| > 0 {
      var n := |Text(FirstSegment(t, base))|;
      RenderStep(t, base);
      RenderScan(t[n..], base + n);
      FirstText(t, base);
    }
  }

  /** A literal segment's opening quote lies in `[lo, hi)`. */
  predicate LiteralIn(g: Segment, lo: nat, hi: nat) {
    g.Literal? ==> lo <= g.at < hi
  }

  predicate LiteralsOf(gs: seq<Segment>, lo: nat, hi: nat) {
    forall g | g in gs :: LiteralIn(g, lo, hi)
  }

  lemma LiteralsCons(g: Segment, rest: seq<Segment>, lo: nat, next: nat, hi: nat)
    requires lo <= next && LiteralIn(g, lo, hi) && LiteralsOf(rest, next, hi)
    ensures LiteralsOf([g] + rest, lo, hi)
  {
    forall h | h in [g] + rest ensures LiteralIn(h, lo, hi) {
      if h != g {
        assert LiteralIn(h, next, hi);
      }
    }
  }

  /** Every literal of `t` starts inside it. */
  lemma {:induction false} ScanLiterals(t: string, base: nat)
    ensures LiteralsOf(Scan(t, base), base, base + |t|)
    decreases |t|
  {
    if |t| > 0 {
      var g := FirstSegment(t, base);
      var n := |Text(g)|;
      ScanStep(t, base);
      ScanLiterals(t[n..], base + n);
      LiteralsCons(g, Scan(t[n..], base + n), base, base + n, base + |t|);
    }
  }

  /** A literal segment is the pattern's match at the start of `u`, a quote, a body and a quote. */
  predicate MatchedAt(u: string, g: Segment) {
    g.Literal? ==> |u| > 0 && MatchAt(u, 0) == Some(|g.inner| + 1) && Body(g.inner)
  }

  /** A literal segment of `t`, the content from `base` on, is the match at its own index. */
  predicate MatchedIn(t: string, base: nat, g: Segment) {
    g.Literal? ==> base <= g.at < base + |t| && MatchedAt(t[g.at - base..], g)
  }

  lemma FirstMatched(t: string, base: nat)
    requires |t| > 0
    ensures MatchedIn(t, base, FirstSegment(t, base))
  {
    match MatchAt(t, 0)
    case Some(k) =>
      LiteralEndBody(t, 1, k);
      assert t[0..] == t;
    case None =>
  }

  /** Every literal segment of `gs` is the match at its own index of `t`. */
  predicate AllMatched(t: string, base: nat, gs: seq<Segment>) {
    forall h | h in gs :: MatchedIn(t, base, h)
  }

  lemma MatchedRest(t: string, base: nat, n: nat, rest: seq<Segment>)
    requires n <= |t| && AllMatched(t[n..], base + n, rest)
    ensures AllMatched(t, base, rest)
  {
    forall h | h in rest ensures MatchedIn(t, base, h) {
      if h.Literal? {
        assert MatchedIn(t[n..], base + n, h);
        assert t[n..][h.at - base - n..] == t[h.at - base..];
      }
    }
  }

  lemma MatchedCons(t: string, base: nat, g: Segment, rest: seq<Segment>)
    requires MatchedIn(t, base, g) && AllMatched(t, base, rest)
    ensures AllMatched(t, base, [g] + rest)
  {
  }

  lemma MatchedStep(t: string, base: nat, n: nat, rest: seq<Segment>)
    requires |t| > 0 && n == |Text(FirstSegment(t, base))|
    requires AllMatched(t[n..], base + n, rest)
    ensures AllMatched(t, base, [FirstSegment(t, base)] + rest)
  {
    MatchedRest(t, base, n, rest);
    FirstMatched(t, base);
    MatchedCons(t, base, FirstSegment(t, base), rest);
  }

  lemma {:induction false} ScanMatched(t: string, base: nat)
    ensures AllMatched(t, base, Scan(t, base))
    decreases |t|
  {
    if |t| > 0 {
      var n := |Text(FirstSegment(t, base))|;
      ScanStep(t, base);
      ScanMatched(t[n..], base + n);
      MatchedStep(t, base, n, Scan(t[n..], base + n));
    }
  }

  /** Every literal segment of the content is the pattern's match at its index: a quote, a body
      and a quote, and no other quote could end it. */
  lemma SegmentsMatched(s: string)
    ensures forall g | g in Segments(s) && g.Literal? :: g.at < |s| && MatchedAt(s[g.at..], g)
  {
    ScanMatched(s, 0);
    forall g | g in Segments(s) && g.Literal?
      ensures g.at < |s| && MatchedAt(s[g.at..], g)
    {
      assert MatchedIn(s, 0, g);
    }
  }

  /** `'\n' in inner_text or '\r' in inner_text`. */
  predicate NeedsFix(inner: string) {
    '\n' in inner || '\r' in inner
  }

  /** `t.replace('\n', '\\n')`: every line break becomes a backslash and an `n`. */
  function Escape(t: string): (r: string)
    ensures '\n' !in r
    ensures forall x | x != '\\' && x != 'n' && x != '\n' :: x in r <==> x in t
  {
    if |t| == 0 then []
    else (if t[0] == '\n' then "\\n" else [t[0]]) + Escape(t[1..])
  }

  /** A text without line feeds is left as it is. */
  lemma {:induction false} EscapeAbsent(t: string)
    requires '\n' !in t
    ensures Escape(t) == t
    decreases |t|
  {
    if |t| > 0 {
      assert t[0] in t && forall d | d in t[1..] :: d in t;
      EscapeAbsent(t[1..]);
      assert [t[0]] + t[1..] == t;
    }
  }

  /** `Escape` is Python's replace: the pieces between line breaks joined by `\n`. */
  lemma {:induction false} EscapeJoin(t: string)
    ensures Escape(t) == JoinWith(SplitOn(t, '\n'), "\\n")
  {
    if |t| > 0 {
      var rest := SplitOn(t[1..], '\n');
      EscapeJoin(t[1..]);
      if t[0] == '\n' {
        assert SplitOn(t, '\n') == [[]] + rest;
        JoinWithCons([], rest, "\\n");
      } else if |rest| > 1 {
        assert SplitOn(t, '\n') == [[t[0]] + rest[0]] + rest[1..];
        JoinWithCons([t[0]] + rest[0], rest[1..], "\\n");
        JoinWithCons(rest[0], rest[1..], "\\n");
        assert [rest[0]] + rest[1..] == rest;
      }
    }
  }

  /** `inner_text.replace('\r', '').replace('\n', '\\n')`. */
  function FixedInner(inner: string): (r: string)
    ensures '\n' !in r && '\r' !in r
  {
    Escape(Remove(inner, '\r'))
  }

  /** What `replacement_handler` returns for a segment: a literal with a line break comes back
      repaired and re-quoted, every other segment as it was matched. */
  function Repaired(g: Segment): string {
    match g
    case Plain(c) => [c]
    case Literal(_, inner) => if NeedsFix(inner) then "\"" + FixedInner(inner) + "\"" else Text(g)
  }

  function RenderRepaired(gs: seq<Segment>): string
    decreases |gs|
  {
    if |gs| == 0 then "" else Repaired(gs[0]) + RenderRepaired(gs[1..])
  }

  /** One entry of `file_changes`: the line the literal starts on and its opening snippet. */
  datatype Change = Change(line: nat, snippet: string)

  /** `content.count('\n', 0, i) + 1`: the number of the line on which index `i` lies. */
  function LineOf(s: string, i: nat): (r: nat)
    requires i <= |s|
    ensures 1 <= r <= Count(s, '\n') + 1
  {
    CountAppend(s[..i], s[i..], '\n');
    assert s[..i] + s[i..] == s;
    Count(s[..i], '\n') + 1
  }

  /** Index `i` lies on the last of the lines that `s[..i].split('\n')` gives. */
  lemma LineOfSplit(s: string, i: nat)
    requires i <= |s|
    ensures LineOf(s, i) == |SplitOn(s[..i], '\n')|
  {
    SplitOnCount(s[..i], '\n');
  }

  /** `inner_text.replace('\n', ' ')[:50]`. */
  function Snippet(inner: string): (r: string)
    ensures |r| == if |inner| < SnippetLength then |inner| else SnippetLength
    ensures forall k | 0 <= k < |r| :: r[k] == if inner[k] == '\n' then ' ' else inner[k]
  {
    var t := ReplaceChar(inner, '\n', ' ');
    if |t| <= SnippetLength then t else t[..SnippetLength]
  }

  /** The change a segment records: one for a literal with a line break, none otherwise. */
  function ChangeOf(s: string, g: Segment): seq<Change>
    requires g.Literal? ==> g.at <= |s|
  {
    if g.Literal? && NeedsFix(g.inner) then [Change(LineOf(s, g.at), Snippet(g.inner))] else []
  }

  function ChangesOf(s: string, gs: seq<Segment>): seq<Change>
    requires forall g | g in gs && g.Literal? :: g.at <= |s|
    decreases |gs|
  {
    if |gs| == 0 then [] else ChangeOf(s, gs[0]) + ChangesOf(s, gs[1..])
  }

  /** The new content and the change list of one file. */
  datatype Outcome = Outcome(content: string, changes: seq<Change>)

  /** `pattern.sub(replacement_handler, content)` together with the `file_changes` it fills. */
  function Substitute(s: string): Outcome {
    ScanLiterals(s, 0);
    Outcome(RenderRepaired(Segments(s)), ChangesOf(s, Segments(s)))
  }

  /** The number of line-break characters of a text. */
  function Breaks(t: string): nat {
    Count(t, '\n') + Count(t, '\r')
  }

  lemma BreaksAppend(a: string, b: string)
    ensures Breaks(a + b) == Breaks(a) + Breaks(b)
  {
    CountAppend(a, b, '\n');
    CountAppend(a, b, '\r');
  }

  /** A repaired literal has no line break; a literal that needed repair had one. */
  lemma RepairedSegmentBreaks(g: Segment)
    ensures g.Literal? && NeedsFix(g.inner) ==> Breaks(Repaired(g)) == 0 && Breaks(Text(g)) >= 1
    ensures !(g.Literal? && NeedsFix(g.inner)) ==> Repaired(g) == Text(g)
  {
    if g.Literal? && NeedsFix(g.inner) {
      var r := Repaired(g);
      assert '\n' !in r && '\r' !in r;
      CountAbsent(r, '\n');
      CountAbsent(r, '\r');
      if '\n' in g.inner {
        assert '\n' in Text(g);
        CountPresent(Text(g), '\n');
      } else {
        assert '\r' in Text(g);
        CountPresent(Text(g), '\r');
      }
    }
  }

  /** Across any segments: a change is recorded exactly when some literal holds a line break; with
      no change the repaired text is the original one, and with a change it has fewer line
      breaks. */
  lemma {:induction false} RepairedBreaks(s: string, gs: seq<Segment>)
    requires forall g | g in gs && g.Literal? :: g.at <= |s|
    ensures ChangesOf(s, gs) == [] <==> forall g | g in gs && g.Literal? :: !NeedsFix(g.inner)
    ensures ChangesOf(s, gs) == [] ==> RenderRepaired(gs) == Render(gs)
    ensures ChangesOf(s, gs) != [] ==> Breaks(RenderRepaired(gs)) < Breaks(Render(gs))
    ensures Breaks(RenderRepaired(gs)) <= Breaks(Render(gs))
    decreases |gs|
  {
    if |gs| > 0 {
      var g := gs[0];
      RepairedBreaks(s, gs[1..]);
      RepairedSegmentBreaks(g);
      BreaksAppend(Repaired(g), RenderRepaired(gs[1..]));
      BreaksAppend(Text(g), Render(gs[1..]));
      assert gs == [g] + gs[1..];
    }
  }

  /** A file is rewritten exactly when a change was recorded: the new content equals the old
      one if and only if no change is recorded, and that is so if and only if no literal holds a
      line break. */
  lemma SubstituteUnchanged(s: string)
    ensures Substitute(s).changes == [] <==>
      forall g | g in Segments(s) && g.Literal? :: !NeedsFix(g.inner)
    ensures Substitute(s).content == s <==> Substitute(s).changes == []
  {
    ScanLiterals(s, 0);
    RenderScan(s, 0);
    RepairedBreaks(s, Segments(s));
  }

  /** The change records come in the order of the file, each with a line number of the file. */
  predicate InLineOrder(cs: seq<Change>) {
    forall j, k | 0 <= j < k < |cs| :: cs[j].line <= cs[k].line
  }

  /** Every change of `cs` is on line `line` or a later one. */
  predicate NotBefore(cs: seq<Change>, line: nat) {
    forall c | c in cs :: line <= c.line
  }

  lemma LineOfMonotone(s: string, i: nat, j: nat)
    requires i <= j <= |s|
    ensures LineOf(s, i) <= LineOf(s, j)
  {
    assert s[..j] == s[..i] + s[i..j];
    CountAppend(s[..i], s[i..j], '\n');
  }

  lemma OrderedAppend(head: seq<Change>, tail: seq<Change>, line: nat)
    requires |head| <= 1 && forall c | c in head :: c.line == line
    requires NotBefore(tail, line)
    requires InLineOrder(tail)
    ensures InLineOrder(head + tail)
  {
    var cs := head + tail;
    forall j, k | 0 <= j < k < |cs| ensures cs[j].line <= cs[k].line {
      if j >= |head| {
        assert cs[j] == tail[j - |head|] && cs[k] == tail[k - |head|];
      } else {
        assert cs[j] in head && cs[k] == tail[k - |head|];
        assert cs[k] in tail;
      }
    }
  }

  /** The literals of `gs` start at `lo` or later, each no earlier than the one before. */
  predicate Ascending(gs: seq<Segment>, lo: nat)
    decreases |gs|
  {
    |gs| == 0 || ((gs[0].Literal? ==> lo <= gs[0].at) && Ascending(gs[1..], After(gs[0], lo)))
  }

  /** Where the literals after `g` may start, when those after `lo`'s literal may start at `lo`. */
  function After(g: Segment, lo: nat): nat {
    if g.Literal? then g.at else lo
  }

  lemma {:induction false} AscendingWeaken(gs: seq<Segment>, lo: nat, lo2: nat)
    requires lo2 <= lo && Ascending(gs, lo)
    ensures Ascending(gs, lo2)
    decreases |gs|
  {
    if |gs| > 0 {
      AscendingWeaken(gs[1..], After(gs[0], lo), After(gs[0], lo2));
    }
  }

  lemma AscendingCons(g: Segment, rest: seq<Segment>, lo: nat)
    requires (g.Literal? ==> lo <= g.at) && Ascending(rest, After(g, lo))
    ensures Ascending([g] + rest, lo)
  {
    assert ([g] + rest)[1..] == rest;
  }

  /** The scan meets the literals in the order of the content. */
  lemma {:induction false} ScanAscending(t: string, base: nat)
    ensures Ascending(Scan(t, base), base)
    decreases |t|
  {
    if |t| > 0 {
      var g := FirstSegment(t, base);
      var n := |Text(g)|;
      var rest := Scan(t[n..], base + n);
      ScanStep(t, base);
      ScanAscending(t[n..], base + n);
      AscendingWeaken(rest, base + n, After(g, base));
      AscendingCons(g, rest, base);
    }
  }

  lemma NotBeforeWeaken(cs: seq<Change>, line: nat, line2: nat)
    requires line2 <= line && NotBefore(cs, line)
    ensures NotBefore(cs, line2)
  {
  }

  /** Segments whose literals ascend give changes in line order, none before the line of `lo`. */
  lemma {:induction false} ChangesAscending(s: string, gs: seq<Segment>, lo: nat)
    requires lo <= |s| && Ascending(gs, lo)
    requires forall g | g in gs && g.Literal? :: g.at <= |s|
    ensures NotBefore(ChangesOf(s, gs), LineOf(s, lo))
    ensures InLineOrder(ChangesOf(s, gs))
    decreases |gs|
  {
    if |gs| > 0 {
      var g, lo2 := gs[0], After(gs[0], lo);
      assert gs[0] in gs;
      assert forall h | h in gs[1..] :: h in gs;
      ChangesAscending(s, gs[1..], lo2);
      LineOfMonotone(s, lo, lo2);
      var head, tail := ChangeOf(s, g), ChangesOf(s, gs[1..]);
      assert forall c | c in head :: c.line == LineOf(s, lo2);
      OrderedAppend(head, tail, LineOf(s, lo2));
      NotBeforeWeaken(tail, LineOf(s, lo2), LineOf(s, lo));
    }
  }

  /** Every change names a line of the file. */
  lemma {:induction false} ChangesWithin(s: string, gs: seq<Segment>)
    requires forall g | g in gs && g.Literal? :: g.at <= |s|
    ensures forall c | c in ChangesOf(s, gs) :: 1 <= c.line <= Count(s, '\n') + 1
    decreases |gs|
  {
    if |gs| > 0 {
      ChangesWithin(s, gs[1..]);
    }
  }

  /** Each recorded change names a line of the file, and the records follow the file's order. */
  lemma ChangesInOrder(s: string)
    ensures forall c | c in Substitute(s).changes :: 1 <= c.line <= Count(s, '\n') + 1
    ensures InLineOrder(Substitute(s).changes)
  {
    ScanLiterals(s, 0);
    ScanAscending(s, 0);
    ChangesAscending(s, Segments(s), 0);
    ChangesWithin(s, Segments(s));
  }

  lemma {:induction false} RemoveKeepsSafe(t: string)
    requires SafeBody(t)
    ensures SafeBody(Remove(t, '\r'))
    decreases |t|
  {
    if |t| > 0 {
      if t[0] != '\\' {
        RemoveKeepsSafe(t[1..]);
        if t[0] != '\r' {
          var u := [t[0]] + Remove(t[1..], '\r');
          assert u[1..] == Remove(t[1..], '\r');
        } else {
          assert Remove(t, '\r') == Remove(t[1..], '\r');
        }
      } else {
        RemoveKeepsSafe(t[2..]);
        assert t[1..][1..] == t[2..];
        var u := [t[0]] + ([t[1]] + Remove(t[2..], '\r'));
        assert u[2..] == Remove(t[2..], '\r');
      }
    }
  }

  lemma {:induction false} EscapeSafe(t: string)
    requires SafeBody(t)
    ensures Body(Escape(t))
    decreases |t|
  {
    if |t| > 0 {
      if t[0] != '\\' {
        EscapeSafe(t[1..]);
        var e := Escape(t[1..]);
        if t[0] == '\n' {
          assert ("\\n" + e)[2..] == e;
        } else {
          assert ([t[0]] + e)[1..] == e;
        }
      } else {
        EscapeSafe(t[2..]);
        assert t[1..][1..] == t[2..];
        var u := [t[0]] + ([t[1]] + Escape(t[2..]));
        assert u[2..] == Escape(t[2..]);
      }
    }
  }

  /** When no escape pair of a literal escapes a line break, its repaired form is again exactly
      one literal. */
  lemma RepairedLiteralMatches(inner: string, rest: string)
    requires SafeBody(inner)
    ensures MatchAt("\"" + FixedInner(inner) + "\"" + rest, 0) == Some(|FixedInner(inner)| + 1)
  {
    RemoveKeepsSafe(inner);
    EscapeSafe(Remove(inner, '\r'));
    MatchAtLiteral(FixedInner(inner), rest);
  }

  lemma BrokenLiteralSegments(s: string)
    requires s == "\"a\\\r\""
    ensures Segments(s) == [Literal(0, "a\\\r")]
  {
    assert LiteralEnd(s, 4) == Some(4);
    assert LiteralEnd(s, 2) == Some(4);
    assert MatchAt(s, 0) == Some(4);
    assert s[1..4] == "a\\\r";
    assert FirstSegment(s, 0) == Literal(0, "a\\\r");
    ScanStep(s, 0);
    assert s[5..] == [];
  }

  lemma BrokenLiteralRepaired()
    ensures FixedInner("a\\\r") == "a\\"
    ensures NeedsFix("a\\\r")
  {
    assert Remove("a\\\r", '\r') == "a\\";
    assert Escape("a\\") == "a\\";
    assert "a\\\r"[2] == '\r';
  }

  lemma RenderRepairedOne(g: Segment)
    ensures RenderRepaired([g]) == Repaired(g)
  {
    assert RenderRepaired([g]) == Repaired(g) + RenderRepaired([]);
  }

  lemma BrokenLiteralContent(s: string, t: string)
    requires s == "\"a\\\r\"" && t == "\"a\\\""
    ensures Substitute(s).content == t
  {
    assert "\"" + "a\\" + "\"" == t;
    BrokenLiteralSegments(s);
    var g := Literal(0, "a\\\r");
    BrokenLiteralRepaired();
    RenderRepairedOne(g);
  }

  lemma BrokenLiteralSnippet()
    ensures Snippet("a\\\r") == "a\\\r"
  {
    assert ReplaceChar("a\\\r", '\n', ' ') == "a\\\r";
  }

  /** Index 0 lies on line 1. */
  lemma LineOfStart(s: string)
    ensures LineOf(s, 0) == 1
  {
    assert s[..0] == [];
  }

  lemma ChangesOne(s: string, g: Segment)
    requires g.Literal? ==> g.at <= |s|
    ensures ChangesOf(s, [g]) == ChangeOf(s, g)
  {
    assert ChangesOf(s, [g]) == ChangeOf(s, g) + ChangesOf(s, []);
  }

  lemma BrokenLiteralChange(s: string)
    requires s == "\"a\\\r\""
    ensures Substitute(s).changes == [Change(1, "a\\\r")]
  {
    BrokenLiteralSegments(s);
    var g := Literal(0, "a\\\r");
    LineOfStart(s);
    BrokenLiteralRepaired();
    BrokenLiteralSnippet();
    ChangesOne(s, g);
  }

  /** Where the pattern does not match, the scan takes one character. */
  lemma PlainStep(u: string, v: string, base: nat)
    requires |u| > 0 && MatchAt(u, 0).None? && v == u[1..]
    ensures Scan(u, base) == [Plain(u[0])] + Scan(v, base + 1)
  {
    ScanStep(u, base);
  }

  /** In `"a\"` the backslash escapes the last quote, so the opening quote starts no match. */
  lemma OpenNoMatch(t: string)
    requires t == "\"a\\\""
    ensures MatchAt(t, 0).None?
  {
    assert LiteralEnd(t, 4) == None;
    assert LiteralEnd(t, 2) == None;
  }

  lemma OpenLiteralSegments(t: string)
    requires t == "\"a\\\""
    ensures Segments(t) == [Plain('"'), Plain('a'), Plain('\\'), Plain('"')]
  {
    var u1, u2, u3 := "a\\\"", "\\\"", "\"";
    OpenNoMatch(t);
    PlainStep(t, u1, 0);
    PlainStep(u1, u2, 1);
    PlainStep(u2, u3, 2);
    assert LiteralEnd(u3, 1) == None;
    PlainStep(u3, [], 3);
  }

  /** Otherwise it need not be. When the carriage return is the last character before the
      closing quote, as in `"a\` + CR + `"`, the backslash escapes the carriage return, which is
      deleted; the backslash then escapes the closing quote, and the repaired content holds no
      literal. */
  lemma EscapedReturnLeavesLiteralOpen(s: string)
    requires s == "\"a\\\r\""
    ensures Segments(s) == [Literal(0, "a\\\r")]
    ensures Substitute(s) == Outcome("\"a\\\"", [Change(1, "a\\\r")])
    ensures Segments(Substitute(s).content) == [Plain('"'), Plain('a'), Plain('\\'), Plain('"')]
  {
    BrokenLiteralSegments(s);
    BrokenLiteralContent(s, "\"a\\\"");
    BrokenLiteralChange(s);
    OpenLiteralSegments("\"a\\\"");
  }

  lemma ReturnBeforeTextSegments(s: string)
    requires s == "\"a\\\rb\""
    ensures Segments(s) == [Literal(0, "a\\\rb")]
  {
    assert LiteralEnd(s, 5) == Some(5);
    assert LiteralEnd(s, 2) == Some(5);
    assert MatchAt(s, 0) == Some(5);
    assert s[1..5] == "a\\\rb";
    assert FirstSegment(s, 0) == Literal(0, "a\\\rb");
    ScanStep(s, 0);
    assert s[6..] == [];
  }

  lemma ReturnBeforeTextRepaired(inner: string)
    requires inner == "a\\\rb"
    ensures FixedInner(inner) == "a\\b"
    ensures NeedsFix(inner)
  {
    assert inner[2] == '\r';
    var u := Remove(inner, '\r');
    assert u == "a\\b" by {
      assert u == [inner[0]] + Remove(inner[1..], '\r');
      assert Remove(inner[1..], '\r') == [inner[1]] + Remove(inner[2..], '\r');
      assert Remove(inner[2..], '\r') == Remove(inner[3..], '\r');
      RemoveAbsent(inner[3..], '\r');
    }
    EscapeAbsent(u);
  }

  lemma EscapedTextMatches(t: string)
    requires t == "\"a\\b\""
    ensures MatchAt(t, 0) == Some(4)
  {
    assert LiteralEnd(t, 4) == Some(4);
    assert LiteralEnd(t, 2) == Some(4);
  }

  /** When the carriage return after a backslash is followed by more text, as in
      `"a\` + CR + `b"`, the backslash escapes that next character instead: the repaired
      literal `"a\b"` is again one whole literal. */
  lemma EscapedReturnEscapesNext(s: string)
    requires s == "\"a\\\rb\""
    ensures Segments(s) == [Literal(0, "a\\\rb")]
    ensures Substitute(s).content == "\"a\\b\""
    ensures MatchAt(Substitute(s).content, 0) == Some(4)
  {
    var t := "\"a\\b\"";
    assert "\"" + "a\\b" + "\"" == t;
    ReturnBeforeTextSegments(s);
    ReturnBeforeTextRepaired("a\\\rb");
    RenderRepairedOne(Literal(0, "a\\\rb"));
    EscapedTextMatches(t);
  }
}
