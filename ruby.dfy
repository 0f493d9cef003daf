/** Ruby-gloss markup and `get_visual_length`.

    A construct is `[System:Ruby rt=ANNOT]BASE[/System:Ruby]`. Both regular expressions of the
    engine (the measurer's `\[System:Ruby rt=.*?\](.*?)\[/System:Ruby\]` and the tokenizer's
    looser `\[System:Ruby.*?\](.*?)\[/System:Ruby\]`) are written out here as one scanner,
    `MatchHere`, parameterised by the opening and the closing text. Without the DOTALL flag `.` does not match
    `'\n'`, so a match ends at the first `']'` after the opener and the first closing tag after
    that `']'`, provided no `'\n'` comes first. */
module Ruby {
  import opened Strings
  import opened Optional

  const Open: string := "[System:Ruby rt="
  const LooseOpen: string := "[System:Ruby"
  const Close: string := "[/System:Ruby]"
  const ZeroWidthSpace: char := '\U{200B}'

  /** A match of one construct at the start of a text: the base text is `s[bodyStart..bodyEnd]`
      and the whole match is `s[..end]`. */
  datatype Match = Match(bodyStart: nat, bodyEnd: nat, end: nat)

  /** First index from `j` holding `']'` or `'\n'`, or `|s|`. */
  function BracketOrBreak(s: string, j: nat): (k: nat)
    requires j <= |s|
    ensures j <= k <= |s|
    ensures forall m | j <= m < k :: s[m] != ']' && s[m] != '\n'
    ensures k < |s| ==> s[k] == ']' || s[k] == '\n'
    decreases |s| - j
  {
    if j == |s| || s[j] == ']' || s[j] == '\n' then j else BracketOrBreak(s, j + 1)
  }

  /** First index from `j` where the closing tag starts or a `'\n'` stands, or `|s|`. */
  function CloseOrBreak(s: string, j: nat, close: string): (k: nat)
    requires j <= |s|
    ensures j <= k <= |s|
    ensures forall m | j <= m < k :: !OccursAt(close, s, m)
    ensures forall m | j <= m < k :: s[m] != '\n'
    ensures k < |s| ==> OccursAt(close, s, k) || s[k] == '\n'
    decreases |s| - j
  {
    if j == |s| || OccursAt(close, s, j) || s[j] == '\n' then j else CloseOrBreak(s, j + 1, close)
  }

  /** The match of `open .*? \] (.*?) close` at the start of `s`, if any; `close` is the
      closing tag, passed in so that the proofs below hold for any closing text. */
  function MatchHere(s: string, open: string, close: string): (r: Option<Match>)
    ensures r.Some? ==> |open| < r.value.bodyStart <= r.value.bodyEnd
    ensures r.Some? ==> r.value.end == r.value.bodyEnd + |close| <= |s|
  {
    if !OccursAt(open, s, 0) then None else AfterOpen(s, BracketOrBreak(s, |open|), close)
  }

  /** The rest of a match once the opener has been read and the lazy `.*?` has stopped at
      index `j`: a `']'` must stand there, and the base runs up to the next closing tag. */
  function AfterOpen(s: string, j: nat, close: string): (r: Option<Match>)
    requires j <= |s|
    ensures r.Some? ==> j < r.value.bodyStart <= r.value.bodyEnd
    ensures r.Some? ==> r.value.end == r.value.bodyEnd + |close| <= |s|
  {
    if j == |s| || s[j] != ']' then None
    else
      var k := CloseOrBreak(s, j + 1, close);
      if k == |s| || !OccursAt(close, s, k) then None
      else Some(Match(j + 1, k, k + |close|))
  }

  /** The base text of a well-formed construct: it holds no line break and the closing tag
      first appears after it. */
  predicate PlainBase(base: string, close: string) {
    '\n' !in base && forall p | 0 <= p < |base| :: !OccursAt(close, base + close, p)
  }

  /** The annotation of a well-formed construct: no `']'` and no line break. */
  predicate PlainAnnotation(annot: string) {
    ']' !in annot && '\n' !in annot
  }

  lemma FirstBracket(s: string, from: nat, k: nat)
    requires from <= k < |s| && s[k] == ']'
    requires forall m | from <= m < k :: s[m] != ']' && s[m] != '\n'
    ensures BracketOrBreak(s, from) == k
  {
  }

  lemma FirstClose(s: string, from: nat, k: nat, close: string)
    requires from <= k && OccursAt(close, s, k)
    requires forall m | from <= m < k :: !OccursAt(close, s, m)
    requires forall m | from <= m < k :: s[m] != '\n'
    ensures CloseOrBreak(s, from, close) == k
  {
  }

  /** After `open + annot`, the first `']'` is the one that closes the annotation. */
  lemma BracketAfterAnnotation(open: string, annot: string, tail: string)
    requires PlainAnnotation(annot)
    ensures BracketOrBreak(open + annot + "]" + tail, |open|) == |open| + |annot|
  {
    var s := open + annot + "]" + tail;
    forall m | |open| <= m < |open| + |annot| ensures s[m] != ']' && s[m] != '\n' {
      assert s[m] == annot[m - |open|];
    }
    FirstBracket(s, |open|, |open| + |annot|);
  }

  /** After the annotation's `']'`, the first closing tag is the one that follows the base. */
  lemma CloseAfterBase(head: string, base: string, close: string, rest: string)
    requires PlainBase(base, close)
    ensures CloseOrBreak(head + (base + close + rest), |head|, close) == |head| + |base|
  {
    var t := base + close + rest;
    assert t == (base + close) + rest;
    forall m | 0 <= m < |base| ensures !OccursAt(close, t, m) {
      OccursAtPrefix(close, base + close, rest, m);
    }
    forall m | 0 <= m < |base| ensures t[m] != '\n' {
      assert t[m] == base[m];
    }
    assert OccursAt(close, t, |base|) by {
      forall m | |base| <= m < |base| + |close| ensures t[m] == close[m - |base|] { }
    }
    FirstClose(t, 0, |base|, close);
    CloseOrBreakShift(head, t, 0, close);
  }

  lemma {:induction false} CloseOrBreakShift(p: string, q: string, j: nat, close: string)
    requires j <= |q|
    ensures CloseOrBreak(p + q, |p| + j, close) == |p| + CloseOrBreak(q, j, close)
    decreases |q| - j
  {
    if j < |q| {
      assert (p + q)[|p| + j] == q[j];
      OccursAtShift(close, p, q, j);
      CloseOrBreakShift(p, q, j + 1, close);
    }
  }

  lemma AfterOpenFound(s: string, j: nat, k: nat, close: string)
    requires j < |s| && s[j] == ']' && k == CloseOrBreak(s, j + 1, close)
    requires k < |s| && OccursAt(close, s, k)
    ensures AfterOpen(s, j, close) == Some(Match(j + 1, k, k + |close|))
  {
  }

  /** The scans of a match stop where a construct with base text `s[b..e]` puts its
      annotation's `']'` and its closing tag. */
  predicate ConstructAt(s: string, open: string, close: string, b: nat, e: nat) {
    |open| < b <= e < |s| && OccursAt(open, s, 0)
    && BracketOrBreak(s, |open|) == b - 1 && s[b - 1] == ']'
    && CloseOrBreak(s, b, close) == e && OccursAt(close, s, e)
  }

  lemma ConstructMatch(s: string, open: string, close: string, b: nat, e: nat)
    requires ConstructAt(s, open, close, b, e)
    ensures MatchHere(s, open, close) == Some(Match(b, e, e + |close|))
  {
    AfterOpenFound(s, b - 1, e, close);
  }

  lemma ConstructShape(open: string, annot: string, base: string, close: string, rest: string)
    requires PlainAnnotation(annot) && PlainBase(base, close) && close != []
    ensures var b := |open| + |annot| + 1;
      ConstructAt(open + annot + "]" + base + close + rest, open, close, b, b + |base|)
  {
    var head := open + annot + "]";
    var tail := base + close + rest;
    var s := open + annot + "]" + base + close + rest;
    var b := |open| + |annot| + 1;
    assert s == head + tail && |head| == b;
    assert OccursAt(open, s, 0) by {
      forall m | 0 <= m < |open| ensures s[m] == open[m - 0] { }
    }
    assert BracketOrBreak(s, |open|) == b - 1 && s[b - 1] == ']' by {
      BracketAfterAnnotation(open, annot, tail);
      assert open + annot + "]" + tail == s;
    }
    assert CloseOrBreak(s, b, close) == b + |base| by {
      CloseAfterBase(head, base, close, rest);
    }
    assert OccursAt(close, s, b + |base|) by {
      OccursAtShift(close, head, tail, |base|);
      forall m | |base| <= m < |base| + |close| ensures tail[m] == close[m - |base|] { }
    }
  }

  /** A construct `open + annot + "]" + base + close`, followed by anything, matches as a whole:
      the base text is what lies between the annotation's `']'` and the closing tag. */
  lemma MatchConstruct(open: string, annot: string, base: string, close: string, rest: string)
    requires PlainAnnotation(annot) && PlainBase(base, close) && close != []
    ensures MatchHere(open + annot + "]" + base + close + rest, open, close)
      == Some(Match(|open| + |annot| + 1, |open| + |annot| + 1 + |base|,
                    |open| + |annot| + 1 + |base| + |close|))
  {
    var b := |open| + |annot| + 1;
    ConstructShape(open, annot, base, close, rest);
    ConstructMatch(open + annot + "]" + base + close + rest, open, close, b, b + |base|);
  }

  /** The measurer's substitution `re.sub(..., r'\1', s)`: scanning left to right, every matched
      construct is replaced by its base text and every other character is kept. */
  function Strip(s: string): (r: string)
    ensures |r| <= |s|
    decreases |s|
  {
    if s == [] then ""
    else match MatchHere(s, Open, Close)
      case Some(m) => s[m.bodyStart..m.bodyEnd] + Strip(s[m.end..])
      case None => [s[0]] + Strip(s[1..])
  }

  /** `get_visual_length(s)`: the code points left once constructs are reduced to their
      base text and zero-width spaces are deleted. */
  function VisualLength(s: string): (n: nat)
    ensures n <= |s|
  {
    |Remove(Strip(s), ZeroWidthSpace)|
  }

  lemma {:induction false} StripPlain(s: string)
    requires !Contains(s, Open)
    ensures Strip(s) == s
    decreases |s|
  {
    if s != [] {
      assert !OccursAt(Open, s, 0);
      ContainsTail(s, Open);
      StripPlain(s[1..]);
      assert [s[0]] + s[1..] == s;
    }
  }

  /** Text without constructs and without zero-width spaces measures its length. */
  lemma VisualLengthPlain(s: string)
    requires !Contains(s, Open) && ZeroWidthSpace !in s
    ensures VisualLength(s) == |s|
  {
    StripPlain(s);
    RemoveAbsent(s, ZeroWidthSpace);
  }

  /** A lone construct measures the length of its base text. */
  lemma VisualLengthConstruct(annot: string, base: string)
    requires PlainAnnotation(annot) && PlainBase(base, Close) && ZeroWidthSpace !in base
    ensures VisualLength(Open + annot + "]" + base + Close) == |base|
  {
    var s := Open + annot + "]" + base + Close;
    MatchConstruct(Open, annot, base, Close, "");
    assert s + "" == s;
    var b := |Open| + |annot| + 1;
    assert s[b..b + |base|] == base;
    assert s[|s|..] == "";
    assert Strip(s) == base;
    RemoveAbsent(base, ZeroWidthSpace);
  }
}
