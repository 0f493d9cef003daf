/** `force_split`: a token list is cut into at most `numLines` lines whose visual widths come
    as close as possible to an equal share, walking each line greedily from the left.

    The source measures the distance `abs(len_with - total / num_lines)` in floating point and
    starts from `float('inf')`. Here the distance is scaled by `numLines`, which keeps every
    comparison (see `ScaledDistance`), and "no best distance yet" is `None`. */
module Splitter {
  import opened Strings
  import opened Optional
  import opened Ruby

  function Abs(x: int): nat {
    if x < 0 then -x else x
  }

  /** Sum of the tokens' widths. */
  function WidthSum(width: string -> nat, words: seq<string>): nat {
    if words == [] then 0 else width(words[0]) + WidthSum(width, words[1..])
  }

  /** `total_visual_len`: the widths plus one space between neighbours (`-1` for no tokens). */
  function TotalWidth(width: string -> nat, words: seq<string>): int {
    WidthSum(width, words) + |words| - 1
  }

  /** `len_with`: the running width after a token of width `w`; the separating space counts
      only once the running width is positive. */
  function Extend(cur: nat, w: nat): nat {
    cur + w + (if cur > 0 then 1 else 0)
  }

  /** `abs(w - total / n)`, multiplied by `n`. */
  function Distance(n: int, total: int, w: int): nat {
    Abs(n * w - total)
  }

  function RealAbs(x: real): real {
    if x < 0.0 then -x else x
  }

  /** Multiplying by a positive `n` keeps the order of distances to the target `total / n`. */
  lemma ScaledDistance(n: int, total: int, a: int, b: int)
    requires n > 0
    ensures (Distance(n, total, a) <= Distance(n, total, b))
      == (RealAbs(a as real - total as real / n as real) <= RealAbs(b as real - total as real / n as real))
  {
    var t := total as real / n as real;
    ScaleAbs(n, total, a);
    ScaleAbs(n, total, b);
    RealOrder(Distance(n, total, a) as real, Distance(n, total, b) as real, n as real,
              RealAbs(a as real - t), RealAbs(b as real - t));
  }

  lemma RealOrder(p: real, q: real, c: real, u: real, v: real)
    requires c > 0.0 && p == c * u && q == c * v
    ensures p <= q <==> u <= v
  {
    if u <= v {
      assert q - p == c * (v - u);
    } else {
      assert p - q == c * (u - v);
    }
  }

  lemma ScaleAbs(n: int, total: int, a: int)
    requires n > 0
    ensures Distance(n, total, a) as real == n as real * RealAbs(a as real - total as real / n as real)
  {
    var t := total as real / n as real;
    var c := n as real;
    assert c * t == total as real;
    var x := a as real - t;
    assert (n * a - total) as real == c * x;
    if x < 0.0 {
      assert c * x < 0.0;
      assert RealAbs(x) == -x;
      assert c * (-x) == -(c * x);
    }
  }

  /** The inner `for` loop from token `i` on, with running width `cur` and best distance `best`:
      the number of tokens the line takes. */
  function Walk(width: string -> nat, ws: seq<string>, n: int, total: int, i: nat, cur: nat, best: Option<nat>): (k: nat)
    requires i <= |ws|
    ensures i <= k <= |ws|
    decreases |ws| - i
  {
    if i == |ws| then i
    else
      var lenWith := Extend(cur, width(ws[i]));
      var d := Distance(n, total, lenWith);
      if best.None? || d <= best.value then Walk(width, ws, n, total, i + 1, lenWith, Some(d)) else i
  }

  /** `best_split` for one line. */
  function Cut(width: string -> nat, ws: seq<string>, n: int, total: int): (k: nat)
    ensures k <= |ws|
  {
    Walk(width, ws, n, total, 0, 0, None)
  }

  /** Reference definition: the running width of a line, token by token. */
  function LineWidth(width: string -> nat, g: seq<string>): nat {
    if g == [] then 0 else Extend(LineWidth(width, g[..|g| - 1]), width(g[|g| - 1]))
  }

  /** Scaled distance of the line made of the first `j` tokens. */
  function PrefixDistance(width: string -> nat, ws: seq<string>, n: int, total: int, j: nat): nat
    requires j <= |ws|
  {
    Distance(n, total, LineWidth(width, ws[..j]))
  }

  lemma LineWidthNext(width: string -> nat, ws: seq<string>, i: nat)
    requires i < |ws|
    ensures LineWidth(width, ws[..i + 1]) == Extend(LineWidth(width, ws[..i]), width(ws[i]))
  {
    assert ws[..i + 1][..i] == ws[..i];
  }

  lemma {:induction false} WalkRegression(width: string -> nat, ws: seq<string>, n: int, total: int, i: nat, cur: nat, best: Option<nat>)
    requires i <= |ws| && cur == LineWidth(width, ws[..i])
    requires best == if i == 0 then None else Some(PrefixDistance(width, ws, n, total, i))
    requires forall j | 1 <= j < i :: PrefixDistance(width, ws, n, total, j + 1) <= PrefixDistance(width, ws, n, total, j)
    ensures var k := Walk(width, ws, n, total, i, cur, best);
      (ws != [] ==> 1 <= k)
      && (forall j | 1 <= j < k :: PrefixDistance(width, ws, n, total, j + 1) <= PrefixDistance(width, ws, n, total, j))
      && (1 <= k < |ws| ==> PrefixDistance(width, ws, n, total, k + 1) > PrefixDistance(width, ws, n, total, k))
    decreases |ws| - i
  {
    if i < |ws| {
      LineWidthNext(width, ws, i);
      var lenWith := Extend(cur, width(ws[i]));
      var d := Distance(n, total, lenWith);
      assert d == PrefixDistance(width, ws, n, total, i + 1);
      if best.None? || d <= best.value {
        WalkRegression(width, ws, n, total, i + 1, lenWith, Some(d));
      }
    }
  }

  /** Each line takes tokens while the distance to the target does not grow (ties go to the
      longer line) and stops at the first token that would make it strictly worse; it always
      takes a first token when one remains. */
  lemma CutFirstRegression(width: string -> nat, ws: seq<string>, n: int, total: int)
    ensures var k := Cut(width, ws, n, total);
      (ws != [] ==> 1 <= k)
      && (forall j | 1 <= j < k :: PrefixDistance(width, ws, n, total, j + 1) <= PrefixDistance(width, ws, n, total, j))
      && (1 <= k < |ws| ==> PrefixDistance(width, ws, n, total, k + 1) > PrefixDistance(width, ws, n, total, k))
  {
    assert ws[..0] == [];
    WalkRegression(width, ws, n, total, 0, 0, None);
  }

  /** The outer loop with `rounds` passes left: the token groups of the lines. */
  function Groups(width: string -> nat, ws: seq<string>, n: int, total: int, rounds: nat): seq<seq<string>>
    decreases rounds
  {
    if rounds == 0 then (if ws == [] then [] else [ws])
    else
      var k := Cut(width, ws, n, total);
      if ws[k..] == [] then [ws[..k]] else [ws[..k]] + Groups(width, ws[k..], n, total, rounds - 1)
  }

  /** Every line joins its tokens with single spaces. */
  function JoinEach(gs: seq<seq<string>>): (r: seq<string>)
    ensures |r| == |gs|
  {
    if gs == [] then [] else [JoinWith(gs[0], " ")] + JoinEach(gs[1..])
  }

  lemma {:induction false} JoinEachAt(gs: seq<seq<string>>, k: nat)
    requires k < |gs|
    ensures JoinEach(gs)[k] == JoinWith(gs[k], " ")
  {
    if k > 0 {
      JoinEachAt(gs[1..], k - 1);
    }
  }

  lemma JoinEachCons(g: seq<string>, gs: seq<seq<string>>)
    ensures JoinEach([g] + gs) == [JoinWith(g, " ")] + JoinEach(gs)
  {
    assert ([g] + gs)[1..] == gs;
  }

  function Concat(gs: seq<seq<string>>): seq<string> {
    if gs == [] then [] else gs[0] + Concat(gs[1..])
  }

  /** `force_split(words, num_lines)` for any measure of token width. */
  function LinesBy(width: string -> nat, words: seq<string>, numLines: int): seq<string> {
    if numLines <= 1 then [JoinWith(words, " ")]
    else JoinEach(Groups(width, words, numLines, TotalWidth(width, words), numLines - 1))
  }

  /** `force_split(words, num_lines)`, measuring tokens with `get_visual_length`. */
  function Lines(words: seq<string>, numLines: int): seq<string> {
    LinesBy(VisualLength, words, numLines)
  }

  /** One pass of the outer loop: the line it commits and the passes after it. */
  lemma GroupsStep(width: string -> nat, ws: seq<string>, n: int, total: int, rounds: nat)
    requires rounds >= 1
    ensures var k := Cut(width, ws, n, total);
      JoinEach(Groups(width, ws, n, total, rounds))
      == [JoinWith(ws[..k], " ")]
         + (if ws[k..] == [] then [] else JoinEach(Groups(width, ws[k..], n, total, rounds - 1)))
  {
    var k := Cut(width, ws, n, total);
    if ws[k..] != [] {
      JoinEachCons(ws[..k], Groups(width, ws[k..], n, total, rounds - 1));
    }
  }

  /** The groups hold the tokens in order, none lost, none repeated. */
  lemma {:induction false} GroupsConcat(width: string -> nat, ws: seq<string>, n: int, total: int, rounds: nat)
    ensures Concat(Groups(width, ws, n, total, rounds)) == ws
    decreases rounds
  {
    if rounds == 0 {
      if ws != [] {
        assert Concat([ws]) == ws + Concat([]);
      }
    } else {
      var k := Cut(width, ws, n, total);
      var gs := Groups(width, ws, n, total, rounds);
      if ws[k..] == [] {
        assert ws[..k] == ws;
        assert Concat([ws]) == ws + Concat([]);
      } else {
        GroupsConcat(width, ws[k..], n, total, rounds - 1);
        assert gs[1..] == Groups(width, ws[k..], n, total, rounds - 1);
        assert ws[..k] + ws[k..] == ws;
      }
    }
  }

  /** With at least one pass, there are between one and `rounds + 1` groups; no group is empty
      unless the token list is, and then the only line is empty. */
  lemma {:induction false} GroupsShape(width: string -> nat, ws: seq<string>, n: int, total: int, rounds: nat)
    requires rounds >= 1
    ensures var gs := Groups(width, ws, n, total, rounds);
      1 <= |gs| <= rounds + 1
      && (ws == [] ==> gs == [[]])
      && (ws != [] ==> forall g | g in gs :: g != [])
    decreases rounds
  {
    var k := Cut(width, ws, n, total);
    CutFirstRegression(width, ws, n, total);
    if ws[k..] != [] && rounds > 1 {
      GroupsShape(width, ws[k..], n, total, rounds - 1);
    } else if ws[k..] != [] {
      assert Groups(width, ws[k..], n, total, 0) == [ws[k..]];
    }
  }

  lemma {:induction false} JoinConcat(gs: seq<seq<string>>)
    requires gs != [] && forall g | g in gs :: g != []
    ensures JoinWith(JoinEach(gs), " ") == JoinWith(Concat(gs), " ")
    decreases |gs|
  {
    if |gs| == 1 {
      assert gs[1..] == [];
      assert JoinEach(gs) == [JoinWith(gs[0], " ")];
      assert Concat(gs) == gs[0] + Concat([]);
      assert gs[0] + [] == gs[0];
    } else {
      var rest := gs[1..];
      assert forall g | g in rest :: g in gs;
      JoinConcat(rest);
      assert [gs[0]] + rest == gs;
      JoinEachCons(gs[0], rest);
      JoinWithCons(JoinWith(gs[0], " "), JoinEach(rest), " ");
      assert gs[0] in gs;
      assert Concat(rest) != [] by {
        assert rest[0] in gs;
      }
      JoinWithAppend(gs[0], Concat(rest), " ");
    }
  }

  /** One line for `numLines <= 1`, otherwise between one and `numLines` lines. */
  lemma ForceSplitCount(width: string -> nat, words: seq<string>, numLines: int)
    ensures numLines <= 1 ==> |LinesBy(width, words, numLines)| == 1
    ensures numLines >= 2 ==> 1 <= |LinesBy(width, words, numLines)| <= numLines
  {
    if numLines >= 2 {
      GroupsShape(width, words, numLines, TotalWidth(width, words), numLines - 1);
    }
  }

  /** The lines, joined back with spaces, are the tokens joined with spaces: only the choice of
      where to break differs. */
  lemma ForceSplitRejoin(width: string -> nat, words: seq<string>, numLines: int)
    ensures JoinWith(LinesBy(width, words, numLines), " ") == JoinWith(words, " ")
  {
    if numLines >= 2 {
      var total := TotalWidth(width, words);
      var gs := Groups(width, words, numLines, total, numLines - 1);
      GroupsShape(width, words, numLines, total, numLines - 1);
      GroupsConcat(width, words, numLines, total, numLines - 1);
      if words != [] {
        JoinConcat(gs);
      } else {
        assert JoinEach(gs) == [""];
      }
    }
  }

  /** The inner loop of `force_split`: walk the remaining tokens while the distance to the
      target does not grow, and return how many the line takes. */
  method BestSplit(width: string -> nat, current: seq<string>, numLines: int, total: int)
    returns (bestSplit: nat)
    ensures bestSplit == Cut(width, current, numLines, total)
  {
    bestSplit := 0;
    var bestDiff: Option<nat> := None;
    var currentWidth := 0;
    var i := 0;
    while i < |current|
      invariant 0 <= i <= |current| && bestSplit == i
      invariant Walk(width, current, numLines, total, i, currentWidth, bestDiff)
        == Cut(width, current, numLines, total)
    {
      var lenWith := Extend(currentWidth, width(current[i]));
      var diff := Distance(numLines, total, lenWith);
      if bestDiff.None? || diff <= bestDiff.value {
        bestDiff := Some(diff);
        bestSplit := i + 1;
        currentWidth := lenWith;
      } else {
        break;
      }
      i := i + 1;
    }
  }

  /** `force_split` as the source writes it: `numLines - 1` passes, each committing one line,
      and the tokens left over as the last line. The width measure is passed in; the engine
      passes `VisualLength`, the source's `get_visual_length`. */
  method ForceSplit(width: string -> nat, words: seq<string>, numLines: int)
    returns (lines: seq<string>)
    ensures lines == LinesBy(width, words, numLines)
  {
    if numLines <= 1 {
      return [JoinWith(words, " ")];
    }
    var total := TotalWidth(width, words);
    lines := [];
    var current := words;
    var round := 0;
    while round < numLines - 1
      invariant 0 <= round <= numLines - 1
      invariant Progress(lines, current) == Passes(width, words, numLines, total, round)
      invariant round > 0 ==> current != []
    {
      var bestSplit := BestSplit(width, current, numLines, total);
      lines := lines + [JoinWith(current[..bestSplit], " ")];
      current := current[bestSplit..];
      if current == [] {
        assert Progress(lines, current) == Passes(width, words, numLines, total, round + 1);
        PassesStop(width, words, numLines, total, round + 1, numLines - 1);
        break;
      }
      round := round + 1;
    }
    ForceSplitDone(width, words, numLines, lines, current);
    if current != [] {
      lines := lines + [JoinWith(current, " ")];
    }
  }

  /** After the last pass, the committed lines and the leftover tokens as one more line are the
      lines of the specification. */
  lemma ForceSplitDone(width: string -> nat, words: seq<string>, numLines: int, lines: seq<string>,
                       current: seq<string>)
    requires numLines > 1
    requires Progress(lines, current) == Passes(width, words, numLines, TotalWidth(width, words), numLines - 1)
    ensures (if current != [] then lines + [JoinWith(current, " ")] else lines) == LinesBy(width, words, numLines)
  {
    PassesLines(width, words, numLines, TotalWidth(width, words), numLines - 1);
  }

  /** The state of `force_split`'s outer loop: the lines committed and the tokens left. */
  datatype Progress = Progress(lines: seq<string>, current: seq<string>)

  /** The state after `r` passes of the outer loop. The first pass always runs; a later one
      runs only while tokens are left, as the source breaks out once none are. */
  function Passes(width: string -> nat, words: seq<string>, n: int, total: int, r: nat): Progress
    decreases r
  {
    if r == 0 then Progress([], words)
    else
      var p := Passes(width, words, n, total, r - 1);
      if r > 1 && p.current == [] then p
      else
        var k := Cut(width, p.current, n, total);
        Progress(p.lines + [JoinWith(p.current[..k], " ")], p.current[k..])
  }

  /** Once no token is left, later passes change nothing. */
  lemma {:induction false} PassesStop(width: string -> nat, words: seq<string>, n: int, total: int, r: nat, last: nat)
    requires 1 <= r <= last && Passes(width, words, n, total, r).current == []
    ensures Passes(width, words, n, total, last) == Passes(width, words, n, total, r)
    decreases last
  {
    if last > r {
      PassesStop(width, words, n, total, r, last - 1);
    }
  }

  /** The lines still to come for the tokens left with `rounds` passes to go. */
  function Pending(width: string -> nat, current: seq<string>, n: int, total: int, rounds: nat): seq<string> {
    if current == [] then [] else JoinEach(Groups(width, current, n, total, rounds))
  }

  /** After `r` of `rounds` passes, the committed lines followed by the lines still to come are
      the lines of the specification. */
  lemma {:induction false} PassesGroups(width: string -> nat, words: seq<string>, n: int, total: int, r: nat, rounds: nat)
    requires 1 <= r <= rounds
    ensures var p := Passes(width, words, n, total, r);
      p.lines + Pending(width, p.current, n, total, rounds - r)
      == JoinEach(Groups(width, words, n, total, rounds))
    decreases r
  {
    if r == 1 {
      PassesGroupsFirst(width, words, n, total, r, rounds);
    } else {
      PassesGroups(width, words, n, total, r - 1, rounds);
      PassesGroupsNext(width, words, n, total, r, rounds);
    }
  }

  lemma PassesGroupsFirst(width: string -> nat, words: seq<string>, n: int, total: int, r: nat, rounds: nat)
    requires r == 1 <= rounds
    ensures var p := Passes(width, words, n, total, r);
      p.lines + Pending(width, p.current, n, total, rounds - r)
      == JoinEach(Groups(width, words, n, total, rounds))
  {
    GroupsStep(width, words, n, total, rounds);
    assert Passes(width, words, n, total, 0) == Progress([], words);
  }

  lemma PassesGroupsNext(width: string -> nat, words: seq<string>, n: int, total: int, r: nat, rounds: nat)
    requires 2 <= r <= rounds
    requires var p := Passes(width, words, n, total, r - 1);
      p.lines + Pending(width, p.current, n, total, rounds - (r - 1))
      == JoinEach(Groups(width, words, n, total, rounds))
    ensures var p := Passes(width, words, n, total, r);
      p.lines + Pending(width, p.current, n, total, rounds - r)
      == JoinEach(Groups(width, words, n, total, rounds))
  {
    PassesPending(width, words, n, total, r, rounds - (r - 1), rounds - r);
  }

  /** A pass after the first leaves the committed lines followed by the pending ones as they
      were. */
  lemma PassesPending(width: string -> nat, words: seq<string>, n: int, total: int, r: nat, m: nat,
                      m2: nat)
    requires 2 <= r && m == m2 + 1
    ensures var p, q := Passes(width, words, n, total, r - 1), Passes(width, words, n, total, r);
      q.lines + Pending(width, q.current, n, total, m2) == p.lines + Pending(width, p.current, n, total, m)
  {
    var p := Passes(width, words, n, total, r - 1);
    if |p.current| > 0 {
      var k := Cut(width, p.current, n, total);
      assert Passes(width, words, n, total, r)
        == Progress(p.lines + [JoinWith(p.current[..k], " ")], p.current[k..]);
      PendingStep(width, p.lines, p.current, n, total, m, m2);
    }
  }

  /** One more pass moves the first pending line to the committed ones. */
  lemma PendingStep(width: string -> nat, lines: seq<string>, c: seq<string>, n: int, total: int, m: nat,
                    m2: nat)
    requires m == m2 + 1 && c != []
    ensures var k := Cut(width, c, n, total);
      lines + Pending(width, c, n, total, m)
      == (lines + [JoinWith(c[..k], " ")]) + Pending(width, c[k..], n, total, m2)
  {
    var k := Cut(width, c, n, total);
    GroupsStep(width, c, n, total, m);
    var later := Pending(width, c[k..], n, total, m2);
    assert lines + ([JoinWith(c[..k], " ")] + later) == (lines + [JoinWith(c[..k], " ")]) + later;
  }

  /** After the last pass, the lines committed and the last line of leftover tokens, if any,
      are the lines of the specification. */
  lemma PassesLines(width: string -> nat, words: seq<string>, n: int, total: int, rounds: nat)
    requires rounds >= 1
    ensures var p := Passes(width, words, n, total, rounds);
      p.lines + (if p.current == [] then [] else [JoinWith(p.current, " ")])
      == JoinEach(Groups(width, words, n, total, rounds))
  {
    PassesGroups(width, words, n, total, rounds, rounds);
    var p := Passes(width, words, n, total, rounds);
    if p.current == [] {
      assert p.lines + [] == p.lines;
    }
  }

  /** No token of the list holds `c`. */
  predicate Avoids(ws: seq<string>, c: char) {
    forall k | 0 <= k < |ws| :: c !in ws[k]
  }

  lemma {:induction false} GroupsAvoid(width: string -> nat, ws: seq<string>, n: int, total: int, rounds: nat, c: char)
    requires Avoids(ws, c)
    ensures forall g | g in Groups(width, ws, n, total, rounds) :: Avoids(g, c)
    decreases rounds
  {
    if rounds > 0 {
      var k := Cut(width, ws, n, total);
      assert Avoids(ws[..k], c) by {
        forall j | 0 <= j < k ensures c !in ws[..k][j] {
          assert ws[..k][j] == ws[j];
        }
      }
      if ws[k..] != [] {
        assert Avoids(ws[k..], c) by {
          forall j | 0 <= j < |ws| - k ensures c !in ws[k..][j] {
            assert ws[k..][j] == ws[k + j];
          }
        }
        GroupsAvoid(width, ws[k..], n, total, rounds - 1, c);
      }
    }
  }

  /** A character that no token holds and that is not a space appears in no line. */
  lemma LinesAvoid(width: string -> nat, words: seq<string>, numLines: int, c: char)
    requires Avoids(words, c) && c != ' '
    ensures Avoids(LinesBy(width, words, numLines), c)
  {
    if numLines <= 1 {
      JoinWithAvoids(words, " ", c);
    } else {
      var gs := Groups(width, words, numLines, TotalWidth(width, words), numLines - 1);
      GroupsAvoid(width, words, numLines, TotalWidth(width, words), numLines - 1, c);
      forall k | 0 <= k < |JoinEach(gs)| ensures c !in JoinEach(gs)[k] {
        assert gs[k] in gs;
        JoinWithAvoids(gs[k], " ", c);
        JoinEachAt(gs, k);
      }
    }
  }
}
