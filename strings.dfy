/** The optional value used for "no match" and for the splitter's "no best distance yet". */
module Optional {
  datatype Option<T> = None | Some(value: T)
}

/** Python's string operations the engine relies on: `in`, `sep.join`, `split(sep)`,
    `replace` of one character and `count`, on strings as sequences of code points. */
module Strings {

  /** `sub` occurs in `s` starting at index `i`. */
  predicate OccursAt(sub: string, s: string, i: int) {
    0 <= i && i + |sub| <= |s| && forall m | i <= m < i + |sub| :: s[m] == sub[m - i]
  }

  /** Python's `sub in s`. */
  predicate Contains(s: string, sub: string) {
    exists i :: 0 <= i <= |s| && OccursAt(sub, s, i)
  }

  /** An occurrence in the tail is an occurrence in the whole. */
  lemma ContainsTail(s: string, sub: string)
    requires s != []
    ensures Contains(s[1..], sub) ==> Contains(s, sub)
  {
    if Contains(s[1..], sub) {
      var i :| 0 <= i <= |s[1..]| && OccursAt(sub, s[1..], i);
      OccursAtShift(sub, [s[0]], s[1..], i);
      assert [s[0]] + s[1..] == s;
    }
  }

  /** A text free of `sub` has no occurrence of it in any prefix or suffix. */
  lemma AvoidsSlices(s: string, sub: string, n: int)
    requires 0 <= n <= |s| && !Contains(s, sub)
    ensures !Contains(s[..n], sub) && !Contains(s[n..], sub)
  {
    assert s[..n] + s[n..] == s;
    if Contains(s[..n], sub) {
      var i :| 0 <= i <= |s[..n]| && OccursAt(sub, s[..n], i);
      OccursAtPrefix(sub, s[..n], s[n..], i);
    }
    if Contains(s[n..], sub) {
      var i :| 0 <= i <= |s[n..]| && OccursAt(sub, s[n..], i);
      OccursAtShift(sub, s[..n], s[n..], i);
    }
  }

  lemma OccursAtShift(sub: string, a: string, b: string, p: int)
    requires 0 <= p
    ensures OccursAt(sub, a + b, |a| + p) <==> OccursAt(sub, b, p)
  {
    if p + |sub| <= |b| {
      if OccursAt(sub, b, p) {
        forall m | |a| + p <= m < |a| + p + |sub| ensures (a + b)[m] == sub[m - (|a| + p)] {
          assert (a + b)[m] == b[m - |a|];
        }
      }
      if OccursAt(sub, a + b, |a| + p) {
        forall m | p <= m < p + |sub| ensures b[m] == sub[m - p] {
          assert (a + b)[m + |a|] == b[m];
        }
      }
    }
  }

  lemma OccursAtPrefix(sub: string, a: string, b: string, p: int)
    requires 0 <= p && p + |sub| <= |a|
    ensures OccursAt(sub, a + b, p) <==> OccursAt(sub, a, p)
  {
    assert forall m | p <= m < p + |sub| :: (a + b)[m] == a[m];
  }

  /** `sub` starts `[c] + t` when `c` is its first character and the rest of it starts `t`. */
  lemma OccursAtCons(sub: string, c: char, t: string)
    requires sub != []
    ensures OccursAt(sub, [c] + t, 0) <==> c == sub[0] && OccursAt(sub[1..], t, 0)
  {
    var s := [c] + t;
    if OccursAt(sub, s, 0) {
      assert s[0] == sub[0 - 0];
      forall m | 0 <= m < |sub[1..]| ensures t[m] == sub[1..][m - 0] {
        assert s[m + 1] == sub[m + 1 - 0];
      }
    }
    if c == sub[0] && OccursAt(sub[1..], t, 0) {
      forall m | 0 <= m < |sub| ensures s[m] == sub[m - 0] {
        if m > 0 {
          assert t[m - 1] == sub[1..][m - 1 - 0];
        }
      }
    }
  }

  /** An occurrence of a text is an occurrence of each of its prefixes. */
  lemma ContainsPrefixOf(s: string, sub: string, p: string)
    requires |sub| <= |p| && p[..|sub|] == sub && Contains(s, p)
    ensures Contains(s, sub)
  {
    var i :| 0 <= i <= |s| && OccursAt(p, s, i);
    forall m | i <= m < i + |sub| ensures s[m] == sub[m - i] {
      assert s[m] == p[m - i];
    }
    assert OccursAt(sub, s, i);
  }

  /** A text is what comes before an index followed by what comes after it. */
  lemma SliceJoin(w: string, j: int)
    requires 0 <= j <= |w|
    ensures w[..j] + w[j..] == w
  {
  }

  /** A text free of `sub` has no occurrence of it in either half of a split. */
  lemma AvoidsParts(x: string, y: string, sub: string)
    requires !Contains(x + y, sub)
    ensures !Contains(x, sub) && !Contains(y, sub)
  {
    AvoidsSlices(x + y, sub, |x|);
    assert (x + y)[..|x|] == x && (x + y)[|x|..] == y;
  }

  lemma SplitAround(w: string, j: int)
    requires 0 <= j < |w|
    ensures w == w[..j] + [w[j]] + w[j + 1..] && w == w[..j] + ([w[j]] + w[j + 1..])
  {
    assert w[..j] + w[j..] == w;
    assert w[j..] == [w[j]] + w[j + 1..];
  }

  lemma ConsAppend<T>(c: T, t: seq<T>, y: seq<T>)
    ensures [c] + t + y == [c] + (t + y)
  {
  }

  lemma ConcatAssoc4(a: string, b: string, c: string, d: string)
    ensures a + b + c + d == a + (b + c + d)
  {
  }

  /** Python's `sep.join(parts)`. */
  function JoinWith(parts: seq<string>, sep: string): string {
    if |parts| == 0 then ""
    else if |parts| == 1 then parts[0]
    else parts[0] + sep + JoinWith(parts[1..], sep)
  }

  lemma JoinWithCons(x: string, rest: seq<string>, sep: string)
    requires rest != []
    ensures JoinWith([x] + rest, sep) == x + sep + JoinWith(rest, sep)
  {
    assert ([x] + rest)[1..] == rest;
  }

  /** Joining two non-empty lists puts one separator between their joins. */
  lemma {:induction false} JoinWithAppend(a: seq<string>, b: seq<string>, sep: string)
    requires a != [] && b != []
    ensures JoinWith(a + b, sep) == JoinWith(a, sep) + sep + JoinWith(b, sep)
    decreases |a|
  {
    assert a + b == [a[0]] + (a[1..] + b);
    JoinWithCons(a[0], a[1..] + b, sep);
    if |a| > 1 {
      JoinWithAppend(a[1..], b, sep);
      JoinWithCons(a[0], a[1..], sep);
      assert [a[0]] + a[1..] == a;
    }
  }

  /** A character absent from every part and from the separator is absent from the join. */
  lemma {:induction false} JoinWithAvoids(parts: seq<string>, sep: string, c: char)
    requires forall k | 0 <= k < |parts| :: c !in parts[k]
    requires c !in sep
    ensures c !in JoinWith(parts, sep)
  {
    if |parts| > 1 {
      JoinWithAvoids(parts[1..], sep, c);
    }
  }

  /** Every character of a part is a character of the join. */
  lemma {:induction false} JoinWithKeeps(parts: seq<string>, sep: string, k: int, c: char)
    requires 0 <= k < |parts| && c in parts[k]
    ensures c in JoinWith(parts, sep)
  {
    if |parts| > 1 && k > 0 {
      JoinWithKeeps(parts[1..], sep, k - 1, c);
    }
  }

  /** Python's `s.split(c)` for a one-character separator: the pieces between separators,
      one more piece than there are separators. */
  function SplitOn(s: string, c: char): (r: seq<string>)
    ensures |r| >= 1
    ensures forall k | 0 <= k < |r| :: c !in r[k]
  {
    if s == [] then [[]]
    else
      var rest := SplitOn(s[1..], c);
      if s[0] == c then [[]] + rest
      else [[s[0]] + rest[0]] + rest[1..]
  }

  /** The split of a text with one more character in front. */
  lemma SplitOnCons(x: char, t: string, c: char)
    ensures SplitOn([x] + t, c)
      == if x == c then [[]] + SplitOn(t, c) else [[x] + SplitOn(t, c)[0]] + SplitOn(t, c)[1..]
  {
    assert ([x] + t)[1..] == t;
  }

  /** `c.join(s.split(c)) == s`. */
  lemma {:induction false} SplitOnJoin(s: string, c: char)
    ensures JoinWith(SplitOn(s, c), [c]) == s
    decreases |s|
  {
    if |s| > 0 {
      var x, t := s[0], s[1..];
      assert s == [x] + t;
      var rest := SplitOn(t, c);
      SplitOnCons(x, t, c);
      SplitOnJoin(t, c);
      if x == c {
        JoinWithCons([], rest, [c]);
      } else if |rest| > 1 {
        JoinWithCons([x] + rest[0], rest[1..], [c]);
        JoinWithCons(rest[0], rest[1..], [c]);
        assert [rest[0]] + rest[1..] == rest;
      }
    }
  }

  lemma {:induction false} SplitOnPiece(a: string, c: char)
    requires c !in a
    ensures SplitOn(a, c) == [a]
  {
    if a != [] {
      assert a[0] in a;
      SplitOnPiece(a[1..], c);
      assert [a[0]] + a[1..] == a;
    }
  }

  lemma {:induction false} SplitOnSeparated(a: string, b: string, c: char)
    requires c !in a
    ensures SplitOn(a + [c] + b, c) == [a] + SplitOn(b, c)
  {
    if a == [] {
      assert a + [c] + b == [c] + b;
      assert ([c] + b)[1..] == b;
    } else {
      assert (a + [c] + b)[1..] == a[1..] + [c] + b;
      SplitOnSeparated(a[1..], b, c);
      assert [a[0]] + a[1..] == a;
    }
  }

  /** A character absent from the text is absent from every piece of its split. */
  lemma {:induction false} SplitOnAvoids(s: string, sep: char, c: char)
    requires c !in s
    ensures forall k | 0 <= k < |SplitOn(s, sep)| :: c !in SplitOn(s, sep)[k]
  {
    if s != [] {
      assert s == [s[0]] + s[1..];
      SplitOnAvoids(s[1..], sep, c);
    }
  }

  /** A leading piece without the separator joins the first piece of what follows it. */
  lemma {:induction false} SplitOnPrefix(a: string, b: string, c: char)
    requires c !in a
    ensures SplitOn(a + b, c) == [a + SplitOn(b, c)[0]] + SplitOn(b, c)[1..]
    decreases |a|
  {
    var r := SplitOn(b, c);
    if |a| == 0 {
      assert a + b == b && a + r[0] == r[0];
      assert [r[0]] + r[1..] == r;
    } else {
      var x, u := a[0], a[1..];
      assert x in a && forall d | d in u :: d in a;
      assert a + b == [x] + (u + b);
      SplitOnPrefix(u, b, c);
      SplitOnCons(x, u + b, c);
      assert [x] + (u + r[0]) == a + r[0];
    }
  }

  /** `s.split(c)` undoes `c.join(parts)` when no part holds `c`. */
  lemma {:induction false} JoinSplitOn(parts: seq<string>, c: char)
    requires |parts| >= 1
    requires forall k | 0 <= k < |parts| :: c !in parts[k]
    ensures SplitOn(JoinWith(parts, [c]), c) == parts
  {
    if |parts| == 1 {
      SplitOnPiece(parts[0], c);
    } else {
      JoinSplitOn(parts[1..], c);
      SplitOnSeparated(parts[0], JoinWith(parts[1..], [c]), c);
      assert parts[0] + [c] + JoinWith(parts[1..], [c]) == JoinWith(parts, [c]);
      assert [parts[0]] + parts[1..] == parts;
    }
  }

  /** Python's `s.replace(c, '')`. */
  function Remove(s: string, c: char): (r: string)
    ensures |r| <= |s|
    ensures c !in r
    ensures forall x | x != c :: x in r <==> x in s
  {
    if s == [] then []
    else (if s[0] == c then [] else [s[0]]) + Remove(s[1..], c)
  }

  lemma {:induction false} RemoveAbsent(s: string, c: char)
    requires c !in s
    ensures Remove(s, c) == s
  {
    if s != [] {
      RemoveAbsent(s[1..], c);
    }
  }

  /** Python's `s.replace(a, b)` for one character by one character. */
  function ReplaceChar(s: string, a: char, b: char): (r: string)
    ensures |r| == |s|
    ensures forall k | 0 <= k < |s| :: r[k] == (if s[k] == a then b else s[k])
  {
    if s == [] then []
    else [if s[0] == a then b else s[0]] + ReplaceChar(s[1..], a, b)
  }

  /** Replacing a character by another in a join replaces it in the separator only,
      when no part holds it. */
  lemma ReplaceInJoin(parts: seq<string>, a: char, b: char)
    requires forall k | 0 <= k < |parts| :: a !in parts[k]
    ensures ReplaceChar(JoinWith(parts, [a]), a, b) == JoinWith(parts, [b])
  {
    var x, y := ReplaceChar(JoinWith(parts, [a]), a, b), JoinWith(parts, [b]);
    JoinLengthSame(parts, [a], [b]);
    forall k | 0 <= k < |x|
      ensures x[k] == y[k]
    {
      JoinAt(parts, a, b, k);
    }
  }

  lemma {:induction false} JoinLengthSame(parts: seq<string>, s1: string, s2: string)
    requires |s1| == |s2|
    ensures |JoinWith(parts, s1)| == |JoinWith(parts, s2)|
  {
    if |parts| > 1 {
      JoinLengthSame(parts[1..], s1, s2);
    }
  }

  lemma {:induction false} JoinAt(parts: seq<string>, a: char, b: char, k: int)
    requires forall j | 0 <= j < |parts| :: a !in parts[j]
    requires 0 <= k < |JoinWith(parts, [a])|
    ensures |JoinWith(parts, [b])| == |JoinWith(parts, [a])|
    ensures JoinWith(parts, [b])[k] == (if JoinWith(parts, [a])[k] == a then b else JoinWith(parts, [a])[k])
  {
    JoinLengthSame(parts, [a], [b]);
    if |parts| > 1 {
      var h := parts[0];
      if k < |h| {
        assert JoinWith(parts, [a])[k] == h[k];
        assert JoinWith(parts, [b])[k] == h[k];
        assert h[k] in h;
      } else if k > |h| {
        JoinAt(parts[1..], a, b, k - |h| - 1);
      }
    }
  }

  /** Python's `s.count(c)`. */
  function Count(s: string, c: char): nat {
    if s == [] then 0 else (if s[0] == c then 1 else 0) + Count(s[1..], c)
  }

  lemma {:induction false} CountAppend(a: string, b: string, c: char)
    ensures Count(a + b, c) == Count(a, c) + Count(b, c)
  {
    if a != [] {
      assert (a + b)[1..] == a[1..] + b;
      CountAppend(a[1..], b, c);
    } else {
      assert a + b == b;
    }
  }

  lemma {:induction false} CountAbsent(s: string, c: char)
    requires c !in s
    ensures Count(s, c) == 0
  {
    if s != [] {
      CountAbsent(s[1..], c);
    }
  }

  lemma {:induction false} CountPresent(s: string, c: char)
    requires c in s
    ensures Count(s, c) >= 1
  {
    if s[0] != c {
      assert s == [s[0]] + s[1..];
      CountPresent(s[1..], c);
    }
  }

  /** `s.split(c)` has one more piece than `s` has occurrences of `c`. */
  lemma {:induction false} SplitOnCount(s: string, c: char)
    ensures |SplitOn(s, c)| == Count(s, c) + 1
  {
    if s != [] {
      SplitOnCount(s[1..], c);
    }
  }
}
