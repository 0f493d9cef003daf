/** `clean_and_flatten`: a text block becomes one line of words separated by single spaces. */
module Flattening {
  import opened Strings

  /** Python's `str.isspace` for one character: the separators `str.split()` and
      `str.strip()` use with no argument. */
  predicate IsSpace(c: char) {
    ('\t' <= c <= '\r') || ('\U{1C}' <= c <= '\U{1F}') || c == ' '
    || c == '\U{85}' || c == '\U{A0}' || c == '\U{1680}'
    || ('\U{2000}' <= c <= '\U{200A}') || c == '\U{2028}' || c == '\U{2029}'
    || c == '\U{202F}' || c == '\U{205F}' || c == '\U{3000}'
  }

  /** `not text.strip()`: the text is empty or holds only whitespace. */
  predicate IsBlank(s: string) {
    forall k | 0 <= k < |s| :: IsSpace(s[k])
  }

  /** A word: a non-empty run of non-whitespace characters. */
  predicate IsWord(w: string) {
    w != [] && forall k | 0 <= k < |w| :: !IsSpace(w[k])
  }

  /** No space at either end and never two spaces in a row. */
  predicate SingleSpaced(s: string) {
    (s != [] ==> s[0] != ' ' && s[|s| - 1] != ' ')
    && forall k | 0 <= k < |s| - 1 :: !(s[k] == ' ' && s[k + 1] == ' ')
  }

  /** The shape of a flattened text: single-spaced words and no other whitespace. */
  predicate Normalized(s: string) {
    SingleSpaced(s) && forall k | 0 <= k < |s| :: IsSpace(s[k]) ==> s[k] == ' '
  }

  /** Length of the run of non-whitespace characters that starts `s`. */
  function RunLength(s: string): (n: nat)
    requires s != [] && !IsSpace(s[0])
    ensures 0 < n <= |s|
    ensures forall k | 0 <= k < n :: !IsSpace(s[k])
    ensures n < |s| ==> IsSpace(s[n])
  {
    if |s| == 1 || IsSpace(s[1]) then 1 else 1 + RunLength(s[1..])
  }

  /** Python's `s.split()`: the maximal runs of non-whitespace, in order. */
  function Words(s: string): (r: seq<string>)
    ensures forall k | 0 <= k < |r| :: IsWord(r[k])
    decreases |s|
  {
    if s == [] then []
    else if IsSpace(s[0]) then Words(s[1..])
    else
      var n := RunLength(s);
      [s[..n]] + Words(s[n..])
  }

  /** `clean_and_flatten(text)`: `'\n'` becomes a space, `'\r'` is deleted, and the
      whitespace-separated words are joined by single spaces. */
  function Flatten(text: string): (r: string)
    ensures Normalized(r)
    ensures '\n' !in r && '\r' !in r
    ensures text == "" ==> r == ""
  {
    if text == "" then ""
    else
      var words := Words(Remove(ReplaceChar(text, '\n', ' '), '\r'));
      JoinedWordsNormalized(words);
      JoinWith(words, " ")
  }

  /** A carriage return between two letters is deleted and joins them into one word. */
  lemma ReturnJoins(s: string)
    requires s == "a\rb"
    ensures Flatten(s) == "ab"
  {
    var t := ReplaceChar(s, '\n', ' ');
    assert t == "a\rb" by {
      assert |t| == 3 && t[0] == 'a' && t[1] == '\r' && t[2] == 'b';
    }
    var u := Remove(t, '\r');
    assert u == "ab" by {
      assert u == [t[0]] + Remove(t[1..], '\r');
      assert Remove(t[1..], '\r') == Remove(t[2..], '\r');
      RemoveAbsent(t[2..], '\r');
    }
    WordsOneRun(u);
  }

  /** A line feed between two letters becomes a space and separates them. */
  lemma FeedSeparates(s: string)
    requires s == "a\nb"
    ensures Flatten(s) == "a b"
  {
    var t := ReplaceChar(s, '\n', ' ');
    assert t == "a b" by {
      assert |t| == 3 && t[0] == 'a' && t[1] == ' ' && t[2] == 'b';
    }
    RemoveAbsent(t, '\r');
    WordsAtSpace(t, 1);
    WordsOneRun(t[2..]);
    assert JoinWith([t[..1]] + [t[2..]], " ") == t;
  }

  /** Words joined by single spaces are `Normalized`. */
  lemma {:induction false} JoinedWordsNormalized(ws: seq<string>)
    requires forall k | 0 <= k < |ws| :: IsWord(ws[k])
    ensures Normalized(JoinWith(ws, " "))
  {
    if |ws| > 1 {
      JoinedWordsNormalized(ws[1..]);
      var w, rest := ws[0], JoinWith(ws[1..], " ");
      var j := JoinWith(ws, " ");
      assert j == w + " " + rest;
      assert rest != [] && rest[0] != ' ' by {
        assert IsWord(ws[1]);
        if |ws| > 2 {
          assert rest == ws[1] + " " + JoinWith(ws[2..], " ");
        }
        assert rest[0] == ws[1][0];
      }
      assert IsWord(w);
      forall k | 0 <= k < |j|
        ensures IsSpace(j[k]) ==> j[k] == ' '
      {
        if k < |w| {
          assert j[k] == w[k];
        } else if k > |w| {
          assert j[k] == rest[k - |w| - 1];
        }
      }
      forall k | 0 <= k < |j| - 1
        ensures !(j[k] == ' ' && j[k + 1] == ' ')
      {
        if k < |w| {
          assert j[k] == w[k];
        } else if k > |w| {
          assert j[k] == rest[k - |w| - 1];
          assert j[k + 1] == rest[k - |w|];
        }
      }
    } else if |ws| == 1 {
      assert IsWord(ws[0]);
    }
  }

  /** What follows the first separating space of a normalized text is normalized. */
  lemma NormalizedAfterSpace(s: string, n: nat)
    requires Normalized(s) && n < |s| && s[n] == ' '
    ensures n + 1 < |s| && Normalized(s[n + 1..])
  {
    var t := s[n + 1..];
    assert n + 1 < |s|;
    forall k | 0 <= k < |t| ensures IsSpace(t[k]) ==> t[k] == ' ' {
      assert t[k] == s[n + 1 + k];
    }
    forall k | 0 <= k < |t| - 1 ensures !(t[k] == ' ' && t[k + 1] == ' ') {
      assert t[k] == s[n + 1 + k] && t[k + 1] == s[n + 2 + k];
    }
  }


  /** The first word of a text that continues after a space. */
  lemma WordsAtSpace(s: string, n: nat)
    requires s != [] && !IsSpace(s[0]) && n == RunLength(s) && n < |s| && s[n] == ' '
    ensures Words(s) == [s[..n]] + Words(s[n + 1..])
  {
    assert s[n..][1..] == s[n + 1..];
  }

  /** A normalized text splits into its words and joins back to itself. */
  lemma {:induction false} WordsOfNormalized(s: string)
    requires Normalized(s)
    ensures JoinWith(Words(s), " ") == s
    decreases |s|
  {
    if s != [] {
      var n := RunLength(s);
      if n < |s| {
        var t := s[n + 1..];
        NormalizedAfterSpace(s, n);
        WordsOfNormalized(t);
        WordsAtSpace(s, n);
        JoinWithCons(s[..n], Words(t), " ");
        assert s[..n] + " " + t == s;
      } else {
        WordsOneRun(s);
      }
    }
  }

  lemma WordsOneRun(s: string)
    requires s != [] && !IsSpace(s[0]) && RunLength(s) == |s|
    ensures Words(s) == [s]
  {
    assert s[..|s|] == s;
    assert s[|s|..] == [];
  }

  /** Flattening a flattened text changes nothing. */
  lemma FlattenNormalized(s: string)
    requires Normalized(s)
    ensures Flatten(s) == s
  {
    if s != "" {
      var x := ReplaceChar(s, '\n', ' ');
      assert x == s;
      assert '\r' !in s by {
        if '\r' in s {
          var k :| 0 <= k < |s| && s[k] == '\r';
          assert IsSpace(s[k]);
        }
      }
      RemoveAbsent(s, '\r');
      WordsOfNormalized(s);
    }
  }

  /** `clean_and_flatten` is idempotent. */
  lemma FlattenIdempotent(text: string)
    ensures Flatten(Flatten(text)) == Flatten(text)
  {
    FlattenNormalized(Flatten(text));
  }

  lemma {:induction false} WordsOfBlank(s: string)
    requires IsBlank(s)
    ensures Words(s) == []
  {
    if s != [] {
      WordsOfBlank(s[1..]);
    }
  }

  /** A blank text flattens to the empty string. */
  lemma FlattenBlank(text: string)
    requires IsBlank(text)
    ensures Flatten(text) == ""
  {
    if text != "" {
      var x := Remove(ReplaceChar(text, '\n', ' '), '\r');
      assert IsBlank(x) by {
        forall k | 0 <= k < |x| ensures IsSpace(x[k]) {
          assert x[k] in x;
        }
      }
      WordsOfBlank(x);
    }
  }

  /** A text that is not blank keeps a word when flattened. */
  lemma FlattenNotBlank(text: string)
    requires !IsBlank(text)
    ensures Flatten(text) != ""
  {
    var j :| 0 <= j < |text| && !IsSpace(text[j]);
    var x := Remove(ReplaceChar(text, '\n', ' '), '\r');
    var c := text[j];
    assert ReplaceChar(text, '\n', ' ')[j] == c;
    assert c in x;
    WordsKeep(x, c);
    var ws := Words(x);
    if |ws| == 1 {
      assert JoinWith(ws, " ") == ws[0];
    } else {
      assert JoinWith(ws, " ") == ws[0] + " " + JoinWith(ws[1..], " ");
    }
  }

  lemma {:induction false} WordsKeep(s: string, c: char)
    requires c in s && !IsSpace(c)
    ensures Words(s) != [] && IsWord(Words(s)[0])
    decreases |s|
  {
    if IsSpace(s[0]) {
      WordsKeep(s[1..], c);
    }
  }
}
