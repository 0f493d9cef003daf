/** `tokenize_keeping_ruby_intact`: text is split at spaces, except for the spaces inside a
    ruby-gloss construct, which stays one token.

    The source does this in three steps, and `Tokenize` follows them: the loose pattern's matches
    have their spaces replaced by a placeholder (`Protect`), the text is split at the remaining
    spaces and empty pieces are dropped, and the placeholder is turned back into a space in every
    token (`RestoreSpaces`). `Pieces` is an independent, direct description (cut at every space
    outside a construct); the lemmas show the two agree whenever the text does not already hold
    the placeholder, and derive the round trip and the atomicity of constructs from it. */
module Tokenizer {
  import opened Strings
  import opened Optional
  import opened Ruby
  import opened Flattening

  const Placeholder: string := "<<SPACE>>"

  /** `protect_match`'s replacement: every space of a matched construct becomes the placeholder. */
  function ProtectSpaces(t: string): (r: string)
    ensures ' ' !in r
    ensures r == [] <==> t == []
  {
    if t == [] then [] else (if t[0] == ' ' then Placeholder else [t[0]]) + ProtectSpaces(t[1..])
  }

  /** The tokenizer's `re.sub(loose pattern, protect_match, text)`: scanning left to right, the
      spaces of every matched construct are protected and all other characters are kept. */
  function Protect(s: string): (r: string)
    decreases |s|
  {
    if s == [] then []
    else match MatchHere(s, LooseOpen, Close)
      case Some(m) => ProtectSpaces(s[..m.end]) + Protect(s[m.end..])
      case None => [s[0]] + Protect(s[1..])
  }

  /** `w.replace('<<SPACE>>', ' ')`: occurrences are replaced left to right, without overlap. */
  function RestoreSpaces(w: string): (r: string)
    ensures r == [] <==> w == []
    decreases |w|
  {
    if w == [] then []
    else if OccursAt(Placeholder, w, 0) then " " + RestoreSpaces(w[|Placeholder|..])
    else [w[0]] + RestoreSpaces(w[1..])
  }

  /** `[w for w in ws if w]`. */
  function NonEmpty(ws: seq<string>): (r: seq<string>)
    ensures forall k | 0 <= k < |r| :: r[k] != []
  {
    if ws == [] then [] else (if ws[0] == [] then [] else [ws[0]]) + NonEmpty(ws[1..])
  }

  function ProtectEach(ws: seq<string>): (r: seq<string>)
    ensures |r| == |ws| && forall k | 0 <= k < |ws| :: r[k] == ProtectSpaces(ws[k])
  {
    if ws == [] then [] else [ProtectSpaces(ws[0])] + ProtectEach(ws[1..])
  }

  function RestoreEach(ws: seq<string>): (r: seq<string>)
    ensures |r| == |ws| && forall k | 0 <= k < |ws| :: r[k] == RestoreSpaces(ws[k])
  {
    if ws == [] then [] else [RestoreSpaces(ws[0])] + RestoreEach(ws[1..])
  }

  /** `tokenize_keeping_ruby_intact(text)`; no token is empty. */
  function Tokenize(s: string): (r: seq<string>)
    ensures forall k | 0 <= k < |r| :: r[k] != []
  {
    var raw := NonEmpty(SplitOn(Protect(s), ' '));
    assert forall k | 0 <= k < |raw| :: RestoreSpaces(raw[k]) != [];
    RestoreEach(raw)
  }

  /** The text cut at every space that lies outside a construct matched by the loose pattern;
      each construct, spaces and all, stays inside one piece. */
  function Pieces(s: string): (r: seq<string>)
    ensures |r| >= 1
    decreases |s|
  {
    if s == [] then [[]]
    else match MatchHere(s, LooseOpen, Close)
      case Some(m) =>
        var rest := Pieces(s[m.end..]);
        [s[..m.end] + rest[0]] + rest[1..]
      case None => ConsPiece(s[0], Pieces(s[1..]))
  }

  /** One character in front of the pieces of the rest: a space opens a new, empty piece and
      any other character joins the first piece. */
  function ConsPiece(c: char, rest: seq<string>): (r: seq<string>)
    requires |rest| >= 1
    ensures |r| >= 1
  {
    if c == ' ' then [[]] + rest else [[c] + rest[0]] + rest[1..]
  }

  lemma ConsPieceAppend(c: char, rest: seq<string>, more: seq<string>)
    requires |rest| >= 1
    ensures ConsPiece(c, rest + more) == ConsPiece(c, rest) + more
  {
    if c != ' ' {
      assert (rest + more)[1..] == rest[1..] + more;
    }
  }

  /** The first piece is a prefix of the text. */
  lemma {:induction false} PiecesHeadPrefix(s: string)
    ensures |Pieces(s)[0]| <= |s| && Pieces(s)[0] == s[..|Pieces(s)[0]|]
    decreases |s|
  {
    if s != [] {
      match MatchHere(s, LooseOpen, Close)
      case Some(m) =>
        var rest := Pieces(s[m.end..]);
        PiecesHeadPrefix(s[m.end..]);
        assert s[..m.end] + rest[0] == s[..m.end + |rest[0]|];
      case None =>
        if s[0] != ' ' {
          var rest := Pieces(s[1..]);
          PiecesHeadPrefix(s[1..]);
          assert [s[0]] + rest[0] == s[..1 + |rest[0]|];
        }
    }
  }

  lemma {:induction false} ProtectSpacesAppend(x: string, y: string)
    ensures ProtectSpaces(x + y) == ProtectSpaces(x) + ProtectSpaces(y)
  {
    if x != [] {
      assert (x + y)[1..] == x[1..] + y;
      ProtectSpacesAppend(x[1..], y);
    } else {
      assert x + y == y;
    }
  }

  /** Splitting the protected text at its spaces gives the protected pieces. */
  lemma {:induction false} ProtectSplit(s: string)
    ensures SplitOn(Protect(s), ' ') == ProtectEach(Pieces(s))
    decreases |s|
  {
    if s != [] {
      match MatchHere(s, LooseOpen, Close)
      case Some(m) =>
        var rest := Pieces(s[m.end..]);
        ProtectSplit(s[m.end..]);
        SplitOnPrefix(ProtectSpaces(s[..m.end]), Protect(s[m.end..]), ' ');
        ProtectSpacesAppend(s[..m.end], rest[0]);
      case None =>
        var rest := Pieces(s[1..]);
        ProtectSplit(s[1..]);
        assert ([s[0]] + Protect(s[1..]))[1..] == Protect(s[1..]);
        if s[0] != ' ' {
          ProtectSpacesAppend([s[0]], rest[0]);
        }
    }
  }

  /** First index from `i` holding a space, or `|w|`. */
  function SpaceFrom(w: string, i: nat): (j: nat)
    requires i <= |w|
    ensures i <= j <= |w| && (j < |w| ==> w[j] == ' ')
    ensures forall m | i <= m < j :: w[m] != ' '
    decreases |w| - i
  {
    if i == |w| || w[i] == ' ' then i else SpaceFrom(w, i + 1)
  }

  /** Text without spaces is its own protected form. */
  lemma {:induction false} ProtectSpaceFree(x: string)
    requires ' ' !in x
    ensures ProtectSpaces(x) == x
  {
    if x != [] {
      assert x[0] in x;
      assert forall c | c in x[1..] :: c in x;
      ProtectSpaceFree(x[1..]);
      assert [x[0]] + x[1..] == x;
    }
  }

  /** A space-free prefix is kept as it is and the space after it becomes the placeholder. */
  lemma ProtectAround(pre: string, post: string)
    requires ' ' !in pre
    ensures ProtectSpaces(pre + [' '] + post) == pre + Placeholder + ProtectSpaces(post)
  {
    ProtectSpacesAppend(pre, [' '] + post);
    assert pre + [' '] + post == pre + ([' '] + post);
    ProtectSpaceFree(pre);
    assert ([' '] + post)[1..] == post;
  }

  /** The placeholder holds two `'<'` in a row only at its very beginning. */
  lemma PlaceholderClash(x: string, j: nat)
    requires 1 <= j < |Placeholder| && j + 1 < |x| && x[j] == '<' && x[j + 1] == '<'
    ensures !OccursAt(Placeholder, x, 0)
  {
  }

  /** A placeholder at the front of `pre + Placeholder + post`, with `pre` non-empty, lies
      inside `pre`. */
  lemma PlaceholderBeforeSpace(pre: string, post: string)
    requires pre != [] && OccursAt(Placeholder, pre + Placeholder + post, 0)
    ensures OccursAt(Placeholder, pre, 0)
  {
    var x := pre + Placeholder + post;
    var j := |pre|;
    if j < |Placeholder| {
      assert x[j] == Placeholder[0] && x[j + 1] == Placeholder[1];
      PlaceholderClash(x, j);
      assert false;
    }
    forall m | 0 <= m < |Placeholder| ensures pre[m] == Placeholder[m - 0] {
      assert x[m] == pre[m];
    }
  }

  /** A placeholder at the front of the protected form of a text that starts with no space
      was already at the front of the text: up to the text's first space the protected form
      is the text, and that space becomes a second placeholder, which cannot overlap the
      first. */
  lemma PlaceholderUnprotected(w: string)
    requires w != [] && w[0] != ' ' && OccursAt(Placeholder, ProtectSpaces(w), 0)
    ensures OccursAt(Placeholder, w, 0)
  {
    var j := SpaceFrom(w, 0);
    assert ' ' !in w[..j] by {
      forall m | 0 <= m < j ensures w[..j][m] != ' ' { }
    }
    if j == |w| {
      assert w[..j] == w;
      ProtectSpaceFree(w);
    } else {
      var pre, post := w[..j], w[j + 1..];
      SplitAround(w, j);
      ProtectAround(pre, post);
      PlaceholderBeforeSpace(pre, ProtectSpaces(post));
      OccursAtPrefix(Placeholder, pre, [' '] + post, 0);
    }
  }

  /** Restoring undoes protecting, on text that does not already hold the placeholder. */
  lemma {:induction false} RestoreProtected(w: string)
    requires !Contains(w, Placeholder)
    ensures RestoreSpaces(ProtectSpaces(w)) == w
    decreases |w|
  {
    if w != [] {
      var y := ProtectSpaces(w[1..]);
      ContainsTail(w, Placeholder);
      RestoreProtected(w[1..]);
      if w[0] == ' ' {
        var x := Placeholder + y;
        assert OccursAt(Placeholder, x, 0);
        assert x[|Placeholder|..] == y;
      } else {
        if OccursAt(Placeholder, ProtectSpaces(w), 0) {
          PlaceholderUnprotected(w);
        }
        assert ([w[0]] + y)[1..] == y;
      }
      assert [w[0]] + w[1..] == w;
    }
  }

  /** Every piece of a placeholder-free text is placeholder-free. */
  lemma {:induction false} PiecesAvoid(s: string)
    requires !Contains(s, Placeholder)
    ensures forall k | 0 <= k < |Pieces(s)| :: !Contains(Pieces(s)[k], Placeholder)
    decreases |s|
  {
    if s != [] {
      var r := Pieces(s);
      PiecesHeadPrefix(s);
      AvoidsSlices(s, Placeholder, |r[0]|);
      match MatchHere(s, LooseOpen, Close)
      case Some(m) =>
        AvoidsSlices(s, Placeholder, m.end);
        PiecesAvoid(s[m.end..]);
        assert r[1..] == Pieces(s[m.end..])[1..];
      case None =>
        AvoidsSlices(s, Placeholder, 1);
        PiecesAvoid(s[1..]);
        if s[0] == ' ' {
          assert r[1..] == Pieces(s[1..]);
        } else {
          assert r[1..] == Pieces(s[1..])[1..];
        }
    }
  }

  lemma {:induction false} RestoreNonEmptyProtected(ws: seq<string>)
    requires forall k | 0 <= k < |ws| :: !Contains(ws[k], Placeholder)
    ensures RestoreEach(NonEmpty(ProtectEach(ws))) == NonEmpty(ws)
  {
    if ws != [] {
      assert ProtectEach(ws)[1..] == ProtectEach(ws[1..]);
      RestoreNonEmptyProtected(ws[1..]);
      if ws[0] != [] {
        RestoreProtected(ws[0]);
        var rest := NonEmpty(ProtectEach(ws[1..]));
        assert ([ProtectSpaces(ws[0])] + rest)[1..] == rest;
      }
    }
  }

  /** On text without the placeholder, the tokenizer keeps exactly the non-empty pieces. */
  lemma TokenizePieces(s: string)
    requires !Contains(s, Placeholder)
    ensures Tokenize(s) == NonEmpty(Pieces(s))
  {
    ProtectSplit(s);
    PiecesAvoid(s);
    RestoreNonEmptyProtected(Pieces(s));
  }

  /** The pieces join back to the text with single spaces. */
  lemma {:induction false} PiecesJoin(s: string)
    ensures JoinWith(Pieces(s), " ") == s
    decreases |s|
  {
    if s != [] {
      match MatchHere(s, LooseOpen, Close)
      case Some(m) =>
        PiecesJoin(s[m.end..]);
        JoinHead(s[..m.end], Pieces(s[m.end..]));
        SliceJoin(s, m.end);
      case None =>
        PiecesJoin(s[1..]);
        SplitAround(s, 0);
        assert s[..0] == [];
        if s[0] == ' ' {
          JoinWithCons([], Pieces(s[1..]), " ");
        } else {
          JoinHead([s[0]], Pieces(s[1..]));
        }
    }
  }

  /** Prepending to the first part prepends to the join. */
  lemma JoinHead(x: string, rest: seq<string>)
    requires rest != []
    ensures JoinWith([x + rest[0]] + rest[1..], " ") == x + JoinWith(rest, " ")
  {
    var y := x + rest[0];
    if |rest| == 1 {
      assert [y] + rest[1..] == [y];
    } else {
      var j := JoinWith(rest[1..], " ");
      JoinWithCons(y, rest[1..], " ");
      assert JoinWith(rest, " ") == rest[0] + " " + j;
      ConcatAssoc4(x, rest[0], " ", j);
    }
  }

  /** No space at the end and never two spaces in a row. */
  predicate Spaced(s: string) {
    (s == [] || s[|s| - 1] != ' ') && forall k | 0 <= k < |s| - 1 :: !(s[k] == ' ' && s[k + 1] == ' ')
  }

  lemma SpacedSuffix(s: string, n: nat)
    requires Spaced(s) && n <= |s|
    ensures Spaced(s[n..])
  {
    var t := s[n..];
    forall k | 0 <= k < |t| - 1 ensures !(t[k] == ' ' && t[k + 1] == ' ') {
      assert t[k] == s[n + k] && t[k + 1] == s[n + k + 1];
    }
  }

  /** Text that does not start with `'['` does not start a construct. */
  lemma NoConstructHere(s: string)
    requires s != [] && s[0] != '['
    ensures MatchHere(s, LooseOpen, Close) == None
  {
    assert s[0] != LooseOpen[0 - 0];
  }

  /** Without a trailing space or a double space, no piece after the first is empty, and the
      first is not empty when the text starts with something other than a space. */
  lemma {:induction false} PiecesFilled(s: string)
    requires Spaced(s)
    ensures s != [] && s[0] != ' ' ==> Pieces(s)[0] != []
    ensures forall k | 1 <= k < |Pieces(s)| :: Pieces(s)[k] != []
    decreases |s|
  {
    if s != [] {
      var r := Pieces(s);
      match MatchHere(s, LooseOpen, Close)
      case Some(m) =>
        SpacedSuffix(s, m.end);
        PiecesFilled(s[m.end..]);
        assert r[1..] == Pieces(s[m.end..])[1..];
      case None =>
        var t := s[1..];
        SpacedSuffix(s, 1);
        PiecesFilled(t);
        if s[0] == ' ' {
          assert r[1..] == Pieces(t);
          assert t != [] && t[0] != ' ' by {
            assert s[0] == ' ' && s[1] == t[0];
          }
        } else {
          assert r[1..] == Pieces(t)[1..];
        }
    }
  }

  lemma {:induction false} NonEmptyKeepsFilled(ws: seq<string>)
    requires forall k | 0 <= k < |ws| :: ws[k] != []
    ensures NonEmpty(ws) == ws
  {
    if ws != [] {
      NonEmptyKeepsFilled(ws[1..]);
      assert [ws[0]] + ws[1..] == ws;
    }
  }

  lemma {:induction false} NonEmptyAppend(x: seq<string>, y: seq<string>)
    ensures NonEmpty(x + y) == NonEmpty(x) + NonEmpty(y)
  {
    if x == [] {
      assert x + y == y;
    } else {
      assert (x + y)[1..] == x[1..] + y;
      NonEmptyAppend(x[1..], y);
    }
  }

  /** A single-spaced text without the placeholder is exactly its tokens joined by spaces. */
  lemma TokenizeRoundTrip(s: string)
    requires SingleSpaced(s) && !Contains(s, Placeholder)
    ensures JoinWith(Tokenize(s), " ") == s
  {
    TokenizePieces(s);
    assert Spaced(s);
    PiecesFilled(s);
    if s == [] {
      assert NonEmpty(Pieces(s)) == [];
    } else {
      NonEmptyKeepsFilled(Pieces(s));
    }
    PiecesJoin(s);
  }

  /** Where no construct starts, a space closes the current piece and any other character
      joins it. */
  lemma PiecesNoMatch(s: string)
    requires s != [] && MatchHere(s, LooseOpen, Close) == None
    ensures Pieces(s) == ConsPiece(s[0], Pieces(s[1..]))
  {
  }

  /** A character other than `'['` in front of a text never starts a construct. */
  lemma PiecesCons(c: char, y: string)
    requires c != '['
    ensures Pieces([c] + y) == ConsPiece(c, Pieces(y))
  {
    var s := [c] + y;
    assert s[1..] == y;
    NoConstructHere(s);
    PiecesNoMatch(s);
  }

  /** Text with no `'['` cannot start a construct, so a space after it always cuts. */
  lemma {:induction false} PiecesAppend(a: string, x: string)
    requires '[' !in a
    ensures Pieces(a + (" " + x)) == Pieces(a) + Pieces(x)
    decreases |a|
  {
    if a == [] {
      assert a + (" " + x) == [' '] + x;
      PiecesCons(' ', x);
    } else {
      var c, t := a[0], a[1..];
      assert c in a && forall d | d in t :: d in a;
      PiecesAppend(t, x);
      assert a == [c] + t;
      PiecesAppendCons(c, t, x);
    }
  }

  /** The step of `PiecesAppend`: one character other than `'['` in front. */
  lemma PiecesAppendCons(c: char, t: string, x: string)
    requires c != '[' && Pieces(t + (" " + x)) == Pieces(t) + Pieces(x)
    ensures Pieces([c] + t + (" " + x)) == Pieces([c] + t) + Pieces(x)
  {
    ConsAppend(c, t, " " + x);
    PiecesCons(c, t + (" " + x));
    PiecesCons(c, t);
    ConsPieceAppend(c, Pieces(t), Pieces(x));
  }

  /** A construct of the loose pattern followed by a space is one whole piece. */
  lemma PiecesConstruct(annot: string, base: string, b: string)
    requires PlainAnnotation(annot) && PlainBase(base, Close)
    ensures var r := LooseOpen + annot + "]" + base + Close;
      Pieces(r + (" " + b)) == [r] + Pieces(b)
  {
    var r := LooseOpen + annot + "]" + base + Close;
    var t := " " + b;
    var s := r + t;
    MatchConstruct(LooseOpen, annot, base, Close, t);
    assert (r + t)[..|r|] == r && (r + t)[|r|..] == t;
    NoConstructHere(t);
    assert t[1..] == b;
    assert r + [] == r;
  }

  /** One part of a flattened line: a plain word, or a ruby construct of the loose pattern
      with its annotation and its base text. */
  datatype Part = Word(text: string) | Gloss(annot: string, base: string)

  /** The characters of a part. */
  function Spell(p: Part): string {
    match p
    case Word(w) => w
    case Gloss(annot, base) => LooseOpen + annot + "]" + base + Close
  }

  function SpellEach(ps: seq<Part>): (r: seq<string>)
    ensures |r| == |ps| && forall k | 0 <= k < |ps| :: r[k] == Spell(ps[k])
  {
    if |ps| == 0 then [] else [Spell(ps[0])] + SpellEach(ps[1..])
  }

  /** A plain word is non-empty and holds no space and no `'['`; a construct is well formed. */
  predicate WellFormed(p: Part) {
    match p
    case Word(w) => |w| > 0 && ' ' !in w && '[' !in w
    case Gloss(annot, base) => PlainAnnotation(annot) && PlainBase(base, Close)
  }

  /** A word without spaces and without `'['` is one piece. */
  lemma {:induction false} PiecesWord(w: string)
    requires |w| > 0 && ' ' !in w && '[' !in w
    ensures Pieces(w) == [w]
    decreases |w|
  {
    var t := w[1..];
    assert w == [w[0]] + t;
    PiecesCons(w[0], t);
    if |t| == 0 {
      assert Pieces(t) == [[]];
    } else {
      assert forall d | d in t :: d in w;
      PiecesWord(t);
    }
  }

  /** A well-formed construct alone is one piece. */
  lemma PiecesGloss(annot: string, base: string)
    requires PlainAnnotation(annot) && PlainBase(base, Close)
    ensures Pieces(Spell(Gloss(annot, base))) == [Spell(Gloss(annot, base))]
  {
    var r := Spell(Gloss(annot, base));
    MatchConstruct(LooseOpen, annot, base, Close, "");
    assert r + "" == r;
    assert r[..|r|] == r && r[|r|..] == [];
    assert r + [] == r;
  }

  /** A well-formed part is one piece, alone or followed by a space and more text. */
  lemma PiecesPart(p: Part, y: string)
    requires WellFormed(p)
    ensures Pieces(Spell(p)) == [Spell(p)]
    ensures Pieces(Spell(p) + (" " + y)) == [Spell(p)] + Pieces(y)
  {
    match p
    case Word(w) =>
      PiecesWord(w);
      PiecesAppend(w, y);
    case Gloss(annot, base) =>
      PiecesGloss(annot, base);
      PiecesConstruct(annot, base, y);
  }

  /** The pieces of well-formed parts joined by single spaces are those parts. */
  lemma {:induction false} PiecesOfParts(ps: seq<Part>)
    requires |ps| > 0 && forall p | p in ps :: WellFormed(p)
    ensures Pieces(JoinWith(SpellEach(ps), " ")) == SpellEach(ps)
    decreases |ps|
  {
    var x := Spell(ps[0]);
    assert SpellEach(ps) == [x] + SpellEach(ps[1..]);
    if |ps| == 1 {
      PiecesPart(ps[0], "");
      assert SpellEach(ps) == [x];
    } else {
      var y := JoinWith(SpellEach(ps[1..]), " ");
      JoinWithCons(x, SpellEach(ps[1..]), " ");
      assert x + " " + y == x + (" " + y);
      assert forall p | p in ps[1..] :: p in ps;
      PiecesOfParts(ps[1..]);
      PiecesPart(ps[0], y);
    }
  }

  /** Tokenizing a line of plain words and ruby constructs separated by single spaces gives back
      exactly those words and constructs, in order: every construct, spaces in its annotation
      and base text included, is one token, wherever it stands on the line and however many
      there are. */
  lemma TokenizeKeepsConstruct(ps: seq<Part>)
    requires forall p | p in ps :: WellFormed(p)
    requires !Contains(JoinWith(SpellEach(ps), " "), Placeholder)
    ensures Tokenize(JoinWith(SpellEach(ps), " ")) == SpellEach(ps)
  {
    var s := JoinWith(SpellEach(ps), " ");
    TokenizePieces(s);
    if |ps| == 0 {
      assert s == [];
      assert NonEmpty(Pieces(s)) == [];
    } else {
      PiecesOfParts(ps);
      assert forall k | 0 <= k < |ps| :: ps[k] in ps;
      NonEmptyKeepsFilled(SpellEach(ps));
    }
  }

  lemma {:induction false} ProtectSpacesAvoids(t: string, c: char)
    requires c !in t && c !in Placeholder
    ensures c !in ProtectSpaces(t)
    decreases |t|
  {
    if t != [] {
      assert t == [t[0]] + t[1..];
      ProtectSpacesAvoids(t[1..], c);
    }
  }

  lemma {:induction false} ProtectAvoids(s: string, c: char)
    requires c !in s && c !in Placeholder
    ensures c !in Protect(s)
    decreases |s|
  {
    if s != [] {
      match MatchHere(s, LooseOpen, Close)
      case Some(m) =>
        assert s == s[..m.end] + s[m.end..];
        ProtectSpacesAvoids(s[..m.end], c);
        ProtectAvoids(s[m.end..], c);
      case None =>
        assert s == [s[0]] + s[1..];
        ProtectAvoids(s[1..], c);
    }
  }

  lemma {:induction false} RestoreSpacesAvoids(w: string, c: char)
    requires c !in w && c != ' '
    ensures c !in RestoreSpaces(w)
    decreases |w|
  {
    if w != [] {
      if OccursAt(Placeholder, w, 0) {
        assert w == w[..|Placeholder|] + w[|Placeholder|..];
        RestoreSpacesAvoids(w[|Placeholder|..], c);
      } else {
        assert w == [w[0]] + w[1..];
        RestoreSpacesAvoids(w[1..], c);
      }
    }
  }

  lemma {:induction false} NonEmptyAvoids(ws: seq<string>, c: char)
    requires forall k | 0 <= k < |ws| :: c !in ws[k]
    ensures forall k | 0 <= k < |NonEmpty(ws)| :: c !in NonEmpty(ws)[k]
  {
    if ws != [] {
      NonEmptyAvoids(ws[1..], c);
    }
  }

  /** A character that is neither a space nor part of the placeholder, and is absent from the
      text, is absent from every token: tokenizing only cuts the text. */
  lemma TokenizeAvoids(s: string, c: char)
    requires c !in s && c != ' ' && c !in Placeholder
    ensures forall k | 0 <= k < |Tokenize(s)| :: c !in Tokenize(s)[k]
  {
    ProtectAvoids(s, c);
    SplitOnAvoids(Protect(s), ' ', c);
    var raw := NonEmpty(SplitOn(Protect(s), ' '));
    NonEmptyAvoids(SplitOn(Protect(s), ' '), c);
    forall k | 0 <= k < |raw| ensures c !in RestoreSpaces(raw[k]) {
      RestoreSpacesAvoids(raw[k], c);
    }
  }
}
