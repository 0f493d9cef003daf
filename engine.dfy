/** `process_text` and `check_for_overflow`: a text is flattened, tokenized, given a line count
    by its profile's thresholds and split into that many lines; a block of lines is checked
    against the profile's width limit. */
module Engine {
  import opened Strings
  import opened Flattening
  import opened Ruby
  import opened Tokenizer
  import opened Splitter

  /** A balancing profile: the folder prefixes that select it, the most lines a text may take,
      the total widths above which a text takes two and three lines, and the widest a line may
      be. */
  datatype Profile = Profile(prefixes: seq<string>, maxLines: int, splitFor2: int, splitFor3: int,
                             maxWidth: int)

  /** `file_path.replace("\\", "/")`: the classifiers see forward slashes only. */
  function NormalizePath(path: string): (r: string)
    ensures '\\' !in r && |r| == |path|
    ensures forall k | 0 <= k < |path| :: r[k] == if path[k] == '\\' then '/' else path[k]
  {
    ReplaceChar(path, '\\', '/')
  }

  /** `file_path.replace("\\", "/")` leaves a normalized path as it is. */
  lemma NormalizeIdempotent(path: string)
    ensures NormalizePath(NormalizePath(path)) == NormalizePath(path)
  {
  }

  /** The threshold ladder of `process_text`: the number of lines for a text of total width
      `total`. */
  function TargetLines(total: int, p: Profile): (n: int)
    ensures 1 <= n <= 3
    ensures n == 1 <==> total <= p.splitFor2
    ensures n == 3 ==> p.maxLines >= 3
    ensures p.maxLines >= 2 ==> n <= p.maxLines
  {
    if total <= p.splitFor2 then 1
    else if total <= p.splitFor3 && p.maxLines >= 2 then 2
    else if p.maxLines >= 3 then 3
    else 2
  }

  /** A wider text never gets fewer lines, whatever the thresholds. */
  lemma TargetLinesMonotone(a: int, b: int, p: Profile)
    requires a <= b
    ensures TargetLines(a, p) <= TargetLines(b, p)
  {
  }

  /** The tokens of the flattened text. */
  function TokensOf(text: string): seq<string> {
    Tokenize(Flatten(text))
  }

  /** Total visual width of the flattened text's tokens, one space between neighbours. */
  function TotalOf(text: string): int {
    TotalWidth(VisualLength, TokensOf(text))
  }

  /** The value `process_text(text, profile)` returns: blank text unchanged, any other text
      flattened, tokenized and split into the ladder's number of lines, joined by `'\n'`. */
  function Balance(text: string, p: Profile): string {
    if IsBlank(text) then text
    else JoinWith(Lines(TokensOf(text), TargetLines(TotalOf(text), p)), "\n")
  }

  /** `process_text` as the source writes it. */
  method ProcessText(textContent: string, profile: Profile) returns (r: string)
    ensures r == Balance(textContent, profile)
  {
    if IsBlank(textContent) {
      return textContent;
    }
    var cleanText := Flatten(textContent);
    var words := Tokenize(cleanText);
    var totalLen := TotalWidth(VisualLength, words);
    var targetLines;
    if totalLen <= profile.splitFor2 {
      targetLines := 1;
    } else if totalLen <= profile.splitFor3 && profile.maxLines >= 2 {
      targetLines := 2;
    } else {
      targetLines := if profile.maxLines >= 3 then 3 else 2;
    }
    var finalLines := ForceSplit(VisualLength, words, targetLines);
    r := JoinWith(finalLines, "\n");
  }

  /** Blank text is returned unchanged. */
  lemma BalanceBlank(text: string, p: Profile)
    requires IsBlank(text)
    ensures Balance(text, p) == text
  {
  }

  /** No token of a text holds a line break. */
  lemma TokensNoBreak(text: string)
    ensures Avoids(TokensOf(text), '\n')
  {
    assert '\n' !in Placeholder;
    TokenizeAvoids(Flatten(text), '\n');
  }

  /** The lines of a balanced text are exactly the lines `force_split` made, and there are
      between one and the ladder's number of them; so with `maxLines >= 2` there are at most
      `maxLines`, and always at most three. */
  lemma BalanceLines(text: string, p: Profile)
    requires !IsBlank(text)
    ensures var n := TargetLines(TotalOf(text), p);
      SplitOn(Balance(text, p), '\n') == Lines(TokensOf(text), n)
      && 1 <= |SplitOn(Balance(text, p), '\n')| <= n
    ensures p.maxLines >= 2 ==> |SplitOn(Balance(text, p), '\n')| <= p.maxLines
    ensures |SplitOn(Balance(text, p), '\n')| <= 3
  {
    var n := TargetLines(TotalOf(text), p);
    var lines := Lines(TokensOf(text), n);
    TokensNoBreak(text);
    LinesAvoid(VisualLength, TokensOf(text), n, '\n');
    ForceSplitCount(VisualLength, TokensOf(text), n);
    JoinSplitOn(lines, '\n');
  }

  /** Turning the line breaks of a balanced text back into spaces gives the flattened text:
      balancing only chooses which spaces become line breaks. */
  lemma BalanceRejoin(text: string, p: Profile)
    requires !IsBlank(text) && !Contains(Flatten(text), Placeholder)
    ensures ReplaceChar(Balance(text, p), '\n', ' ') == Flatten(text)
  {
    var n := TargetLines(TotalOf(text), p);
    var lines := Lines(TokensOf(text), n);
    TokensNoBreak(text);
    LinesAvoid(VisualLength, TokensOf(text), n, '\n');
    ReplaceInJoin(lines, '\n', ' ');
    ForceSplitRejoin(VisualLength, TokensOf(text), n);
    TokenizeRoundTrip(Flatten(text));
  }

  /** A text no wider than the first threshold comes back as its flattened form, on one line. */
  lemma BalanceShort(text: string, p: Profile)
    requires !IsBlank(text) && !Contains(Flatten(text), Placeholder)
    requires TotalOf(text) <= p.splitFor2
    ensures Balance(text, p) == Flatten(text)
  {
    TokenizeRoundTrip(Flatten(text));
  }

  /** A balanced text flattens to the same text as the original. */
  lemma FlattenBalance(text: string, p: Profile)
    requires !IsBlank(text) && !Contains(Flatten(text), Placeholder)
    ensures Flatten(Balance(text, p)) == Flatten(text)
  {
    var b, f := Balance(text, p), Flatten(text);
    BalanceRejoin(text, p);
    FlattenNotBlank(text);
    assert b != "";
    RemoveAbsent(f, '\r');
    WordsOfNormalized(f);
  }

  /** Balancing a balanced text changes nothing, so the engine can be run again over its own
      output. */
  lemma BalanceIdempotent(text: string, p: Profile)
    requires IsBlank(text) || !Contains(Flatten(text), Placeholder)
    ensures Balance(Balance(text, p), p) == Balance(text, p)
  {
    if !IsBlank(text) {
      var b := Balance(text, p);
      FlattenBalance(text, p);
      FlattenNotBlank(text);
      if IsBlank(b) {
        FlattenBlank(b);
      }
    }
  }

  /** `check_for_overflow(text_block, max_width)`: the lines are scanned in order and the first
      one wider than `maxWidth` is reported with its width; otherwise `(false, 0)`. The width
      measure is passed in, as for `ForceSplit`; the source measures with `get_visual_length`. */
  method CheckForOverflow(width: string -> nat, textBlock: string, maxWidth: int)
    returns (overflow: bool, visLen: int)
    ensures overflow <==> exists k | 0 <= k < |SplitOn(textBlock, '\n')| ::
      width(SplitOn(textBlock, '\n')[k]) > maxWidth
    ensures overflow ==> exists k | 0 <= k < |SplitOn(textBlock, '\n')| ::
      visLen == width(SplitOn(textBlock, '\n')[k]) > maxWidth
      && forall j | 0 <= j < k :: width(SplitOn(textBlock, '\n')[j]) <= maxWidth
    ensures !overflow ==> visLen == 0
  {
    var lines := SplitOn(textBlock, '\n');
    var i := 0;
    while i < |lines|
      invariant 0 <= i <= |lines|
      invariant forall j | 0 <= j < i :: width(lines[j]) <= maxWidth
    {
      var w := width(lines[i]);
      if w > maxWidth {
        return true, w;
      }
      i := i + 1;
    }
    return false, 0;
  }
}
