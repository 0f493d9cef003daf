/** The profiles of `Rebalance-Xenoblade3.py` and its `get_profile_for_path`.

    A path is first searched for the "mixed" folder pattern `(msg_[ncst]q\d+)([a-zA-Z]?)`; its
    leftmost match decides alone, by the letter after the digits. Only without a match are the
    standard prefixes tried, then the cinematic ones, by substring containment. */
module RebalanceProfiles {
  import opened Strings
  import opened Optional
  import opened Engine

  /** `CONFIG["profiles"]["cinematic"]`: dialogue boxes of at most two lines. */
  const Cinematic: Profile := Profile(["msg_ev"], 2, 60, 9999, 75)

  /** `CONFIG["profiles"]["standard"]`: voiced and bubble text of up to three lines. */
  const Standard: Profile := Profile(["msg_ask", "msg_fev", "msg_tlk"], 3, 35, 80, 55)

  /** The cinematic profile's ladder: one line up to width 60, two lines above, never three. */
  lemma CinematicLadder(total: int)
    ensures TargetLines(total, Cinematic) == if total <= 60 then 1 else 2
  {
  }

  /** The standard profile's ladder: one line up to width 35, two up to 80, three above. */
  lemma StandardLadder(total: int)
    ensures TargetLines(total, Standard) == if total <= 35 then 1 else if total <= 80 then 2 else 3
  {
  }

  /** `\d`, read as the ASCII digits. */
  predicate IsDigit(c: char) {
    '0' <= c <= '9'
  }

  /** `[a-zA-Z]`. */
  predicate IsLetter(c: char) {
    'a' <= c <= 'z' || 'A' <= c <= 'Z'
  }

  /** `msg_[ncst]q\d` starts at `i`: the mixed pattern can match from there. */
  predicate MixedAt(s: string, i: int) {
    0 <= i && i + 7 <= |s| && OccursAt("msg_", s, i) && s[i + 4] in "ncst" && s[i + 5] == 'q'
    && IsDigit(s[i + 6])
  }

  /** The end of the run of digits from `j`: where the greedy `\d+` stops. */
  function DigitsEnd(s: string, j: nat): (e: nat)
    requires j <= |s|
    ensures j <= e <= |s|
    ensures forall m | j <= m < e :: IsDigit(s[m])
    ensures e < |s| ==> !IsDigit(s[e])
    decreases |s| - j
  {
    if j == |s| || !IsDigit(s[j]) then j else DigitsEnd(s, j + 1)
  }

  /** Where `re.search` finds its leftmost match, searching from `i`. */
  function FirstMixed(s: string, i: nat): (r: Option<nat>)
    requires i <= |s|
    ensures r.Some? ==> i <= r.value && MixedAt(s, r.value)
    ensures r.Some? ==> forall m | i <= m < r.value :: !MixedAt(s, m)
    ensures r.None? ==> forall m | i <= m <= |s| :: !MixedAt(s, m)
    decreases |s| - i
  {
    if i == |s| then None else if MixedAt(s, i) then Some(i) else FirstMixed(s, i + 1)
  }

  /** `mixed_match.group(2)` for a match at `i`: the letter right after the digits, if any. */
  function MixedSuffix(s: string, i: nat): (r: Option<char>)
    requires MixedAt(s, i)
    ensures r.Some? ==> IsLetter(r.value)
  {
    var e := DigitsEnd(s, i + 6);
    if e < |s| && IsLetter(s[e]) then Some(s[e]) else None
  }

  /** `suffix.lower() in ['f', 't', 's']`. */
  predicate StandardSuffix(c: char) {
    c in "fFtTsS"
  }

  /** The classification of a path already normalized to forward slashes. */
  function Classify(s: string): (r: Option<Profile>)
    ensures r == None || r == Some(Standard) || r == Some(Cinematic)
    ensures FirstMixed(s, 0).Some? ==> r.Some?
  {
    match FirstMixed(s, 0)
    case Some(i) =>
      var suffix := MixedSuffix(s, i);
      if suffix.Some? && StandardSuffix(suffix.value) then Some(Standard) else Some(Cinematic)
    case None =>
      if exists k | 0 <= k < |Standard.prefixes| :: Contains(s, Standard.prefixes[k]) then Some(Standard)
      else if exists k | 0 <= k < |Cinematic.prefixes| :: Contains(s, Cinematic.prefixes[k]) then Some(Cinematic)
      else None
  }

  /** `get_profile_for_path(file_path)`. */
  function ProfileFor(path: string): (r: Option<Profile>)
    ensures r == None || r == Some(Standard) || r == Some(Cinematic)
  {
    Classify(NormalizePath(path))
  }

  /** `get_profile_for_path` as the source writes it: the regular-expression search, then a loop
      over each prefix list with an early return. */
  method GetProfileForPath(filePath: string) returns (r: Option<Profile>)
    ensures r == ProfileFor(filePath)
  {
    var normPath := NormalizePath(filePath);
    var mixedMatch := FirstMixed(normPath, 0);
    if mixedMatch.Some? {
      var suffix := MixedSuffix(normPath, mixedMatch.value);
      if suffix.Some? && StandardSuffix(suffix.value) {
        return Some(Standard);
      }
      return Some(Cinematic);
    }
    var standard := Standard.prefixes;
    for k := 0 to |standard|
      invariant forall j | 0 <= j < k :: !Contains(normPath, standard[j])
    {
      if Contains(normPath, standard[k]) {
        return Some(Standard);
      }
    }
    var cinematic := Cinematic.prefixes;
    for k := 0 to |cinematic|
      invariant forall j | 0 <= j < k :: !Contains(normPath, cinematic[j])
    {
      if Contains(normPath, cinematic[k]) {
        return Some(Cinematic);
      }
    }
    return None;
  }

  /** The characters of a mixed folder name `msg_` + `x` + `q` + digits, followed by `rest`. */
  lemma MixedNameShape(x: char, digits: string, rest: string)
    ensures var t := "msg_" + [x] + "q" + digits + rest;
      |t| == 6 + |digits| + |rest| && OccursAt("msg_", t, 0) && t[4] == x && t[5] == 'q'
      && (forall j | 0 <= j < |digits| :: t[6 + j] == digits[j])
      && (forall j | 0 <= j < |rest| :: t[6 + |digits| + j] == rest[j])
  {
    var t := "msg_" + [x] + "q" + digits + rest;
    assert OccursAt("msg_", t, 0) by {
      forall m | 0 <= m < 4 ensures t[m] == "msg_"[m - 0] { }
    }
  }

  /** No mixed match can start inside a text free of `msg_` that is followed by `msg_`. */
  lemma NoMixedBefore(pre: string, t: string)
    requires !Contains(pre, "msg_") && OccursAt("msg_", t, 0)
    ensures forall m | 0 <= m < |pre| :: !MixedAt(pre + t, m)
  {
    var s := pre + t;
    forall m | 0 <= m < |pre| ensures !MixedAt(s, m) {
      if MixedAt(s, m) {
        if m + 4 <= |pre| {
          OccursAtPrefix("msg_", pre, t, m);
        }
      }
    }
  }

  /** The leftmost mixed match of such a path is the folder name after `pre`, and its group 2
      is the letter that follows the digits, if one does. */
  lemma MixedNameMatch(pre: string, x: char, digits: string, rest: string)
    requires !Contains(pre, "msg_") && x in "ncst"
    requires |digits| > 0 && forall j | 0 <= j < |digits| :: IsDigit(digits[j])
    requires |rest| == 0 || !IsDigit(rest[0])
    ensures var s := pre + ("msg_" + [x] + "q" + digits + rest);
      FirstMixed(s, 0) == Some(|pre|) && MixedAt(s, |pre|)
      && MixedSuffix(s, |pre|) == if |rest| > 0 && IsLetter(rest[0]) then Some(rest[0]) else None
  {
    var t := "msg_" + [x] + "q" + digits + rest;
    var s := pre + t;
    var p := |pre|;
    MixedNameShape(x, digits, rest);
    NoMixedBefore(pre, t);
    assert forall j | 0 <= j < |t| :: s[p + j] == t[j];
    assert OccursAt("msg_", s, p) by {
      OccursAtShift("msg_", pre, t, 0);
    }
    assert s[p + 6] == digits[0];
    assert MixedAt(s, p);
    assert FirstMixed(s, 0) == Some(p);
    var e := DigitsEnd(s, p + 6);
    assert e == p + 6 + |digits|;
    if |rest| > 0 {
      assert s[e] == rest[0];
    }
  }

  lemma ClassifyMixed(s: string)
    requires FirstMixed(s, 0).Some?
    ensures var suffix := MixedSuffix(s, FirstMixed(s, 0).value);
      Classify(s) == if suffix.Some? && StandardSuffix(suffix.value) then Some(Standard) else Some(Cinematic)
  {
  }

  /** A mixed folder name decides alone, whatever else the path holds: a trailing `f`, `t` or
      `s` in either case selects the standard profile, and no letter or any other letter
      selects the cinematic one. */
  lemma MixedName(pre: string, x: char, digits: string, rest: string)
    requires !Contains(pre, "msg_") && x in "ncst"
    requires |digits| > 0 && forall j | 0 <= j < |digits| :: IsDigit(digits[j])
    requires |rest| == 0 || !IsDigit(rest[0])
    ensures Classify(pre + ("msg_" + [x] + "q" + digits + rest))
      == if |rest| > 0 && StandardSuffix(rest[0]) then Some(Standard) else Some(Cinematic)
  {
    MixedNameMatch(pre, x, digits, rest);
    ClassifyMixed(pre + ("msg_" + [x] + "q" + digits + rest));
  }

  /** Without a mixed match, a standard prefix wins over a cinematic one, a cinematic prefix
      alone selects the cinematic profile, and a path with neither has no profile. */
  lemma PrefixOrder(s: string)
    requires FirstMixed(s, 0).None?
    ensures Classify(s) == if Contains(s, "msg_ask") || Contains(s, "msg_fev") || Contains(s, "msg_tlk")
      then Some(Standard)
      else if Contains(s, "msg_ev") then Some(Cinematic)
      else None
  {
    var st := Standard.prefixes;
    assert st[0] == "msg_ask" && st[1] == "msg_fev" && st[2] == "msg_tlk";
    assert Cinematic.prefixes[0] == "msg_ev";
  }

  /** A path in which `msg_` does not occur gets no profile. */
  lemma NoMsgNoProfile(s: string)
    requires !Contains(s, "msg_")
    ensures Classify(s) == None
  {
    assert FirstMixed(s, 0).None?;
    forall p | p in ["msg_ask", "msg_fev", "msg_tlk", "msg_ev"] ensures !Contains(s, p) {
      if Contains(s, p) {
        ContainsPrefixOf(s, "msg_", p);
      }
    }
    PrefixOrder(s);
  }

  /** Backslash and slash separators classify alike. */
  lemma SeparatorsAlike(path: string)
    ensures ProfileFor(NormalizePath(path)) == ProfileFor(path)
  {
    NormalizeIdempotent(path);
  }
}
