/** The profiles of `split.py` and its `get_profile_for_path`: the cinematic prefixes are tried
    first, then the standard ones, by substring containment; there is no folder-suffix rule. */
module SplitProfiles {
  import opened Strings
  import opened Optional
  import opened Engine
  import R = RebalanceProfiles

  /** `CONFIG["profiles"]["cinematic"]`. */
  const Cinematic: Profile := Profile(["msg_ev"], 2, 60, 9999, 75)

  /** `CONFIG["profiles"]["standard"]`: here the mixed folders are standard prefixes. */
  const Standard: Profile := Profile(["msg_nq", "msg_ask", "msg_tq", "msg_tlk", "msg_sq"], 3, 35, 80, 55)

  /** The cinematic profile's ladder: one line up to width 60, two lines above, never three. */
  lemma CinematicLadder(total: int)
    ensures TargetLines(total, Cinematic) == if total <= 60 then 1 else 2
  {
  }

  /** The standard profile's ladder: one line up to width 35, two up to 80, three above. */
  lemma StandardLadder(total: int)
    ensures TargetLines(total, Standard) == if total <= 35 then 1 else if total <= 80 then 2 else 3
  {
  }

  /** The classification of a path already normalized to forward slashes. */
  function Classify(s: string): (r: Option<Profile>)
    ensures r == None || r == Some(Standard) || r == Some(Cinematic)
  {
    if exists k | 0 <= k < |Cinematic.prefixes| :: Contains(s, Cinematic.prefixes[k]) then Some(Cinematic)
    else if exists k | 0 <= k < |Standard.prefixes| :: Contains(s, Standard.prefixes[k]) then Some(Standard)
    else None
  }

  /** `get_profile_for_path(file_path)`. */
  function ProfileFor(path: string): (r: Option<Profile>)
    ensures r == None || r == Some(Standard) || r == Some(Cinematic)
  {
    Classify(NormalizePath(path))
  }

  /** `get_profile_for_path` as the source writes it: a loop over each prefix list with an early
      return. */
  method GetProfileForPath(filePath: string) returns (r: Option<Profile>)
    ensures r == ProfileFor(filePath)
  {
    var normPath := NormalizePath(filePath);
    var cinematic := Cinematic.prefixes;
    for k := 0 to |cinematic|
      invariant forall j | 0 <= j < k :: !Contains(normPath, cinematic[j])
    {
      if Contains(normPath, cinematic[k]) {
        return Some(Cinematic);
      }
    }
    var standard := Standard.prefixes;
    for k := 0 to |standard|
      invariant forall j | 0 <= j < k :: !Contains(normPath, standard[j])
    {
      if Contains(normPath, standard[k]) {
        return Some(Standard);
      }
    }
    return None;
  }

  /** `msg_ev` wins over every standard prefix; a path with neither has no profile. */
  lemma PrefixOrder(s: string)
    ensures Classify(s) == if Contains(s, "msg_ev") then Some(Cinematic)
      else if Contains(s, "msg_nq") || Contains(s, "msg_ask") || Contains(s, "msg_tq")
           || Contains(s, "msg_tlk") || Contains(s, "msg_sq") then Some(Standard)
      else None
  {
    var st := Standard.prefixes;
    assert st[0] == "msg_nq" && st[1] == "msg_ask" && st[2] == "msg_tq" && st[3] == "msg_tlk"
      && st[4] == "msg_sq";
    assert Cinematic.prefixes[0] == "msg_ev";
  }

  /** `msg_` + `x` + `q` occurs at the start of `t`. */
  lemma FolderAt(x: char, rest: string)
    ensures OccursAt("msg_" + [x] + "q", "msg_" + [x] + "q" + rest, 0)
  {
    var t := "msg_" + [x] + "q" + rest;
    forall m | 0 <= m < 6 ensures t[m] == ("msg_" + [x] + "q")[m - 0] { }
  }

  /** A `msg_nq`, `msg_tq` or `msg_sq` folder is standard whatever follows it, unless `msg_ev`
      occurs in the path. */
  lemma NoSuffixRule(pre: string, x: char, rest: string)
    requires x in "nts" && !Contains(pre + ("msg_" + [x] + "q" + rest), "msg_ev")
    ensures Classify(pre + ("msg_" + [x] + "q" + rest)) == Some(Standard)
  {
    var t := "msg_" + [x] + "q" + rest;
    var s := pre + t;
    FolderAt(x, rest);
    OccursAtShift("msg_" + [x] + "q", pre, t, 0);
    assert Contains(s, "msg_" + [x] + "q") by {
      assert OccursAt("msg_" + [x] + "q", s, |pre|);
    }
    if x == 'n' {
      assert "msg_" + [x] + "q" == "msg_nq";
    } else if x == 't' {
      assert "msg_" + [x] + "q" == "msg_tq";
    } else {
      assert "msg_" + [x] + "q" == "msg_sq";
    }
    PrefixOrder(s);
  }

  /** A path in which `msg_` does not occur gets no profile. */
  lemma NoMsgNoProfile(s: string)
    requires !Contains(s, "msg_")
    ensures Classify(s) == None
  {
    forall p | p in ["msg_ev", "msg_nq", "msg_ask", "msg_tq", "msg_tlk", "msg_sq"] ensures !Contains(s, p) {
      if Contains(s, p) {
        ContainsPrefixOf(s, "msg_", p);
      }
    }
    PrefixOrder(s);
  }

  /** The two scripts disagree on a mixed folder without a standard suffix: the rebalancer
      makes it cinematic, this script standard. */
  lemma ScriptsDisagreeOnMixed(pre: string, x: char, digits: string, rest: string)
    requires !Contains(pre, "msg_") && x in "nts"
    requires |digits| > 0 && forall j | 0 <= j < |digits| :: R.IsDigit(digits[j])
    requires |rest| == 0 || (!R.IsDigit(rest[0]) && !R.StandardSuffix(rest[0]))
    requires !Contains(pre + ("msg_" + [x] + "q" + digits + rest), "msg_ev")
    ensures R.Classify(pre + ("msg_" + [x] + "q" + digits + rest)) == Some(R.Cinematic)
    ensures Classify(pre + ("msg_" + [x] + "q" + digits + rest)) == Some(Standard)
  {
    R.MixedName(pre, x, digits, rest);
    assert "msg_" + [x] + "q" + digits + rest == "msg_" + [x] + "q" + (digits + rest);
    NoSuffixRule(pre, x, digits + rest);
  }

  /** The two scripts disagree on a path holding both `msg_ev` and `msg_ask` and no mixed
      folder: the rebalancer tries the standard prefixes first, this script the cinematic one. */
  lemma ScriptsDisagreeOnPrefixes(s: string)
    requires R.FirstMixed(s, 0).None? && Contains(s, "msg_ev") && Contains(s, "msg_ask")
    ensures R.Classify(s) == Some(R.Standard)
    ensures Classify(s) == Some(Cinematic)
  {
    R.PrefixOrder(s);
    PrefixOrder(s);
  }
}
