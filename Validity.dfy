/**
 * `is_valid_username`: the gate a cleaned line must pass to become an
 * identifier. Empty names and names whose lower-cased form ends in "bot"
 * are rejected. A switch turns on a further check that rejects names
 * containing "bot" or any word of a blacklist; that check is case-sensitive
 * and looks at the name as given, not at its lower-cased form.
 */
module Validity {
  import opened Normalize

  /** The blacklist switch and the blacklist words. */
  datatype Policy = Policy(enableBlacklist: bool, blacklist: seq<string>)

  /** The blacklist words shipped with the program. */
  const SourceBlacklist: seq<string> :=
    ["haihua", "chuhai", "benchi", "818", "databox", "dolphin", "diggoldsl", "juejin"]

  /** The configuration shipped with the program: blacklist switched off. */
  const SourcePolicy: Policy := Policy(false, SourceBlacklist)

  /** Python's `s.endswith(suffix)`. */
  predicate EndsWith(s: string, suffix: string)
  {
    |suffix| <= |s| && s[|s| - |suffix|..] == suffix
  }

  /** `w` occurs in `s` starting at index `k`. */
  predicate OccursAt(s: string, w: string, k: int)
  {
    0 <= k <= |s| - |w| && s[k..k + |w|] == w
  }

  /** Python's `w in s` on strings: `w` occurs in `s` as a contiguous substring. */
  predicate Contains(s: string, w: string)
  {
    exists k :: 0 <= k <= |s| - |w| && OccursAt(s, w, k)
  }

  /** A non-empty word whose first character is absent from `s` does not occur in it. */
  lemma FirstCharAbsent(s: string, w: string)
    requires w != [] && forall i :: 0 <= i < |s| ==> s[i] != w[0]
    ensures !Contains(s, w)
  {
    forall k | 0 <= k <= |s| - |w|
      ensures !OccursAt(s, w, k)
    {
      assert s[k..k + |w|][0] == s[k];
    }
  }

  /**
   * The loop over the blacklist, which returns early on the first word found
   * in `name`: true iff some word of `words` occurs in `name`.
   */
  function AnyWordIn(words: seq<string>, name: string): (r: bool)
    ensures r <==> exists i :: 0 <= i < |words| && Contains(name, words[i])
  {
    if words == [] then false
    else if Contains(name, words[0]) then true
    else AnyWordIn(words[1..], name)
  }

  /** `is_valid_username(name)`. */
  function IsValidUsername(u: Unicode, p: Policy, name: string): (r: bool)
    ensures r ==> name != ""
    ensures r ==> !EndsWith(u.lower(name), "bot")
    ensures r && p.enableBlacklist ==>
      !Contains(name, "bot") && forall i :: 0 <= i < |p.blacklist| ==> !Contains(name, p.blacklist[i])
  {
    if name == "" then false
    else if EndsWith(u.lower(name), "bot") then false
    else if p.enableBlacklist && (Contains(name, "bot") || AnyWordIn(p.blacklist, name)) then false
    else true
  }

  /** A name that passes every check the policy makes is valid. */
  lemma ValidWhenNoCheckFails(u: Unicode, p: Policy, name: string)
    requires name != "" && !EndsWith(u.lower(name), "bot")
    requires p.enableBlacklist ==>
      !Contains(name, "bot") && forall i :: 0 <= i < |p.blacklist| ==> !Contains(name, p.blacklist[i])
    ensures IsValidUsername(u, p, name)
  {
  }

  /**
   * A line that the deletion and the strip leave empty (a blank line, one of
   * only whitespace, or only `+` and `@`) is cleaned to the empty string,
   * which is never a valid username.
   */
  lemma EmptyCoreRejected(u: Unicode, p: Policy, line: string)
    requires KeepsEmpty(u)
    requires LStripPlusAt(RemoveInvisible(line)) == ""
    ensures CleanLine(u, line) == ""
    ensures !IsValidUsername(u, p, CleanLine(u, line))
  {
    CleanLineEmptyCore(u, line);
  }

  /**
   * With the blacklist switched off, as shipped, a name is valid exactly when
   * it is non-empty and its lower-cased form does not end in "bot".
   */
  lemma SourcePolicyValidity(u: Unicode, name: string)
    ensures IsValidUsername(u, SourcePolicy, name) <==> name != "" && !EndsWith(u.lower(name), "bot")
  {
  }

  /**
   * With the blacklist switched on, a name containing "bot" or a blacklist
   * word, exactly as written (case-sensitive), is invalid even when its
   * lower-cased form passes.
   */
  lemma BlacklistRejects(u: Unicode, words: seq<string>, name: string, w: string)
    requires w == "bot" || w in words
    requires Contains(name, w)
    ensures !IsValidUsername(u, Policy(true, words), name)
  {
  }

  /**
   * The blacklist is matched against the name as given: the sample name
   * "JueJin" passes even with the blacklist on, although its lower-cased form
   * contains the blacklist word "juejin".
   */
  lemma BlacklistIsCaseSensitive(u: Unicode)
    requires u.lower("JueJin") == "juejin"
    ensures Contains(u.lower("JueJin"), "juejin")
    ensures IsValidUsername(u, Policy(true, SourceBlacklist), "JueJin")
  {
    assert OccursAt("juejin", "juejin", 0);
    forall i | 0 <= i < |SourceBlacklist|
      ensures !Contains("JueJin", SourceBlacklist[i])
    {
      FirstCharAbsent("JueJin", SourceBlacklist[i]);
    }
    FirstCharAbsent("JueJin", "bot");
  }
}
