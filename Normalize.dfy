/**
 * `clean_line`: the normaliser every input line goes through before it can
 * become an identifier. It deletes invisible and whitespace characters
 * anywhere in the line, strips the whole leading run of `+` and `@`, applies
 * Unicode NFKC normalisation and lower-cases the result.
 *
 * NFKC and `str.lower()` are Unicode library calls. They are parameters of
 * the model (a `Unicode` value carries both), so every property proved here
 * holds whatever those two functions compute.
 */
module Normalize {

  /** The two Unicode library calls the normaliser relies on. */
  datatype Unicode = Unicode(nfkc: string -> string, lower: string -> string)

  /** NFKC and lower-casing map the empty string to itself, as the library calls do. */
  predicate KeepsEmpty(u: Unicode)
  {
    u.nfkc("") == "" && u.lower("") == ""
  }

  /**
   * The characters for which Python's `str.isspace()` holds, which is what
   * `\s` matches in a `str` regular expression.
   */
  predicate IsPythonSpace(c: char)
  {
    ('\t' <= c <= '\r') || ('\U{1C}' <= c <= '\U{1F}') || c == ' ' ||
    c == '\U{85}' || c == '\U{A0}' || c == '\U{1680}' ||
    ('\U{2000}' <= c <= '\U{200A}') || c == '\U{2028}' || c == '\U{2029}' ||
    c == '\U{202F}' || c == '\U{205F}' || c == '\U{3000}'
  }

  /**
   * The character class deleted from every line: zero-width space,
   * left-to-right and right-to-left marks, the byte-order mark, any
   * whitespace, no-break space and tab.
   */
  predicate IsInvisible(c: char)
  {
    c == '\U{200B}' || c == '\U{200E}' || c == '\U{200F}' || c == '\U{FEFF}' ||
    IsPythonSpace(c) || c == '\U{A0}' || c == '\t'
  }

  /** Every character of `s` is visible. */
  predicate AllVisible(s: string)
  {
    forall i :: 0 <= i < |s| ==> !IsInvisible(s[i])
  }

  /** The regular-expression substitution that deletes every invisible character. */
  function RemoveInvisible(s: string): (r: string)
    ensures AllVisible(r)
    ensures |r| <= |s|
  {
    if s == [] then []
    else (if IsInvisible(s[0]) then [] else [s[0]]) + RemoveInvisible(s[1..])
  }

  /** The deletion keeps exactly the visible characters of the line. */
  lemma {:induction false} RemoveInvisibleMembership(s: string)
    ensures forall c :: c in RemoveInvisible(s) <==> c in s && !IsInvisible(c)
  {
    if s != [] {
      RemoveInvisibleMembership(s[1..]);
      assert s == [s[0]] + s[1..];
    }
  }

  /** Deleting invisible characters leaves a line without any untouched. */
  lemma {:induction false} RemoveInvisibleKeepsVisible(s: string)
    requires AllVisible(s)
    ensures RemoveInvisible(s) == s
  {
    if s != [] {
      RemoveInvisibleKeepsVisible(s[1..]);
      assert s == [s[0]] + s[1..];
    }
  }

  /** The deletion works character by character, so it distributes over concatenation. */
  lemma {:induction false} RemoveInvisibleAppend(a: string, b: string)
    ensures RemoveInvisible(a + b) == RemoveInvisible(a) + RemoveInvisible(b)
  {
    if a != [] {
      assert (a + b)[1..] == a[1..] + b;
      RemoveInvisibleAppend(a[1..], b);
    } else {
      assert a + b == b;
    }
  }

  predicate IsPlusOrAt(c: char)
  {
    c == '+' || c == '@'
  }

  /**
   * `lstrip("+@")`: the suffix left after the whole leading run of `+` and
   * `@` is removed. Interior `+` and `@` are kept.
   */
  function LStripPlusAt(s: string): (r: string)
    ensures |r| <= |s| && r == s[|s| - |r|..]
    ensures forall i :: 0 <= i < |s| - |r| ==> IsPlusOrAt(s[i])
    ensures r == [] || !IsPlusOrAt(r[0])
  {
    if s != [] && IsPlusOrAt(s[0]) then LStripPlusAt(s[1..]) else s
  }

  /** Stripping the leading markers from a visible string leaves it visible. */
  lemma StrippedStaysVisible(s: string)
    requires AllVisible(s)
    ensures AllVisible(LStripPlusAt(s))
  {
    var r := LStripPlusAt(s);
    forall i | 0 <= i < |r|
      ensures !IsInvisible(r[i])
    {
      assert r[i] == s[|s| - |r| + i];
    }
  }

  /** `clean_line(line)`. An empty line is returned as it is, before any step runs. */
  function CleanLine(u: Unicode, line: string): (r: string)
    ensures line == "" ==> r == ""
  {
    if line == "" then ""
    else u.lower(u.nfkc(LStripPlusAt(RemoveInvisible(line))))
  }

  /**
   * A non-empty line is cleaned to the lower-cased NFKC form of a core that
   * has no invisible character, does not start with `+` or `@`, and is made
   * only of characters of the line.
   */
  lemma CleanLineShape(u: Unicode, line: string)
    requires line != ""
    ensures exists core: string ::
      && core == LStripPlusAt(RemoveInvisible(line))
      && CleanLine(u, line) == u.lower(u.nfkc(core))
      && AllVisible(core)
      && (core == [] || !IsPlusOrAt(core[0]))
      && (forall c :: c in core ==> c in line)
  {
    var visible := RemoveInvisible(line);
    var core := LStripPlusAt(visible);
    RemoveInvisibleMembership(line);
    assert forall c :: c in core ==> c in visible;
    StrippedStaysVisible(visible);
  }

  /**
   * A non-empty line with no invisible character and no leading `+` or `@`
   * reaches NFKC intact: every character, in order.
   */
  lemma CleanLineOfCore(u: Unicode, line: string)
    requires line != "" && AllVisible(line) && !IsPlusOrAt(line[0])
    ensures CleanLine(u, line) == u.lower(u.nfkc(line))
  {
    RemoveInvisibleKeepsVisible(line);
  }

  /**
   * A line that the deletion and the strip leave empty is cleaned to the
   * empty string, whatever characters it had.
   */
  lemma CleanLineEmptyCore(u: Unicode, line: string)
    requires KeepsEmpty(u)
    requires LStripPlusAt(RemoveInvisible(line)) == ""
    ensures CleanLine(u, line) == ""
  {
  }

  /**
   * An invisible character inserted anywhere into a line does not change
   * what the line is cleaned to. When the line without it is empty, this
   * rests on NFKC and lower-casing keeping the empty string empty.
   */
  lemma CleanLineIgnoresInvisible(u: Unicode, a: string, c: char, b: string)
    requires IsInvisible(c)
    requires a + b != "" || KeepsEmpty(u)
    ensures CleanLine(u, a + [c] + b) == CleanLine(u, a + b)
  {
    assert RemoveInvisible([c]) == [] by {
      assert [c][1..] == [];
    }
    RemoveInvisibleAppend(a, [c]);
    assert RemoveInvisible(a + [c]) == RemoveInvisible(a);
    RemoveInvisibleAppend(a + [c], b);
    RemoveInvisibleAppend(a, b);
    var line := a + [c] + b;
    assert line != "";
  }

  /**
   * A leading `+` or `@` in front of a line makes no difference. When the
   * line is empty, this rests on NFKC and lower-casing keeping the empty
   * string empty.
   */
  lemma CleanLineIgnoresLeadingMarker(u: Unicode, m: char, line: string)
    requires IsPlusOrAt(m)
    requires line != "" || KeepsEmpty(u)
    ensures CleanLine(u, [m] + line) == CleanLine(u, line)
  {
    RemoveInvisibleAppend([m], line);
    assert RemoveInvisible([m]) == [m];
    assert ([m] + RemoveInvisible(line))[1..] == RemoveInvisible(line);
  }
}
