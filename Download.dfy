/**
 * The routes report `len(result)` when a result is computed, and the
 * download routes later recount the written file with `readlines()`. The
 * lemmas here show that the two counts agree for every kernel, provided
 * the Unicode calls never turn a string without line breaks into one with
 * a line break (NFKC and lower-casing introduce neither `"\n"` nor `"\r"`).
 */
module Download {
  import opened Normalize
  import opened Validity
  import opened Dedup
  import opened LineFile

  /** NFKC and lower-casing introduce no line break. */
  ghost predicate KeepsLinesUnbroken(u: Unicode)
  {
    && (forall s :: NoLineBreak(s) ==> NoLineBreak(u.nfkc(s)))
    && (forall s :: NoLineBreak(s) ==> NoLineBreak(u.lower(s)))
  }

  /** A cleaned line has no line break: both are deleted before NFKC runs. */
  lemma CleanedHasNoLineBreak(u: Unicode, line: string)
    requires KeepsLinesUnbroken(u)
    ensures NoLineBreak(CleanLine(u, line))
  {
    if line != "" {
      var core := LStripPlusAt(RemoveInvisible(line));
      StrippedStaysVisible(RemoveInvisible(line));
      assert NoLineBreak(core) by {
        assert forall i :: 0 <= i < |core| ==> core[i] != '\n' && core[i] != '\r';
      }
    }
  }

  /** Identifiers a file yields can be written one per line and counted back. */
  lemma {:induction false} YieldedItemsCountBack(u: Unicode, p: Policy, result: seq<string>, files: seq<seq<string>>)
    requires KeepsLinesUnbroken(u)
    requires forall x :: x in result ==> YieldsAny(u, p, files, x)
    ensures |ReadLines(Join(result))| == |result|
  {
    forall i | 0 <= i < |result|
      ensures result[i] != "" && NoLineBreak(result[i])
    {
      assert YieldsAny(u, p, files, result[i]);
      var f :| f in files && Yields(u, p, f, result[i]);
      var l :| l in f && CleanLine(u, l) == result[i];
      CleanedHasNoLineBreak(u, l);
    }
    JoinReadLinesRoundTrip(result);
  }

  /** `/download` counts as many lines as `/merge` reported. */
  lemma MergeDownloadCount(u: Unicode, p: Policy, files: seq<seq<string>>)
    requires KeepsLinesUnbroken(u)
    ensures |ReadLines(Join(MergeResult(u, p, files)))| == |MergeResult(u, p, files)|
  {
    YieldedItemsCountBack(u, p, MergeResult(u, p, files), files);
  }

  /** `/download_username` counts as many lines as `/username_dedup` reported. */
  lemma UsernameDownloadCount(u: Unicode, p: Policy, lines: seq<string>)
    requires KeepsLinesUnbroken(u)
    ensures |ReadLines(Join(UsernameDedup(u, p, lines)))| == |UsernameDedup(u, p, lines)|
  {
    YieldedItemsCountBack(u, p, UsernameDedup(u, p, lines), [lines]);
  }

  /** `/download_a` and `/download_b` count as many lines as `/compare` reported. */
  lemma CompareDownloadCounts(u: Unicode, p: Policy, a: seq<string>, b: seq<string>)
    requires KeepsLinesUnbroken(u)
    ensures var r := CompareDedup(u, p, a, b);
      |ReadLines(Join(r.uniqueA))| == |r.uniqueA| && |ReadLines(Join(r.uniqueB))| == |r.uniqueB|
  {
    var r := CompareDedup(u, p, a, b);
    YieldedItemsCountBack(u, p, r.uniqueA, [a]);
    YieldedItemsCountBack(u, p, r.uniqueB, [b]);
  }
}
