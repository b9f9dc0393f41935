/**
 * The three deduplication kernels. Each input file is a sequence of lines,
 * already decoded and split. A line contributes the identifier it is
 * cleaned to when that identifier passes the validity gate.
 *
 *  - the single-file kernel of the `/username_dedup` route: the sorted set
 *    of identifiers of one file;
 *  - `merge_dedup`: the sorted union of the identifiers of several files,
 *    built by adding to a set in nested loops over files and lines;
 *  - `compare_dedup`: the identifiers of file A not in file B and those of
 *    B not in A, each sorted.
 */
module Dedup {
  import opened StringOrder
  import opened Normalize
  import opened Validity

  /** `x` is what some line of `lines` is cleaned to, and `x` is a valid username. */
  predicate Yields(u: Unicode, p: Policy, lines: seq<string>, x: string)
  {
    IsValidUsername(u, p, x) && exists l :: l in lines && CleanLine(u, l) == x
  }

  /** `x` is yielded by some file of `files`. */
  predicate YieldsAny(u: Unicode, p: Policy, files: seq<seq<string>>, x: string)
  {
    exists f :: f in files && Yields(u, p, f, x)
  }

  /**
   * The set comprehension of valid cleaned lines that `compare_dedup` builds
   * for each of its files and the single-file kernel for its one file.
   */
  function ValidSet(u: Unicode, p: Policy, lines: seq<string>): set<string>
  {
    set l | l in lines && IsValidUsername(u, p, CleanLine(u, l)) :: CleanLine(u, l)
  }

  /** The set holds exactly the identifiers the file yields. */
  lemma ValidSetMembership(u: Unicode, p: Policy, lines: seq<string>)
    ensures forall x :: x in ValidSet(u, p, lines) <==> Yields(u, p, lines, x)
  {
  }

  /** A file without lines yields nothing. */
  lemma ValidSetNoLines(u: Unicode, p: Policy)
    ensures ValidSet(u, p, []) == {}
  {
  }

  /** Taking one more line adds at most its identifier. */
  lemma {:induction false} ValidSetSnoc(u: Unicode, p: Policy, lines: seq<string>, l: string)
    ensures ValidSet(u, p, lines + [l]) ==
      ValidSet(u, p, lines) + (if IsValidUsername(u, p, CleanLine(u, l)) then {CleanLine(u, l)} else {})
  {
    assert forall m :: m in lines + [l] <==> m in lines || m == l;
  }

  /** A line that the deletion and the strip leave empty adds no identifier. */
  lemma EmptyCoreLineAddsNothing(u: Unicode, p: Policy, lines: seq<string>, l: string)
    requires KeepsEmpty(u)
    requires LStripPlusAt(RemoveInvisible(l)) == ""
    ensures ValidSet(u, p, lines + [l]) == ValidSet(u, p, lines)
  {
    ValidSetSnoc(u, p, lines, l);
    EmptyCoreRejected(u, p, l);
  }

  /** The single-file kernel of the `/username_dedup` route. */
  function UsernameDedup(u: Unicode, p: Policy, lines: seq<string>): (r: seq<string>)
    ensures StrictlyAscending(r)
    ensures forall x :: x in r <==> Yields(u, p, lines, x)
  {
    ValidSetMembership(u, p, lines);
    SortSet(ValidSet(u, p, lines))
  }

  /** The contents of the set `merge_dedup` has built after reading the files `files`. */
  function MergeSet(u: Unicode, p: Policy, files: seq<seq<string>>): set<string>
  {
    if files == [] then {}
    else MergeSet(u, p, files[..|files| - 1]) + ValidSet(u, p, files[|files| - 1])
  }

  /** A file list yields what its first files yield and what its last file yields. */
  lemma {:induction false} YieldsAnySnoc(u: Unicode, p: Policy, files: seq<seq<string>>, x: string)
    requires files != []
    ensures YieldsAny(u, p, files, x) <==>
      YieldsAny(u, p, files[..|files| - 1], x) || Yields(u, p, files[|files| - 1], x)
  {
    assert files == files[..|files| - 1] + [files[|files| - 1]];
  }

  lemma {:induction false} MergeSetMembership(u: Unicode, p: Policy, files: seq<seq<string>>)
    ensures forall x :: x in MergeSet(u, p, files) <==> YieldsAny(u, p, files, x)
  {
    if files != [] {
      MergeSetMembership(u, p, files[..|files| - 1]);
      ValidSetMembership(u, p, files[|files| - 1]);
      forall x
        ensures x in MergeSet(u, p, files) <==> YieldsAny(u, p, files, x)
      {
        YieldsAnySnoc(u, p, files, x);
      }
    }
  }

  /** What `merge_dedup` returns: the sorted set of identifiers over all files. */
  function MergeResult(u: Unicode, p: Policy, files: seq<seq<string>>): (r: seq<string>)
    ensures StrictlyAscending(r)
    ensures forall x :: x in r <==> YieldsAny(u, p, files, x)
  {
    MergeSetMembership(u, p, files);
    SortSet(MergeSet(u, p, files))
  }

  /** Reading file `i` adds its identifiers to the set. */
  lemma {:induction false} MergeSetPrefix(u: Unicode, p: Policy, files: seq<seq<string>>, i: int)
    requires 0 <= i < |files|
    ensures MergeSet(u, p, files[..i + 1]) == MergeSet(u, p, files[..i]) + ValidSet(u, p, files[i])
  {
    assert files[..i + 1][..i] == files[..i];
  }

  /** Reading line `j` adds its identifier, if it has a valid one. */
  lemma {:induction false} ValidSetPrefix(u: Unicode, p: Policy, lines: seq<string>, j: int)
    requires 0 <= j < |lines|
    ensures ValidSet(u, p, lines[..j + 1]) ==
      ValidSet(u, p, lines[..j]) +
      (if IsValidUsername(u, p, CleanLine(u, lines[j])) then {CleanLine(u, lines[j])} else {})
  {
    assert lines[..j + 1] == lines[..j] + [lines[j]];
    ValidSetSnoc(u, p, lines[..j], lines[j]);
  }

  /**
   * The inner loop of `merge_dedup`: every line of one file whose cleaned
   * form is a valid username is added to the set.
   */
  method AddValidLines(u: Unicode, p: Policy, allData: set<string>, lines: seq<string>) returns (s: set<string>)
    ensures s == allData + ValidSet(u, p, lines)
  {
    s := allData;
    var j := 0;
    assert lines[..0] == [];
    ValidSetNoLines(u, p);
    while j < |lines|
      invariant 0 <= j <= |lines|
      invariant s == allData + ValidSet(u, p, lines[..j])
    {
      var cleaned := CleanLine(u, lines[j]);
      ValidSetPrefix(u, p, lines, j);
      if IsValidUsername(u, p, cleaned) {
        s := s + {cleaned};
        assert s == allData + ValidSet(u, p, lines[..j + 1]);
      }
      j := j + 1;
    }
    assert lines[..j] == lines;
  }

  /**
   * `merge_dedup`: a loop over the files adds the valid cleaned lines of
   * each to a set, which is then sorted.
   */
  method MergeDedup(u: Unicode, p: Policy, files: seq<seq<string>>) returns (r: seq<string>)
    ensures r == MergeResult(u, p, files)
    ensures StrictlyAscending(r)
    ensures forall x :: x in r <==> YieldsAny(u, p, files, x)
  {
    var allData: set<string> := {};
    var i := 0;
    while i < |files|
      invariant 0 <= i <= |files|
      invariant allData == MergeSet(u, p, files[..i])
    {
      allData := AddValidLines(u, p, allData, files[i]);
      MergeSetPrefix(u, p, files, i);
      i := i + 1;
    }
    assert files[..i] == files;
    r := SortSet(allData);
  }

  /** All the lines of all the files, in order. */
  function Flatten(files: seq<seq<string>>): (all: seq<string>)
    ensures forall l :: l in all <==> exists f :: f in files && l in f
  {
    if files == [] then []
    else
      var front := files[..|files| - 1];
      assert files == front + [files[|files| - 1]];
      Flatten(front) + files[|files| - 1]
  }

  lemma YieldsFlatten(u: Unicode, p: Policy, files: seq<seq<string>>, x: string)
    ensures Yields(u, p, Flatten(files), x) <==> YieldsAny(u, p, files, x)
  {
    if YieldsAny(u, p, files, x) {
      var f :| f in files && Yields(u, p, f, x);
      var l :| l in f && CleanLine(u, l) == x;
      assert l in Flatten(files);
    }
    if Yields(u, p, Flatten(files), x) {
      var l :| l in Flatten(files) && CleanLine(u, l) == x;
      var f :| f in files && l in f;
      assert Yields(u, p, f, x);
    }
  }

  /**
   * Merging several files gives the same list as deduplicating the single
   * file made of all their lines.
   */
  lemma MergeIsDedupOfConcatenation(u: Unicode, p: Policy, files: seq<seq<string>>)
    ensures MergeResult(u, p, files) == UsernameDedup(u, p, Flatten(files))
  {
    forall x
      ensures x in MergeResult(u, p, files) <==> x in UsernameDedup(u, p, Flatten(files))
    {
      YieldsFlatten(u, p, files, x);
    }
    AscendingUnique(MergeResult(u, p, files), UsernameDedup(u, p, Flatten(files)));
  }

  /** Merging one file gives exactly the single-file kernel's result. */
  lemma MergeSingleFile(u: Unicode, p: Policy, lines: seq<string>)
    ensures MergeResult(u, p, [lines]) == UsernameDedup(u, p, lines)
  {
    MergeIsDedupOfConcatenation(u, p, [lines]);
    assert Flatten([lines]) == lines by {
      assert [lines][..0] == [];
    }
  }

  /**
   * The merged list depends only on which files are given: not on their
   * order, nor on a file being given twice.
   */
  lemma MergeOrderIndependent(u: Unicode, p: Policy, files1: seq<seq<string>>, files2: seq<seq<string>>)
    requires forall f :: f in files1 <==> f in files2
    ensures MergeResult(u, p, files1) == MergeResult(u, p, files2)
  {
    assert forall x :: YieldsAny(u, p, files1, x) <==> YieldsAny(u, p, files2, x);
    AscendingUnique(MergeResult(u, p, files1), MergeResult(u, p, files2));
  }

  /** The two lists `compare_dedup` returns. */
  datatype Comparison = Comparison(uniqueA: seq<string>, uniqueB: seq<string>)

  /**
   * `compare_dedup`: the identifiers of A that B lacks and those of B that A
   * lacks, each sorted; no identifier is in both lists.
   */
  function CompareDedup(u: Unicode, p: Policy, a: seq<string>, b: seq<string>): (r: Comparison)
    ensures StrictlyAscending(r.uniqueA) && StrictlyAscending(r.uniqueB)
    ensures forall x :: x in r.uniqueA <==> Yields(u, p, a, x) && !Yields(u, p, b, x)
    ensures forall x :: x in r.uniqueB <==> Yields(u, p, b, x) && !Yields(u, p, a, x)
    ensures forall x :: !(x in r.uniqueA && x in r.uniqueB)
  {
    ValidSetMembership(u, p, a);
    ValidSetMembership(u, p, b);
    var dataA := ValidSet(u, p, a);
    var dataB := ValidSet(u, p, b);
    Comparison(SortSet(dataA - dataB), SortSet(dataB - dataA))
  }

  /** Swapping the two files swaps the two lists. */
  lemma CompareSwap(u: Unicode, p: Policy, a: seq<string>, b: seq<string>)
    ensures CompareDedup(u, p, b, a) == Comparison(CompareDedup(u, p, a, b).uniqueB, CompareDedup(u, p, a, b).uniqueA)
  {
  }

  /** A file compared with itself leaves both lists empty. */
  lemma CompareSelf(u: Unicode, p: Policy, a: seq<string>)
    ensures CompareDedup(u, p, a, a) == Comparison([], [])
  {
    assert ValidSet(u, p, a) - ValidSet(u, p, a) == {};
  }

  /** Compared with an empty file, A's list is the single-file kernel's result for A. */
  lemma CompareWithEmpty(u: Unicode, p: Policy, a: seq<string>)
    ensures CompareDedup(u, p, a, []) == Comparison(UsernameDedup(u, p, a), [])
  {
    assert ValidSet(u, p, []) == {};
    assert ValidSet(u, p, a) - ValidSet(u, p, []) == ValidSet(u, p, a);
  }

  /**
   * The counts the compare route reports: A's list has as many entries as
   * A's single-file result less the identifiers A and B share.
   */
  lemma CompareCount(u: Unicode, p: Policy, a: seq<string>, b: seq<string>)
    ensures |CompareDedup(u, p, a, b).uniqueA| ==
      |UsernameDedup(u, p, a)| - |ValidSet(u, p, a) * ValidSet(u, p, b)|
  {
    var dataA := ValidSet(u, p, a);
    var dataB := ValidSet(u, p, b);
    assert dataA == (dataA - dataB) + (dataA * dataB);
    assert (dataA - dataB) * (dataA * dataB) == {};
  }
}
