/**
 * How a result list becomes a file and how the download routes count its
 * lines. The list is written as `"\n".join(result)`, with no newline after
 * the last item; the file is read back in text mode, where `"\r\n"` and a
 * lone `"\r"` both read as `"\n"`, and `readlines()` splits it after every
 * `"\n"`, keeping the newline and keeping a last line that has none.
 */
module LineFile {

  /** `"\n".join(items)`. */
  function Join(items: seq<string>): string
  {
    if |items| == 0 then ""
    else if |items| == 1 then items[0]
    else items[0] + "\n" + Join(items[1..])
  }

  /** All the strings of `parts`, one after the other. */
  function Concat(parts: seq<string>): string
  {
    if parts == [] then "" else parts[0] + Concat(parts[1..])
  }

  /** Neither a line feed nor a carriage return occurs in `s`. */
  predicate NoLineBreak(s: string)
  {
    '\n' !in s && '\r' !in s
  }

  /** The universal-newline translation applied when a file is read in text mode. */
  function Translate(t: string): (r: string)
    ensures '\r' !in r
    ensures '\r' !in t ==> r == t
  {
    if t == [] then []
    else if t[0] == '\r' then "\n" + Translate(if |t| > 1 && t[1] == '\n' then t[2..] else t[1..])
    else [t[0]] + Translate(t[1..])
  }

  /**
   * `readlines()` on translated text `t`, where `cur` is the part of the
   * current line already read. The lines put back together give back the
   * text, no line is empty, every line but the last ends in `"\n"`, and no
   * line has a `"\n"` before its end.
   */
  function SplitLines(t: string, cur: string): (lines: seq<string>)
    ensures Concat(lines) == cur + t
    ensures forall i :: 0 <= i < |lines| ==> lines[i] != ""
    ensures forall i :: 0 <= i < |lines| - 1 ==> lines[i][|lines[i]| - 1] == '\n'
    ensures '\n' !in cur ==> forall i :: 0 <= i < |lines| ==> '\n' !in lines[i][..|lines[i]| - 1]
    decreases |t|
  {
    if t == [] then (if cur == [] then [] else [cur])
    else if t[0] == '\n' then
      var rest := SplitLines(t[1..], []);
      assert cur + t == (cur + "\n") + t[1..];
      [cur + "\n"] + rest
    else
      assert cur + t == (cur + [t[0]]) + t[1..];
      SplitLines(t[1..], cur + [t[0]])
  }

  /** `open(path).readlines()` on a file holding `text`. */
  function ReadLines(text: string): seq<string>
  {
    SplitLines(Translate(text), [])
  }

  lemma {:induction false} JoinHasNoCarriageReturn(items: seq<string>)
    requires forall i :: 0 <= i < |items| ==> NoLineBreak(items[i])
    ensures '\r' !in Join(items)
    decreases |items|
  {
    if |items| > 1 {
      JoinHasNoCarriageReturn(items[1..]);
    }
  }

  /** Reading on through a stretch without a newline only extends the current line. */
  lemma {:induction false} SplitLinesSkip(s: string, t: string, cur: string)
    requires '\n' !in s
    ensures SplitLines(s + t, cur) == SplitLines(t, cur + s)
    decreases |s|
  {
    if s != [] {
      assert (s + t)[0] == s[0] && (s + t)[1..] == s[1..] + t;
      SplitLinesSkip(s[1..], t, cur + [s[0]]);
      assert cur + [s[0]] + s[1..] == cur + s;
    } else {
      assert s + t == t && cur + s == cur;
    }
  }

  /**
   * Writing non-empty items without line breaks joined by `"\n"` and reading
   * the file back gives one line per item: the item, followed by `"\n"` on
   * every line but the last. So the count the download routes compute is
   * the number of items written.
   */
  lemma {:induction false} JoinReadLinesRoundTrip(items: seq<string>)
    requires forall i :: 0 <= i < |items| ==> items[i] != "" && NoLineBreak(items[i])
    ensures |ReadLines(Join(items))| == |items|
    ensures forall i :: 0 <= i < |items| ==>
      ReadLines(Join(items))[i] == items[i] + (if i < |items| - 1 then "\n" else "")
  {
    JoinHasNoCarriageReturn(items);
    SplitJoin(items);
  }

  lemma {:induction false} SplitJoin(items: seq<string>)
    requires forall i :: 0 <= i < |items| ==> items[i] != "" && NoLineBreak(items[i])
    ensures |SplitLines(Join(items), [])| == |items|
    ensures forall i :: 0 <= i < |items| ==>
      SplitLines(Join(items), [])[i] == items[i] + (if i < |items| - 1 then "\n" else "")
    decreases |items|
  {
    if |items| == 1 {
      SplitLinesSkip(items[0], [], []);
      assert items[0] + [] == items[0] && [] + items[0] == items[0];
    } else if |items| > 1 {
      var rest := Join(items[1..]);
      SplitLinesSkip(items[0], "\n" + rest, []);
      assert items[0] + "\n" + rest == items[0] + ("\n" + rest);
      assert ([] + items[0]) == items[0];
      assert ("\n" + rest)[1..] == rest;
      SplitJoin(items[1..]);
    }
  }
}
