# Identifier dedup tool: a verified model of its dedup pipeline

The tool is a small Flask application. It cleans lists of identifiers (user names, one per line) that users upload, merges several lists, or compares two of them. It then offers the sorted result as a text file. This project models its synchronous pipeline in Dafny:

- `clean_line`, the normaliser every line goes through. It deletes invisible and whitespace characters, strips the leading run of `+` and `@`, applies NFKC and lower-cases the result (`Normalize.dfy`).
- `is_valid_username`, the gate a cleaned line must pass. It has the blacklist switch and the blacklist words the program ships with (`Validity.dfy`).
- Python's ordering of strings and `sorted()` on a set of strings (`StringOrder.dfy`).
- The three set kernels (`Dedup.dfy`):
  - the single-file kernel of the `/username_dedup` route;
  - `merge_dedup`, modelled as a method with the same loop over files and loop over lines, proved against a specification function;
  - `compare_dedup`.
- The way each result is written as `"\n".join(result)` and counted back with `readlines()` by the download routes (`LineFile.dfy`, `Download.dfy`).
- A concrete input showing that `clean_line` is not idempotent (`CleanLineWitness.dfy`).

The Unicode library calls `unicodedata.normalize('NFKC', …)` and `str.lower()` are parameters of the model: a `Unicode` value carries both functions. Every property of the kernels therefore holds whatever those two functions compute, except for the members listed under "## Left out". Those assume that the two functions map the empty string to itself (`KeepsEmpty`) or never introduce a line break (`KeepsLinesUnbroken`). The whitespace class `\s` is written out as the code points for which Python's `str.isspace()` holds. Each uploaded file enters the model already decoded and split into lines, as a `seq<string>`.

The program's accompanying description speaks of an asynchronous job registry, with job ids, progress, states and exactly-once retrieval. `app.py` has no such registry: every route computes its result synchronously and keeps a temporary-file path in the session. The model follows the code.

## Model

| member | source | states |
|---|---|---|
| StringOrder.LessIrreflexive | app.py:59 | No string sorts before itself under Python's code-point order. |
| StringOrder.LessAsymmetric | app.py:59 | If `a < b`, then `b < a` does not hold. |
| StringOrder.LessTransitive | app.py:59 | The string order is transitive. |
| StringOrder.LessTotal | app.py:59 | Any two distinct strings are ordered one way or the other. |
| StringOrder.SortSet | app.py:59 | `sorted()` of a set is strictly ascending, holds exactly the elements of the set, and is as long as the set is large. |
| StringOrder.AscendingUnique | app.py:59 | Two strictly ascending sequences with the same elements are equal, so the sorted output of a set is unique. |
| Normalize.RemoveInvisible | app.py:20 | After the substitution, no zero-width space, direction mark, byte-order mark, no-break space, tab or whitespace character remains anywhere in the line, and the line is no longer than before. |
| Normalize.RemoveInvisibleMembership | app.py:20 | A character is in the result if and only if it is in the line and is not one of the deleted characters. |
| Normalize.RemoveInvisibleKeepsVisible | app.py:20 | A line without deleted characters is left unchanged. |
| Normalize.RemoveInvisibleAppend | app.py:20 | The deletion works character by character, so it distributes over concatenation. |
| Normalize.LStripPlusAt | app.py:21 | `lstrip("+@")` returns a suffix of its input. Every removed character is `+` or `@`, so interior ones are kept. The result does not start with `+` or `@`, so the whole leading run is removed. |
| Normalize.CleanLine | app.py:18-19 | The empty line is cleaned to the empty string. |
| Normalize.CleanLineShape | app.py:16-23 | A non-empty line is cleaned to the lower-cased NFKC form of its core. The core is what the deletion and then the strip leave of the line. It has no deleted character, does not start with `+` or `@`, and holds only characters of the line. |
| Normalize.CleanLineOfCore | app.py:20-23 | A non-empty line with no deleted character and no leading `+` or `@` reaches NFKC intact, every character in order. Together with the two "Ignores" lemmas, this fixes what every line is cleaned to. |
| Normalize.StrippedStaysVisible | app.py:20-21 | The strip keeps a string without deleted characters free of them, so the core NFKC receives is visible. |
| Normalize.CleanLineEmptyCore | app.py:18-23 | A line that the deletion and the strip leave empty is cleaned to the empty string, given that NFKC and lower-casing map "" to "". |
| Normalize.CleanLineIgnoresInvisible | app.py:20 | Inserting a deleted character anywhere into a line does not change what it is cleaned to. For any NFKC and lower-casing this holds when the rest of the line is non-empty; for all lines it holds when both map "" to "". |
| Normalize.CleanLineIgnoresLeadingMarker | app.py:21 | Putting `+` or `@` in front of a line does not change what it is cleaned to. For any NFKC and lower-casing this holds when the line is non-empty; for all lines it holds when both map "" to "". |
| Validity.AnyWordIn | app.py:44-46 | The early-return loop over the blacklist is true if and only if some blacklist word occurs in the name as a substring. |
| Validity.IsValidUsername | app.py:32-47 | A valid name is non-empty and its lower-cased form does not end in "bot". With the switch on, a valid name also contains neither "bot" nor any blacklist word, as written and case-sensitively. |
| Validity.ValidWhenNoCheckFails | app.py:32-47 | Conversely, a name that passes every check the switch calls for is valid. |
| Validity.EmptyCoreRejected | app.py:34-35 | A blank line, or one of only whitespace, invisible characters, `+` and `@`, is cleaned to "" and rejected as invalid. |
| Validity.SourcePolicyValidity | app.py:26-47 | With the shipped configuration (switch off), a name is valid if and only if it is non-empty and its lower-cased form does not end in "bot". |
| Validity.BlacklistRejects | app.py:41-46 | With the switch on, a name containing "bot" or a blacklist word as a substring is invalid. |
| Validity.BlacklistIsCaseSensitive | app.py:27-46 | The matching is case-sensitive on the name as given: "JueJin" passes with the switch on, although its lower-cased form contains the blacklist word "juejin". |
| Dedup.ValidSetMembership | app.py:65 | The comprehension holds exactly the cleaned lines of the file that are valid usernames. |
| Dedup.EmptyCoreLineAddsNothing | app.py:65 | Adding a line that the deletion and the strip leave empty adds nothing to a file's set of identifiers. |
| Dedup.UsernameDedup | app.py:125 | The single-file result is strictly ascending. `x` is in it if and only if `x` is what some line is cleaned to and `x` is valid. |
| Dedup.MergeSetMembership | app.py:52-58 | The set built over the files holds exactly the valid cleaned lines of some file. |
| Dedup.MergeResult | app.py:50-59 | The merged result is strictly ascending. `x` is in it if and only if `x` is what some line of some file is cleaned to and `x` is valid. |
| Dedup.AddValidLines | app.py:55-58 | The loop over one file's lines adds to the set exactly that file's valid cleaned lines. |
| Dedup.MergeDedup | app.py:50-59 | The nested loops followed by `sorted` return the specified merge result. The result is strictly ascending and holds exactly the valid cleaned lines of all files. |
| Dedup.Flatten | app.py:53-55 | The lines of all the files put together hold exactly the lines that occur in some file. |
| Dedup.MergeIsDedupOfConcatenation | app.py:53-59 | Merging files gives the same list as the single-file kernel applied to all their lines put together. |
| Dedup.MergeSingleFile | app.py:50-59 | Merging one file gives exactly the single-file kernel's result for that file (line 125). |
| Dedup.MergeOrderIndependent | app.py:53-59 | Two file lists with the same files give the same merged result, whatever the order of the files and however often one is repeated. |
| Dedup.CompareDedup | app.py:61-70 | Both lists are strictly ascending. A's list holds exactly the identifiers of A that B lacks, and B's list the reverse. No identifier is in both lists. |
| Dedup.CompareSwap | app.py:65-70 | Comparing B with A swaps the two lists of comparing A with B. |
| Dedup.CompareSelf | app.py:65-70 | A file compared with itself gives two empty lists. |
| Dedup.CompareWithEmpty | app.py:65-70 | Compared with an empty file, A's list is the single-file kernel's result for A and B's list is empty. |
| Dedup.CompareCount | app.py:68-69 | A's list has as many entries as A's single-file result, less the number of identifiers A and B share. |
| LineFile.Translate | app.py:139 | Reading in text mode leaves no carriage return, and leaves text without one unchanged. |
| LineFile.SplitLines | app.py:139 | `readlines()` returns non-empty lines that join back to the text. Every line but the last ends in a newline, and no line has a newline before its end. |
| LineFile.JoinReadLinesRoundTrip | app.py:139 | Items that are non-empty and free of line breaks, written joined by newlines and read back, give one line per item: the item, followed by a newline on every line but the last. |
| Download.CleanedHasNoLineBreak | app.py:20 | A cleaned line has no line feed or carriage return, provided NFKC and lower-casing introduce none. |
| Download.MergeDownloadCount | app.py:136-140 | `/download` counts as many lines as `/merge` reported, `len(result)` (line 99). |
| Download.UsernameDownloadCount | app.py:158-164 | `/download_username` counts as many lines as `/username_dedup` reported (line 131). |
| Download.CompareDownloadCounts | app.py:142-156 | `/download_a` and `/download_b` count as many lines as `/compare` reported for each list (line 116). |
| CleanLineWitness.CleanLineNotIdempotent | app.py:21-22 | For any NFKC that maps "\U{FF0B}ab" to "+ab" and leaves "ab" unchanged, and any lower-casing that leaves "+ab" and "ab" unchanged, as the real calls do, cleaning "\U{FF0B}ab" once gives "+ab" and cleaning it twice gives "ab". A leading fullwidth plus U+FF0B is not `+`, so it survives the strip; NFKC then turns it into `+`, which a second pass removes. |

## Left out

- The Flask routes, the request, session and JSON handling, redirects, `send_file` and the download file names. This is web plumbing around the kernels.
- The route checks that return an error message when no file is uploaded. Each kernel is modelled for every input, including no files and empty files.
- The background-image upload route. It is file storage only.
- Temporary-file creation, writing and `os.path.exists`. These are operating-system I/O. Only the written text (`"\n".join`) and its reading back are modelled.
- `.decode("utf-8-sig")` and `str.splitlines()` on the uploads. Each file is given as the sequence of its lines, already decoded and split.
- `unicodedata.normalize('NFKC', …)` and `str.lower()`. They are parameters of the model, not implementations of the Unicode tables.
- Download.MergeDownloadCount, Download.UsernameDownloadCount, Download.CompareDownloadCounts: these hold only under the assumption that NFKC and lower-casing turn no string free of line breaks into one with a `"\n"` or `"\r"`. The model does not contain the Unicode tables that would prove this.
- Normalize.CleanLineEmptyCore, Validity.EmptyCoreRejected, Dedup.EmptyCoreLineAddsNothing: these assume that NFKC and lower-casing map the empty string to itself (`KeepsEmpty`), which the real calls do but the model, lacking the Unicode tables, cannot prove.
- Normalize.CleanLineIgnoresInvisible, Normalize.CleanLineIgnoresLeadingMarker: for a line that is otherwise empty they also rest on `KeepsEmpty`.
- Newline translation when a file is written. The model assumes a POSIX system, where `"\n"` is written unchanged.
- The file handles' `seek(0)` calls. Each file's lines are a value, read from the start.
- The asynchronous job registry, progress tracking and exactly-once retrieval. `app.py` does not implement them.
