# Requirement tracing for Ada sources — a verified model

The `reqtrace` plugin for the GPS IDE links Ada code to low-level
requirements. A developer writes `@req <name>` inside an Ada comment, and
the plugin does several things with those references:

- it finds the references that belong to a subprogram, both in its body
  and in its declaration;
- it checks the names against a requirements database;
- it reports subprograms that name no known requirement ("unjustified
  code");
- it reports subprograms with too many lines of code per requirement
  ("low LLR density").

This project models the engine behind those reports and proves its
properties in Dafny. The IDE glue is left out. The modules follow the
plugin's steps:

| module | models |
|---|---|
| `Text` | The Python 2 string operations the plugin relies on: `splitlines`, `strip`, `startswith`, `lower`, `int()`, and `\s`. |
| `Comments` | `_extract_comments`: the text after the first `--` of each line, with its line and column. |
| `Annotations` | `_extract_requirements`: every non-overlapping match of `@req (\S+)` recorded under its name, locations appended in order. |
| `Widen` | `_widen_withcomments`: a block's line range grown over the comment lines directly above and below it. |
| `Blocks` | `_get_enclosing_block`: the outward walk from a cursor to the nearest procedure, function, entry, protected, task or package block. |
| `Merge` | `_get_subp_requirements`, part one: the choice of the counterpart half (declaration or body). |
| `Merge` | `_get_subp_requirements`, part two: the in-place merge of the two halves' maps. |
| `Database` | `_check_requirements`: the case-insensitive `in_database` mark on every entry. |
| `Tracing` | How the steps compose: `_get_requirements_in_range` and the body of `_get_subp_requirements`. |
| `Metrics` | The density category of `check_density` and the justification filter of `mark_unjustified_code`. |
| `Config` | `_project_loaded`: the database path and the density target. |

The model stands in for the plugin's collaborators as follows:

- **Editor buffer.** A buffer is a sequence of lines without terminators, numbered from 1. The text of a range is its whole lines, each followed by a newline. In `Tracing`, `buffers` maps every file the editor can open to its lines: lines 408 and 413 fetch the counterpart's buffer without `open=False`, which opens the file when it is not open yet.
- **Code-intelligence service.** Block kind, block start and block end are functions of a position. The body and declaration locations of an entity are parameters. One property of the editor's block queries is assumed, `Blocks.BlocksStartBefore`: above the buffer's start, every position's block starts at or before it (`block_start(p) <= p`). Every member of `Blocks` requires it, and it is why the outward walk ends.
- **Enclosing entity.** The block `_get_enclosing_entity` returns for the queried location is a parameter, and so is its lookup from a location to a block extent.
- **Database.** The database answer is `Option<set<string>>`. `None` stands for an empty or missing answer.

Every loop of the modelled functions is a `method` with loop invariants.
Each method is proved equal to a specification function, and the
properties are proved as lemmas about that function. The exception is the
line loop of `_get_buffertext`, which is the recursive function
`JoinLines`.

## Model

| member | source | states |
|---|---|---|
| Text.IsSpace | plugins/reqtrace.py:343 | Tests for the `\s` characters of a Python 2 byte string: space, tab, newline, carriage return, vertical tab and form feed. `strip()` and `int()` use the same set. |
| Text.StartsWith | plugins/reqtrace.py:588 | Tests `s.startswith(prefix)`: the prefix is no longer than `s` and equals its first characters. |
| Text.SplitLines | plugins/reqtrace.py:330 | `splitlines()` yields lines that hold no line break. Non-empty text yields at least one line. |
| Text.SplitJoinLines | plugins/reqtrace.py:330 | Splitting the text of whole lines (each ending in a newline) gives back exactly those lines. |
| Text.StripStartsWith | plugins/reqtrace.py:588 | For a non-blank prefix, `strip().startswith(p)` depends only on the leading blanks. The trailing strip never matters. |
| Text.Strip | plugins/reqtrace.py:588 | Computes `strip()`: drops the leading and trailing `\s` characters. `StripStartsWith` and `Widen.IsCommentLineIsStrippedDashes` state what the comment test needs of it. |
| Text.Lower | plugins/reqtrace.py:368-370 | Computes `.lower()` on a byte string: ASCII capitals become small letters, and the length is kept. `Database.InDatabaseIgnoresCase` and `Database.SameUpToCase` state what the database check needs of it. |
| Text.ParseInt | plugins/reqtrace.py:522 | Computes `int()` of a string: `None` where Python raises `ValueError`. `ParseShowInt` and the `Config.ResolveTarget*` lemmas state its behaviour. |
| Text.ParseShowInt | plugins/reqtrace.py:522 | `int()` of the decimal text of any integer, sign included, is that integer. |
| Comments.CommentOf | plugins/reqtrace.py:331-333 | Computes the fragment of one line holding `--`: the text after its first `--`, the file, the line number and the column `pos + 2`. `CommentsOfMarkedLines` and `Annotations.ReferenceColumnIsMarker` state its properties. |
| Comments.CommentsOf | plugins/reqtrace.py:322-335 | Computes the fragments of a list of lines, as a value. `CommentsOfMarkedLines` states what they are. |
| Comments.FindDashes | plugins/reqtrace.py:331 | `find("--")` is the index of the first `--`, or -1 exactly when the line has none. |
| Comments.MarkedLines | plugins/reqtrace.py:330-332 | Each listed index is a line of the input that holds `--`. |
| Comments.MarkedLinesIncrease | plugins/reqtrace.py:330-334 | The marked lines are listed in strictly increasing (input) order. |
| Comments.MarkedLinesComplete | plugins/reqtrace.py:330-332 | Every line holding `--` is listed. |
| Comments.CommentsOfMarkedLines | plugins/reqtrace.py:322-335 | One fragment per line holding `--`, in order. Fragment k comes from the k-th such line and carries that line's suffix after its first `--`. Its line is `linestart` plus the line's index, and its column is `pos + 2`. |
| Comments.UnmarkedLinesContributeNothing | plugins/reqtrace.py:331-334 | Lines without `--` yield no fragment. |
| Comments.ExtractComments | plugins/reqtrace.py:322-335 | The loop with its running line counter computes exactly the fragments of `CommentsOf` over `splitlines()` of the text. |
| Annotations.RunEnd | plugins/reqtrace.py:343 | `\S+` runs to the first blank or the end of the text. |
| Annotations.FirstMatchMaximal | plugins/reqtrace.py:343-345 | Where `@req ` is followed by a non-blank, the match captures the whole non-blank run. |
| Annotations.FindIter | plugins/reqtrace.py:343-346 | Computes the matches `finditer` yields, left to right, each search resuming where the last match ended. `FindIterSound` and `FindIterComplete` characterise them. |
| Annotations.FindIterSound | plugins/reqtrace.py:343-346 | Every match `finditer` yields is a maximal match of `@req (\S+)`. The matches do not overlap. |
| Annotations.FindIterComplete | plugins/reqtrace.py:343-346 | Every place where the pattern could start lies inside a yielded match. |
| Annotations.OccurrencesIn | plugins/reqtrace.py:345-348 | Computes the references of one fragment: one per match, with the captured name, the fragment's file and line, and the column `match.start + col + 1`. `ReferenceColumnIsMarker` proves that column is the `@` of `@req `. |
| Annotations.Occurrences | plugins/reqtrace.py:344-348 | Computes the references of a sequence of fragments, fragment by fragment, in order. `CollectCountsEveryOccurrence` counts them in the final map. |
| Annotations.AddOccurrence | plugins/reqtrace.py:349-351 | Records one reference: a new name starts an entry with that location, and a known name has it appended. `CollectGathers` states the result of repeating it. |
| Annotations.Collect | plugins/reqtrace.py:346-351 | Computes the name-to-locations map of a sequence of references, one reference at a time. `CollectGathers` and `CollectCountsEveryOccurrence` state what it holds. |
| Annotations.CollectGathers | plugins/reqtrace.py:346-351 | The keys are exactly the referenced names. Each key lists all locations of its name, in order, never overwritten, never empty, and not yet checked. |
| Annotations.CollectCountsEveryOccurrence | plugins/reqtrace.py:346-351 | The number of locations in the map equals the number of matches. |
| Annotations.ReferenceColumnIsMarker | plugins/reqtrace.py:333-347 | A recorded column, `match.start + col + 1`, is the 1-based column of the `@` of `@req ` in the source line. The name follows that marker. |
| Annotations.ExtractRequirements | plugins/reqtrace.py:337-355 | The nested loop builds exactly `Collect` of the fragments' matches: a new name creates its entry, and a known name appends. |
| Merge.ChooseCounterpartAsWritten | plugins/reqtrace.py:403-415 | The choice as written: the declaration is scanned when the body's line number equals the block's start line. Otherwise the body is scanned if there is one. There is no counterpart exactly when the body is unknown, or the block is taken as the body and no declaration is known. |
| Merge.CounterpartAsWrittenRescansDeclaration | plugins/reqtrace.py:403 | Declaration at p.ads:12 and body at p.adb:12, queried at the declaration: the declaration is chosen as its own counterpart. |
| Merge.ChooseCounterpart | plugins/reqtrace.py:403-415 | The corrected choice: from the body (same file and line) scan the declaration, from anywhere else scan the body. The body is never scanned from itself. |
| Merge.CounterpartScansBody | plugins/reqtrace.py:403-415 | On the p.ads/p.adb input the corrected choice scans the body. |
| Merge.CounterpartAgreesInOneFile | plugins/reqtrace.py:403 | When the body is in the queried file, the two choices agree. |
| Merge.ChooseCounterpartBy | plugins/reqtrace.py:403-415 | Selects the choice as written (line 403) or the corrected one, for the composition in `Tracing`. |
| Merge.Merged | plugins/reqtrace.py:417-423 | Computes the merged map as a value. `MergeIsMerged` ties it to the merge relation `IsMergeOf`. |
| Merge.MergeIsMerged | plugins/reqtrace.py:417-423 | The merge relation has exactly one solution, the `Merged` map. |
| Merge.MergeCounterpart | plugins/reqtrace.py:417-423 | The in-place merge yields the union of the keys. A name of one side keeps that side's entry. A shared name lists the queried side's locations followed by the counterpart's. A missing or empty counterpart changes nothing. |
| Merge.MergeKeepsEveryLocation | plugins/reqtrace.py:417-423 | Each merged list is exactly as long as the two halves' lists together. |
| Merge.MergeNamesCommute | plugins/reqtrace.py:417-423 | The merged names do not depend on which half was queried. |
| Merge.MergeWithItselfDoubles | plugins/reqtrace.py:417-423 | There is no deduplication: merging a map with itself doubles every list. |
| Database.InDatabaseIgnoresCase | plugins/reqtrace.py:364-373 | A name is in the database iff some stored name equals it up to ASCII case. |
| Database.SameUpToCase | plugins/reqtrace.py:368-370 | Names that differ only in case get the same verdict. |
| Database.MixedCaseReferencesMatch | plugins/reqtrace.py:368-371 | "Foo-1" and "foo-1" both match a stored "FOO-1". |
| Database.EmptyDatabaseHoldsNothing | plugins/reqtrace.py:364-366 | With an empty or missing answer, no name is in the database. |
| Database.LowerAll | plugins/reqtrace.py:368 | Computes the set of the database's names, lower-cased. |
| Database.InDatabase | plugins/reqtrace.py:364-373 | Tests membership: false for an empty or missing answer, else whether the lower-cased name is among the lower-cased database names. `InDatabaseIgnoresCase` restates this without `LowerAll`, and `EmptyDatabaseHoldsNothing` covers the empty answer. |
| Database.Checked | plugins/reqtrace.py:357-374 | Computes the checked map as a value. `CheckIsChecked` shows it is what `CheckRequirements` returns. |
| Database.CheckRequirements | plugins/reqtrace.py:357-374 | Checking keeps every key and every location list. Every entry's `in_database` is set to case-insensitive membership, or false when the database answers nothing. |
| Database.CheckIsChecked | plugins/reqtrace.py:357-374 | What `CheckRequirements` promises determines its result completely. |
| Widen.IsCommentLine | plugins/reqtrace.py:588 | Tests whether the first non-blank characters of a line are `--`. `IsCommentLineIsStrippedDashes` proves this is `line.strip().startswith("--")`. |
| Widen.IsCommentLineIsStrippedDashes | plugins/reqtrace.py:588 | The model's comment-line test is exactly `line.strip().startswith("--")`. |
| Widen.Reach | plugins/reqtrace.py:575-592 | The walk in one direction stays inside the buffer and never moves inward. |
| Widen.ReachUp | plugins/reqtrace.py:575-595 | Upward: the start never moves later, and only comment lines are absorbed. The walk stops at line 1 or below a non-comment line. |
| Widen.ReachDown | plugins/reqtrace.py:575-597 | Downward: the end never moves earlier, and only comment lines are absorbed. The walk stops at the last line or above a non-comment line. |
| Widen.ReachIdempotent | plugins/reqtrace.py:583-592 | Walking again from where a walk stopped goes nowhere. |
| Widen.WidenedRange | plugins/reqtrace.py:565-598 | Computes the widened range: `Reach` upward from the start and `Reach` downward from the end. `ReachUp`, `ReachDown` and `WidenIdempotent` state its properties. |
| Widen.WidenIdempotent | plugins/reqtrace.py:565-598 | Widening an already widened range changes nothing. |
| Widen.WalkOverComments | plugins/reqtrace.py:582-592 | The `while True` loop with `lastvalid` computes `Reach` from the cursor. |
| Widen.WidenWithComments | plugins/reqtrace.py:565-598 | Both directions together compute the widened range. |
| Blocks.Walk | plugins/reqtrace.py:555-556 | The walk never moves past the cursor. A position above the buffer's start where it stops is requirement-bearing. |
| Blocks.EnclosingBlockOf | plugins/reqtrace.py:546-563 | Computes the enclosing block as a value: none for `CAT_UNKNOWN` or a walk ending at the buffer's start, else the extent of the block the walk stopped in. `EnclosingBlockIsBearing` states its properties. |
| Blocks.GetEnclosingBlock | plugins/reqtrace.py:546-563 | The loop computes the value `EnclosingBlockOf`. |
| Blocks.EnclosingBlockIsBearing | plugins/reqtrace.py:546-563 | A block is found iff the cursor's kind is not `CAT_UNKNOWN` and the walk ends above the buffer's start. A found block is the extent of a requirement-bearing position between the buffer's start and the cursor. |
| Blocks.WalkSkipsOnlyOtherBlocks | plugins/reqtrace.py:555-556 | Every position the walk leaves is above the buffer's start and not requirement-bearing. The walk continues strictly before that block's start. |
| Blocks.UnknownHasNoBlock | plugins/reqtrace.py:550-551 | A cursor in `CAT_UNKNOWN` has no enclosing block. |
| Blocks.AtBufferStartNoBlock | plugins/reqtrace.py:558-559 | A cursor at or before the buffer's start has no block, even when its own block is requirement-bearing. |
| Blocks.BearingCursorIsOwnBlock | plugins/reqtrace.py:555-563 | A cursor inside the buffer whose block is requirement-bearing gets that block. |
| Metrics.DensityOf | plugins/reqtrace.py:254-259 | Computes the density of a block: `sloc` is the end line minus the start line plus 1, and `rcount` is the number of names, with no database filtering. `LowIffManyLines` and `DensityIgnoresDatabase` state its properties. |
| Metrics.SlocPerLlr | plugins/reqtrace.py:256-259 | The density is infinite iff there is no requirement. Otherwise it is the floor of sloc / rcount. |
| Metrics.Exceeds | plugins/reqtrace.py:260 | Tests `slocperllr > target` with Python 2 ordering: infinity exceeds every number, and every number exceeds `None`. |
| Metrics.CategoryOf | plugins/reqtrace.py:256-263 | Computes the category: low density when the density exceeds the target, else good. `LowIffManyLines` and `NoRequirementsIsLow` characterise it. |
| Metrics.NoRequirementsIsLow | plugins/reqtrace.py:256-261 | A block naming no requirement is always "Low LLR density". |
| Metrics.FortyLinesTwoRequirementsIsGood | plugins/reqtrace.py:254-263 | Lines 11-50 with two names give density 20, which is good against target 20. |
| Metrics.LowIffManyLines | plugins/reqtrace.py:254-263 | With at least one name, the density is low iff sloc >= (target + 1) * rcount. |
| Metrics.MoreRequirementsStayGood | plugins/reqtrace.py:254-263 | Naming more requirements never turns good density into low. |
| Metrics.DensityIgnoresDatabase | plugins/reqtrace.py:250-255 | Density counts names, not database hits: checking the map changes neither the density nor its category. |
| Metrics.ValidRequirements | plugins/reqtrace.py:305 | The filter keeps exactly the entries whose `in_database` is true, unchanged. |
| Metrics.Justify | plugins/reqtrace.py:305-319 | Computes the verdict: unjustified when no valid entry remains, else justified by the valid names. `JustifyChecked` states it in terms of the database. |
| Metrics.JustifyChecked | plugins/reqtrace.py:303-319 | After the check, a subprogram is unjustified iff none of its names is in the database. Otherwise it is justified by exactly those that are. |
| Metrics.NoDatabaseUnjustifies | plugins/reqtrace.py:303-316 | With an empty or missing database answer, every subprogram is unjustified. |
| Config.IsAbs | plugins/reqtrace.py:512 | Tests `os.path.isabs` on a POSIX path: the path starts with `/`. |
| Config.ResolveReqFile | plugins/reqtrace.py:507-513 | Computes the database path: the default file in the project directory for an empty attribute, an absolute attribute as it is, else the attribute under the project directory. |
| Config.ResolveReqFileShape | plugins/reqtrace.py:507-513 | In an absolute project directory, the path is absolute and ends with the attribute (or with "requirements.db" when the attribute is empty). An absolute attribute is kept unchanged. |
| Config.ResolveReqFileIdempotent | plugins/reqtrace.py:507-513 | Resolving a resolved path again changes nothing. |
| Config.ResolveTarget | plugins/reqtrace.py:517-524 | Computes the target: 20 for an empty attribute or one `int()` rejects, else its integer value. |
| Config.ResolveTargetReadsBack | plugins/reqtrace.py:517-522 | Any integer written in decimal is read back as the target. |
| Config.ResolveTargetFallsBack | plugins/reqtrace.py:520-524 | An attribute that `int()` rejects gives the default target 20. |
| Config.ResolveTargetPadded | plugins/reqtrace.py:522 | " 35 " gives 35, because `int()` ignores surrounding blanks. |
| Config.ResolveTargetSigned | plugins/reqtrace.py:522 | "+35" gives 35. |
| Config.ResolveTargetFraction | plugins/reqtrace.py:521-524 | "3.5" is not an integer and gives 20. |
| Config.Reqtrace.constructor | plugins/reqtrace.py:146-149 | Before a project is loaded, neither setting is set. |
| Config.Reqtrace.ProjectLoaded | plugins/reqtrace.py:505-524 | Loading a project sets the database path to the resolved `ReqFile` and the target to the resolved `SlocPerLLR`. |
| Tracing.BufferText | plugins/reqtrace.py:600-614 | Computes the text of lines `s` to `e`: the whole lines, each followed by its newline. `BufferLines` proves it splits back into exactly those lines. |
| Tracing.RangeRequirements | plugins/reqtrace.py:430-440 | Computes the requirements of a range as a value: widen it, take its text, extract the comments numbered from the widened start, and collect their references. `RangeRequirementsOfLines`, `RangeEntriesUnchecked` and `RangeReferencesAreMarked` state its properties. |
| Tracing.GetRequirementsInRange | plugins/reqtrace.py:430-440 | Widening, buffer text, comment extraction and annotation parsing together compute `RangeRequirements`. |
| Tracing.BufferLines | plugins/reqtrace.py:600-614 | The buffer text of whole lines splits back into exactly those lines. |
| Tracing.RangeRequirementsOfLines | plugins/reqtrace.py:430-440 | The widened range contains the block. A range's requirements are those of the comments of the widened lines. |
| Tracing.RangeEntriesUnchecked | plugins/reqtrace.py:430-440 | Every entry of a range lists at least one location and is unchecked. |
| Tracing.RangeReferencesAreMarked | plugins/reqtrace.py:430-440 | Every recorded location is in the buffer's file, inside the widened range, and points at `@req ` followed by the name it is recorded under. |
| Tracing.NoCommentsNoRequirements | plugins/reqtrace.py:430-440 | A widened range without `--` references nothing. |
| Tracing.ExtentRequirements | plugins/reqtrace.py:392 | Computes the requirements of a readable block: `RangeRequirements` over its lines in its own file's buffer. |
| Tracing.CounterpartHalf | plugins/reqtrace.py:403-415 | Computes the other half: nothing to scan, the requirements of the block around the chosen location, or a failure when that block cannot be found or read. `asWritten` selects the choice of line 403 or the corrected one. |
| Tracing.Finish | plugins/reqtrace.py:426-427 | Computes the last step: the merged map as it is when unchecked, else `Database.Checked`. `FinishMarksEveryEntry` states that it keeps the names and locations and marks every entry exactly when checking. |
| Tracing.Assemble | plugins/reqtrace.py:417-427 | Computes the final result from the block's own map and the other half: `None` for an unreadable half, else the merged map, finished. `AssembleNamesBothHalves` and `AssembleKeepsMarks` state its properties. |
| Tracing.SubprogramRequirementsOf | plugins/reqtrace.py:392-428 | Computes what `_get_subp_requirements` returns, as a value: `Assemble` of the block's own requirements and its other half. `SubprogramNamesBothHalves`, `SubprogramReferencesAreMarked` and `AsWrittenDoublesOwnBlock` state its properties. |
| Tracing.ScanCounterpart | plugins/reqtrace.py:403-415 | Choosing, locating and scanning the other half computes `CounterpartHalf`, for either choice. |
| Tracing.SubprogramRequirements | plugins/reqtrace.py:376-428 | Scanning, merging and the optional check compute `SubprogramRequirementsOf`, for either choice. With `asWritten` it is the plugin's procedure from line 392 on. |
| Tracing.SubprogramNamesBothHalves | plugins/reqtrace.py:392-428 | For either choice, the result fails only when the other half cannot be read. Its names are exactly those of the queried block and of the half that was chosen. Checked, every entry carries its database verdict; unchecked, none does. |
| Tracing.SubprogramReferencesAreMarked | plugins/reqtrace.py:376-428 | For either choice, every location reported for a subprogram, from either half and after the check, points at `@req` plus its name in its own file's buffer. |
| Tracing.AsWrittenDoublesOwnBlock | plugins/reqtrace.py:403-423 | As written, when the queried block starts on the body's line number and holds the declaration's location, the block is merged with itself. The result has the block's names, each with its locations listed twice, and the body is never scanned. |
| Tracing.CorrectedScansBodyFromElsewhere | plugins/reqtrace.py:403-415 | With the corrected choice, a block in another file than the body scans the block around the body. |

## Left out

- The IDE layer is not modelled: GPS menus, hooks, highlighting, `GPS.Locations` messages and `print` output. It has no behaviour to state beyond the values it displays.
- `_project_recomputed` and the `Req_Resolver` completion are IDE plumbing and completion glue, so they are not modelled.
- `reqtools.Database` is not modelled: the sqlite connection and `get_requirements`. Its answer is a parameter, `Option<set<string>>`, with `None` for an empty or missing answer.
- `GPS.Entity`, `body()` and `declaration()` belong to the code-intelligence service. They are parameters: the body and declaration locations.
- `_get_enclosing_entity` (lines 616-642) is the plugin's own function. It calls `_get_enclosing_block` and then `GPS.Entity`. In `Tracing` its result is a parameter: the queried block `entity`, and the lookup `enclosing` from a location to a block extent. Nothing ties these to `Blocks.EnclosingBlockOf`.
- Tracing.SubprogramRequirements: requires the queried block to be found and readable. It does not model the early return at lines 384-386 ("No enclosing entity found").
- The name-mismatch warning in `check_density` and `mark_unjustified_code` only prints, so it is not modelled.
- `check_density` and `mark_unjustified_code` loop over the entities of a file. Only the per-entity computation is modelled: density, category and justification.
- `_get_buffertext` is modelled as the whole lines of the range. Its start column is always 1 because of the comparison at line 607, and `get_chars` up to `end_of_line` is taken to include the newline.
- Tracing.SubprogramRequirements: a run the plugin would abort with an exception is `None`. This happens only when `enclosing` finds no block for the counterpart's location, or the block it finds lies outside the lines of its file. A file that is not open is not such a case: the plugin opens it (lines 408 and 413), and `buffers` holds every file the editor can open.
- Metrics.Justify: `mark_unjustified_code` always checks, so an unchecked entry (no `in_database` key) would raise `KeyError` at line 305. The model treats such an entry as not valid.
- Widen.WalkOverComments: works on line numbers. It stops at the buffer's first or last line, where the plugin (line 584) compares the whole cursor with the beginning or end of the buffer. Going down, `forward_line` leaves the cursor at the start of a line (line 586), so it can equal the end of the buffer only when the last line is empty. When the last line is a non-empty comment line, whether the plugin's loop ends depends on what `forward_line(1)` does on the last line, and it may never break. `Reach` always stops at the last line. This is an observation from reading the code; columns inside a line are not modelled.
- Text.SplitLines: models Python 2 byte-string `splitlines`, which breaks on `\n`, `\r` and `\r\n`. The extra line separators of Unicode strings are not modelled.
- Text.Lower: lower-cases only ASCII letters, as Python 2 `str.lower` does in the C locale.
- Config.IsAbs: models POSIX paths (`os.sep` is `/`). Windows drive letters are not modelled.
- Text.ParseInt: covers base-10 `int()` of a byte string with surrounding blanks and a sign. Locale-dependent digits are not modelled.
- `float("inf")` is the `Infinite` case of a datatype, not a floating-point value.
- `Merge.MergeCounterpart` returns the merged map as a value. The plugin's `reqs[k] = v` shares the list object between the two maps, and that aliasing is not modelled.
- Columns follow the code. A fragment's column is `pos + 2`, where `pos` is the 0-based index of its `--` (line 333). A reference's column is `match.start + col + 1` (line 347), which is the 1-based column of the `@` of `@req `, not the column of the name.
- The density target is any integer the attribute parses to, including zero or a negative number. The code does not restrict it to positive values. Before any project is loaded the target is `None`, which Python 2 orders below every number, so every block then counts as low density.

## Findings

| source | as written | input that shows it | evidently intended | confidence | as-written member | corrected member |
|---|---|---|---|---|---|---|
| plugins/reqtrace.py:403 | `is_body` compares only the line number of the body with the block's start line. It ignores the file. | Declaration at p.ads line 12, body at p.adb line 12, queried at the declaration. The declaration is taken for the body and scanned again as its own counterpart, and the body is never scanned. | Take the block as the body only when file and line both match, so a query at the declaration scans the body. | not executed | Merge.ChooseCounterpartAsWritten, Merge.CounterpartAsWrittenRescansDeclaration, Tracing.AsWrittenDoublesOwnBlock | Merge.ChooseCounterpart, Merge.CounterpartScansBody, Tracing.CorrectedScansBodyFromElsewhere |
