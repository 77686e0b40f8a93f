/**
 * The requirements of a subprogram: scan the comments around its block for
 * references, scan its other half (declaration or body) the same way, merge
 * the two, and optionally check the names against the database. `buffers`
 * maps every file the editor can open to its lines, numbered from 1: the
 * counterpart's file is opened on demand, so whether it was already open
 * does not matter.
 */
module Tracing {
  import opened Wrappers
  import opened Text
  import opened Comments
  import opened Annotations
  import opened Widen
  import opened Merge
  import opened Database

  /** The lines of a buffer, as the editor hands them out, hold no line breaks. */
  predicate WellFormedBuffer(lines: seq<string>) {
    forall k :: 0 <= k < |lines| ==> NoLineBreak(lines[k])
  }

  /** The text of the whole lines `s` to `e` of a buffer, each with its newline. */
  function BufferText(lines: seq<string>, s: nat, e: nat): string
    requires 1 <= s && e <= |lines|
  {
    if s <= e then JoinLines(lines[s - 1..e]) else ""
  }

  // ---------------------------------------------------------------------------
  // The requirements in a range of lines
  // ---------------------------------------------------------------------------

  /**
   * The requirements referenced in the comments of lines `codestart` to
   * `codeend` of the buffer of `file`, once the range is widened over the
   * comment lines next to it.
   */
  function RangeRequirements(lines: seq<string>, file: string, codestart: nat, codeend: nat): Requirements
    requires 1 <= codestart <= |lines| && 1 <= codeend <= |lines|
  {
    var (s, e) := WidenedRange(lines, codestart, codeend);
    Collect(Occurrences(CommentsOf(SplitLines(BufferText(lines, s, e)), s, file)))
  }

  /**
   * `_get_requirements_in_range`: widen the range over its comments, take
   * the text of its lines, pick out the comments and gather the references.
   */
  method GetRequirementsInRange(lines: seq<string>, file: string, codestart0: nat, codeend0: nat)
    returns (reqs: Requirements)
    requires 1 <= codestart0 <= |lines| && 1 <= codeend0 <= |lines|
    ensures reqs == RangeRequirements(lines, file, codestart0, codeend0)
  {
    var codestart, codeend := WidenWithComments(lines, codestart0, codeend0);
    var sourcecode := BufferText(lines, codestart, codeend);
    var comments := ExtractComments(sourcecode, codestart, file);
    reqs := ExtractRequirements(comments);
  }

  /**
   * The reference to `name` at `loc` points at "@req " followed by `name`
   * in line `loc.line` of `lines`, with `loc.col` the 1-based column of "@".
   */
  predicate MarksReference(lines: seq<string>, name: string, loc: Location) {
    && 1 <= loc.line <= |lines|
    && 1 <= loc.col && loc.col + 4 + |name| <= |lines[loc.line - 1]|
    && lines[loc.line - 1][loc.col - 1..loc.col + 4] == Marker
    && lines[loc.line - 1][loc.col + 4..loc.col + 4 + |name|] == name
  }

  /**
   * A reference found in `ls`, whose first line is numbered `lineStart`, is
   * in `file`, on one of those lines, and points at its marker there. This
   * is `MarksReference` for a slice of a buffer whose lines are numbered
   * from `lineStart` rather than 1; it is kept separate so that the
   * induction over the lines of a comment run (`CommentReferencesAreFound`)
   * needs no renumbering, and `FoundInBuffer` converts it back.
   */
  predicate FoundIn(ls: seq<string>, lineStart: int, file: string, o: Occurrence) {
    && o.loc.file == file
    && lineStart <= o.loc.line < lineStart + |ls|
    && 1 <= o.loc.col && o.loc.col + 4 + |o.name| <= |ls[o.loc.line - lineStart]|
    && ls[o.loc.line - lineStart][o.loc.col - 1..o.loc.col + 4] == Marker
    && ls[o.loc.line - lineStart][o.loc.col + 4..o.loc.col + 4 + |o.name|] == o.name
  }

  /** Every reference in the comments of some lines points at a marker in one of them. */
  lemma {:induction false} CommentReferencesAreFound(ls: seq<string>, lineStart: int, file: string)
    ensures forall o :: o in Occurrences(CommentsOf(ls, lineStart, file)) ==> FoundIn(ls, lineStart, file, o)
  {
    if ls != [] {
      var n := |ls| - 1;
      var front := ls[..n];
      var cf := CommentsOf(front, lineStart, file);
      CommentReferencesAreFound(front, lineStart, file);
      forall o | o in Occurrences(cf) ensures FoundIn(ls, lineStart, file, o) {
        FoundInLonger(front, ls, lineStart, file, o);
      }
      if FindDashes(ls[n]) >= 0 {
        var c := CommentOf(ls[n], lineStart + n, file);
        assert CommentsOf(ls, lineStart, file) == cf + [c];
        OccurrencesSnoc(cf, c);
        var here := OccurrencesIn(c);
        forall j | 0 <= j < |here| ensures FoundIn(ls, lineStart, file, here[j]) {
          ReferenceColumnIsMarker(ls[n], lineStart + n, file, j);
        }
        assert Occurrences(CommentsOf(ls, lineStart, file)) == Occurrences(cf) + here;
      } else {
        assert CommentsOf(ls, lineStart, file) == cf;
      }
    }
  }

  /** A reference found in some lines is found in any continuation of them. */
  lemma FoundInLonger(front: seq<string>, ls: seq<string>, lineStart: int, file: string, o: Occurrence)
    requires front <= ls && FoundIn(front, lineStart, file, o)
    ensures FoundIn(ls, lineStart, file, o)
  {
    assert ls[o.loc.line - lineStart] == front[o.loc.line - lineStart];
  }

  /** A location recorded under `name` comes from a reference to `name`. */
  lemma {:induction false} LocationsOfAreReferences(occs: seq<Occurrence>, name: string)
    ensures forall loc :: loc in LocationsOf(occs, name) ==> Occurrence(name, loc) in occs
  {
    if occs != [] {
      var n := |occs| - 1;
      LocationsOfAreReferences(occs[..n], name);
      assert forall o :: o in occs[..n] ==> o in occs;
    }
  }

  /**
   * The widened range of a block holds the block, and its text splits back
   * into exactly its lines, so the requirements of the range are those of
   * the comments of those lines.
   */
  lemma RangeRequirementsOfLines(lines: seq<string>, file: string, codestart: nat, codeend: nat)
    requires WellFormedBuffer(lines)
    requires 1 <= codestart <= codeend <= |lines|
    ensures var (s, e) := WidenedRange(lines, codestart, codeend);
            && 1 <= s <= codestart && codeend <= e <= |lines|
            && RangeRequirements(lines, file, codestart, codeend)
               == Collect(Occurrences(CommentsOf(lines[s - 1..e], s, file)))
  {
    var (s, e) := WidenedRange(lines, codestart, codeend);
    var ls := SplitLines(BufferText(lines, s, e));
    assert RangeRequirements(lines, file, codestart, codeend) == Collect(Occurrences(CommentsOf(ls, s, file)));
    BufferLines(lines, s, e);
    assert ls == lines[s - 1..e];
  }

  /** The text of whole lines splits back into exactly those lines. */
  lemma BufferLines(lines: seq<string>, s: nat, e: nat)
    requires WellFormedBuffer(lines)
    requires 1 <= s <= e <= |lines|
    ensures SplitLines(BufferText(lines, s, e)) == lines[s - 1..e]
  {
    var ls := lines[s - 1..e];
    assert forall k :: 0 <= k < |ls| ==> ls[k] == lines[s - 1 + k];
    SplitJoinLines(ls);
  }

  /** Every entry gathered for a range lists at least one location and is not yet checked. */
  lemma RangeEntriesUnchecked(lines: seq<string>, file: string, codestart: nat, codeend: nat)
    requires 1 <= codestart <= |lines| && 1 <= codeend <= |lines|
    ensures var reqs := RangeRequirements(lines, file, codestart, codeend);
            forall name :: name in reqs ==> reqs[name].inDatabase == None && reqs[name].locations != []
  {
    var (s, e) := WidenedRange(lines, codestart, codeend);
    CollectGathers(Occurrences(CommentsOf(SplitLines(BufferText(lines, s, e)), s, file)));
  }

  /**
   * Every location gathered from some lines, the first numbered `lineStart`,
   * is the location of a reference to the name it is listed under.
   */
  lemma GatheredReferencesAreFound(ls: seq<string>, lineStart: int, file: string)
    ensures var reqs := Collect(Occurrences(CommentsOf(ls, lineStart, file)));
            forall name, loc :: name in reqs && loc in reqs[name].locations ==>
              FoundIn(ls, lineStart, file, Occurrence(name, loc))
  {
    var occs := Occurrences(CommentsOf(ls, lineStart, file));
    CollectGathers(occs);
    CommentReferencesAreFound(ls, lineStart, file);
    forall name | name in Collect(occs) {
      LocationsOfAreReferences(occs, name);
    }
  }

  /**
   * Every location recorded for a range is in the buffer's file, inside
   * the widened range, and points at "@req " followed by the name it is
   * recorded under.
   */
  lemma RangeReferencesAreMarked(lines: seq<string>, file: string, codestart: nat, codeend: nat)
    requires WellFormedBuffer(lines)
    requires 1 <= codestart <= codeend <= |lines|
    ensures var (s, e) := WidenedRange(lines, codestart, codeend);
            var reqs := RangeRequirements(lines, file, codestart, codeend);
            forall name, loc :: name in reqs && loc in reqs[name].locations ==>
              loc.file == file && s <= loc.line <= e && MarksReference(lines, name, loc)
  {
    var (s, e) := WidenedRange(lines, codestart, codeend);
    RangeRequirementsOfLines(lines, file, codestart, codeend);
    var ls := lines[s - 1..e];
    GatheredReferencesAreFound(ls, s, file);
    var reqs := Collect(Occurrences(CommentsOf(ls, s, file)));
    forall name, loc | name in reqs && loc in reqs[name].locations
      ensures loc.file == file && s <= loc.line <= e && MarksReference(lines, name, loc)
    {
      FoundInBuffer(lines, s, e, file, Occurrence(name, loc));
    }
  }

  /** A reference found in lines `s` to `e` of a buffer marks its reference in the buffer. */
  lemma FoundInBuffer(lines: seq<string>, s: nat, e: nat, file: string, o: Occurrence)
    requires 1 <= s <= e <= |lines|
    requires FoundIn(lines[s - 1..e], s, file, o)
    ensures o.loc.file == file && s <= o.loc.line <= e && MarksReference(lines, o.name, o.loc)
  {
    assert lines[s - 1..e][o.loc.line - s] == lines[o.loc.line - 1];
  }

  /** A range whose widened lines hold no "--" references nothing. */
  lemma NoCommentsNoRequirements(lines: seq<string>, file: string, codestart: nat, codeend: nat)
    requires WellFormedBuffer(lines)
    requires 1 <= codestart <= codeend <= |lines|
    requires var (s, e) := WidenedRange(lines, codestart, codeend);
             forall k :: s - 1 <= k < e ==> FindDashes(lines[k]) == -1
    ensures RangeRequirements(lines, file, codestart, codeend) == map[]
  {
    var (s, e) := WidenedRange(lines, codestart, codeend);
    RangeRequirementsOfLines(lines, file, codestart, codeend);
    var ls := lines[s - 1..e];
    forall j | 0 <= j < |ls| ensures FindDashes(ls[j]) == -1 {
      assert ls[j] == lines[s - 1 + j];
    }
    UnmarkedLinesContributeNothing(ls, s, file);
  }

  // ---------------------------------------------------------------------------
  // The requirements of a subprogram
  // ---------------------------------------------------------------------------

  /** A block of lines in a file, as the code-intelligence service reports it. */
  datatype Extent = Extent(file: string, startLine: nat, endLine: nat)

  /** The block's file is one the editor can open, and its lines are lines of that file. */
  predicate Readable(buffers: map<string, seq<string>>, x: Extent) {
    x.file in buffers && 1 <= x.startLine <= x.endLine <= |buffers[x.file]|
  }

  /** The requirements referenced around a readable block. */
  function ExtentRequirements(buffers: map<string, seq<string>>, x: Extent): Requirements
    requires Readable(buffers, x)
  {
    RangeRequirements(buffers[x.file], x.file, x.startLine, x.endLine)
  }

  /** What scanning the other half gives: nothing to scan, its requirements, or a failure. */
  datatype Half = Skipped | Scanned(reqs: Requirements) | Unreadable

  /**
   * The other half of `entity`: the block enclosing the chosen counterpart
   * location, as `enclosing` reports it, scanned like the entity itself.
   * `asWritten` selects the plugin's line-number comparison or the
   * corrected comparison of file and line.
   */
  function CounterpartHalf(buffers: map<string, seq<string>>, entity: Extent, body: Option<Location>,
                           spec: Option<Location>, enclosing: Location -> Option<Extent>, asWritten: bool): Half
  {
    var choice := ChooseCounterpartBy(asWritten, entity.file, entity.startLine, body, spec);
    if choice.NoCounterpart? then Skipped
    else
      var x := enclosing(choice.at);
      if x.Some? && Readable(buffers, x.value) then Scanned(ExtentRequirements(buffers, x.value))
      else Unreadable
  }

  /** The last step: the merged map as it is, or checked against the database. */
  function Finish(reqs: Requirements, dbResult: Option<set<string>>, unchecked: bool): Requirements
  {
    if unchecked then reqs else Checked(reqs, dbResult)
  }

  /**
   * The requirements of the subprogram whose block is `entity`: `None` when
   * the other half's block cannot be found or read.
   */
  function SubprogramRequirementsOf(buffers: map<string, seq<string>>, entity: Extent, body: Option<Location>,
                                    spec: Option<Location>, enclosing: Location -> Option<Extent>, asWritten: bool,
                                    dbResult: Option<set<string>>, unchecked: bool): Option<Requirements>
    requires Readable(buffers, entity)
  {
    Assemble(ExtentRequirements(buffers, entity), CounterpartHalf(buffers, entity, body, spec, enclosing, asWritten),
             dbResult, unchecked)
  }

  /** The entity's own requirements, with the other half merged in, finished. */
  function Assemble(reqs: Requirements, half: Half, dbResult: Option<set<string>>, unchecked: bool): Option<Requirements>
  {
    match half
    case Unreadable => None
    case Skipped => Some(Finish(reqs, dbResult, unchecked))
    case Scanned(other) => Some(Finish(Merged(reqs, Some(other)), dbResult, unchecked))
  }

  /**
   * The second half of `_get_subp_requirements`' search: find the block
   * around the chosen counterpart location and scan it.
   */
  method ScanCounterpart(buffers: map<string, seq<string>>, entity: Extent, body: Option<Location>,
                         spec: Option<Location>, enclosing: Location -> Option<Extent>, asWritten: bool)
    returns (half: Half)
    ensures half == CounterpartHalf(buffers, entity, body, spec, enclosing, asWritten)
  {
    var choice := ChooseCounterpartBy(asWritten, entity.file, entity.startLine, body, spec);
    if choice.NoCounterpart? {
      return Skipped;
    }
    var x := enclosing(choice.at);
    if x.None? || !Readable(buffers, x.value) {
      return Unreadable;
    }
    var other := GetRequirementsInRange(buffers[x.value.file], x.value.file, x.value.startLine, x.value.endLine);
    half := Scanned(other);
  }

  /**
   * `_get_subp_requirements` from the entity's block on: scan the block,
   * choose and scan the other half, merge it in, and check the names
   * against the database unless asked not to. With `asWritten` the other
   * half is chosen as the plugin does, by line number alone.
   */
  method SubprogramRequirements(buffers: map<string, seq<string>>, entity: Extent, body: Option<Location>,
                                spec: Option<Location>, enclosing: Location -> Option<Extent>, asWritten: bool,
                                dbResult: Option<set<string>>, unchecked: bool)
    returns (result: Option<Requirements>)
    requires Readable(buffers, entity)
    ensures result == SubprogramRequirementsOf(buffers, entity, body, spec, enclosing, asWritten, dbResult, unchecked)
  {
    var reqs := GetRequirementsInRange(buffers[entity.file], entity.file, entity.startLine, entity.endLine);
    var half := ScanCounterpart(buffers, entity, body, spec, enclosing, asWritten);
    if half.Unreadable? {
      return None;
    }
    var reqsOther := if half.Scanned? then Some(half.reqs) else None;
    var merged := MergeCounterpart(reqs, reqsOther);
    MergeIsMerged(reqs, reqsOther, merged);
    if !unchecked {
      var checked := CheckRequirements(merged, dbResult);
      CheckIsChecked(merged, dbResult, checked);
      merged := checked;
    }
    return Some(merged);
  }

  /**
   * The subprogram names exactly the requirements named around its own
   * block and around its other half; checked, every entry records whether
   * its name is in the database, and unchecked, none does.
   */
  lemma SubprogramNamesBothHalves(buffers: map<string, seq<string>>, entity: Extent, body: Option<Location>,
                                  spec: Option<Location>, enclosing: Location -> Option<Extent>, asWritten: bool,
                                  dbResult: Option<set<string>>, unchecked: bool)
    requires Readable(buffers, entity)
    ensures var r := SubprogramRequirementsOf(buffers, entity, body, spec, enclosing, asWritten, dbResult, unchecked);
            var half := CounterpartHalf(buffers, entity, body, spec, enclosing, asWritten);
            && (r.None? <==> half.Unreadable?)
            && (r.Some? ==> r.value.Keys == ExtentRequirements(buffers, entity).Keys
                                            + (if half.Scanned? then half.reqs.Keys else {}))
            && (r.Some? && !unchecked ==> forall k :: k in r.value ==> r.value[k].inDatabase == Some(InDatabase(k, dbResult)))
            && (r.Some? && unchecked ==> forall k :: k in r.value ==> r.value[k].inDatabase == None)
  {
    var half := CounterpartHalf(buffers, entity, body, spec, enclosing, asWritten);
    RangeEntriesUnchecked(buffers[entity.file], entity.file, entity.startLine, entity.endLine);
    if half.Scanned? {
      var choice := ChooseCounterpartBy(asWritten, entity.file, entity.startLine, body, spec);
      var x := enclosing(choice.at).value;
      RangeEntriesUnchecked(buffers[x.file], x.file, x.startLine, x.endLine);
    }
    AssembleNamesBothHalves(ExtentRequirements(buffers, entity), half, dbResult, unchecked);
  }

  /** `SubprogramNamesBothHalves` for any pair of unchecked halves. */
  lemma AssembleNamesBothHalves(reqs: Requirements, half: Half, dbResult: Option<set<string>>, unchecked: bool)
    requires forall k :: k in reqs ==> reqs[k].inDatabase == None
    requires half.Scanned? ==> forall k :: k in half.reqs ==> half.reqs[k].inDatabase == None
    ensures var r := Assemble(reqs, half, dbResult, unchecked);
            && (r.None? <==> half.Unreadable?)
            && (r.Some? ==> r.value.Keys == reqs.Keys + (if half.Scanned? then half.reqs.Keys else {}))
            && (r.Some? && !unchecked ==> forall k :: k in r.value ==> r.value[k].inDatabase == Some(InDatabase(k, dbResult)))
            && (r.Some? && unchecked ==> forall k :: k in r.value ==> r.value[k].inDatabase == None)
  {
    if half.Scanned? {
      var merged := Merged(reqs, Some(half.reqs));
      assert forall k :: k in merged ==> merged[k].inDatabase == None;
      FinishMarksEveryEntry(merged, dbResult, unchecked);
    } else if half.Skipped? {
      FinishMarksEveryEntry(reqs, dbResult, unchecked);
    }
  }

  /**
   * As written, a block that starts on the body's line number counts as the
   * body, even when it is the declaration in another file. When the
   * declaration's location lies in that same block, the block is scanned a
   * second time as its own counterpart and every location list comes out
   * doubled; the body is never scanned.
   */
  lemma AsWrittenDoublesOwnBlock(buffers: map<string, seq<string>>, entity: Extent, body: Option<Location>,
                                 spec: Option<Location>, enclosing: Location -> Option<Extent>,
                                 dbResult: Option<set<string>>, unchecked: bool)
    requires Readable(buffers, entity)
    requires body.Some? && body.value.line == entity.startLine
    requires spec.Some? && enclosing(spec.value) == Some(entity)
    ensures var own := ExtentRequirements(buffers, entity);
            var r := SubprogramRequirementsOf(buffers, entity, body, spec, enclosing, true, dbResult, unchecked);
            && r.Some? && r.value.Keys == own.Keys
            && forall k :: k in own ==> r.value[k].locations == own[k].locations + own[k].locations
  {
    var own := ExtentRequirements(buffers, entity);
    assert CounterpartHalf(buffers, entity, body, spec, enclosing, true) == Scanned(own);
    RangeEntriesUnchecked(buffers[entity.file], entity.file, entity.startLine, entity.endLine);
    MergeWithItselfDoubles(own);
    var merged := Merged(own, Some(own));
    assert forall k :: k in merged ==> merged[k].inDatabase == None;
    FinishMarksEveryEntry(merged, dbResult, unchecked);
  }

  /**
   * Corrected, a block in another file than the body never counts as the
   * body: the other half scanned is the block around the body.
   */
  lemma CorrectedScansBodyFromElsewhere(buffers: map<string, seq<string>>, entity: Extent, body: Option<Location>,
                                        spec: Option<Location>, enclosing: Location -> Option<Extent>)
    requires body.Some? && body.value.file != entity.file
    ensures var x := enclosing(body.value);
            CounterpartHalf(buffers, entity, body, spec, enclosing, false)
            == if x.Some? && Readable(buffers, x.value) then Scanned(ExtentRequirements(buffers, x.value)) else Unreadable
  {
  }

  /** Every location listed in `reqs` marks a reference to its name in its file's buffer. */
  predicate AllMarked(buffers: map<string, seq<string>>, reqs: Requirements) {
    forall name, loc :: name in reqs && loc in reqs[name].locations ==>
      loc.file in buffers && MarksReference(buffers[loc.file], name, loc)
  }

  /** The requirements around a readable block of a well-formed buffer are all marked. */
  lemma ExtentReferencesAreMarked(buffers: map<string, seq<string>>, x: Extent)
    requires Readable(buffers, x) && WellFormedBuffer(buffers[x.file])
    ensures AllMarked(buffers, ExtentRequirements(buffers, x))
  {
    var lines := buffers[x.file];
    var reqs := RangeRequirements(lines, x.file, x.startLine, x.endLine);
    RangeReferencesAreMarked(lines, x.file, x.startLine, x.endLine);
    forall name, loc | name in reqs && loc in reqs[name].locations
      ensures loc.file in buffers && MarksReference(buffers[loc.file], name, loc)
    {
      assert loc.file == x.file && MarksReference(lines, name, loc);
    }
  }

  /**
   * Every location the subprogram's search reports, in either half and
   * after the database check, marks a reference in the buffer of its own
   * file: "@req " at its column, followed by the name it is listed under.
   */
  lemma SubprogramReferencesAreMarked(buffers: map<string, seq<string>>, entity: Extent, body: Option<Location>,
                                      spec: Option<Location>, enclosing: Location -> Option<Extent>, asWritten: bool,
                                      dbResult: Option<set<string>>, unchecked: bool)
    requires Readable(buffers, entity)
    requires forall f :: f in buffers ==> WellFormedBuffer(buffers[f])
    ensures var r := SubprogramRequirementsOf(buffers, entity, body, spec, enclosing, asWritten, dbResult, unchecked);
            r.Some? ==> AllMarked(buffers, r.value)
  {
    var half := CounterpartHalf(buffers, entity, body, spec, enclosing, asWritten);
    ExtentReferencesAreMarked(buffers, entity);
    if half.Scanned? {
      var choice := ChooseCounterpartBy(asWritten, entity.file, entity.startLine, body, spec);
      ExtentReferencesAreMarked(buffers, enclosing(choice.at).value);
    }
    AssembleKeepsMarks(buffers, ExtentRequirements(buffers, entity), half, dbResult, unchecked);
  }

  /** Merging and checking move no location and attach none to another name. */
  lemma AssembleKeepsMarks(buffers: map<string, seq<string>>, reqs: Requirements, half: Half,
                           dbResult: Option<set<string>>, unchecked: bool)
    requires AllMarked(buffers, reqs)
    requires half.Scanned? ==> AllMarked(buffers, half.reqs)
    ensures var r := Assemble(reqs, half, dbResult, unchecked);
            r.Some? ==> AllMarked(buffers, r.value)
  {
    if half.Scanned? {
      var merged := Merged(reqs, Some(half.reqs));
      assert AllMarked(buffers, merged) by {
        forall name, loc | name in merged && loc in merged[name].locations
          ensures loc.file in buffers && MarksReference(buffers[loc.file], name, loc)
        {
          if name in reqs && loc in reqs[name].locations {
          } else {
            assert name in half.reqs && loc in half.reqs[name].locations;
          }
        }
      }
      assert Finish(merged, dbResult, unchecked).Keys == merged.Keys;
    } else {
      assert Finish(reqs, dbResult, unchecked).Keys == reqs.Keys;
    }
  }

  /** The last step keeps the names and marks every entry exactly when checking. */
  lemma FinishMarksEveryEntry(reqs: Requirements, dbResult: Option<set<string>>, unchecked: bool)
    requires forall k :: k in reqs ==> reqs[k].inDatabase == None
    ensures var r := Finish(reqs, dbResult, unchecked);
            && r.Keys == reqs.Keys
            && (forall k :: k in r ==> r[k].locations == reqs[k].locations)
            && (!unchecked ==> forall k :: k in r ==> r[k].inDatabase == Some(InDatabase(k, dbResult)))
            && (unchecked ==> forall k :: k in r ==> r[k].inDatabase == None)
  {
  }
}
