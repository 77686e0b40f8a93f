/**
 * Joining the requirements found at a subprogram's declaration and at its
 * body: choosing which half to scan as the counterpart, and merging the two
 * maps without dropping any location.
 */
module Merge {
  import opened Wrappers
  import opened Annotations

  // ---------------------------------------------------------------------------
  // Choosing the counterpart
  // ---------------------------------------------------------------------------

  /** Which other half of the entity is scanned, and where it is. */
  datatype OtherHalf = ScanSpec(at: Location) | ScanBody(at: Location) | NoCounterpart

  /**
   * The choice as written: the queried block counts as the body when the
   * entity's body is on the same line number as the block's start, in
   * whatever file either of them is.
   */
  function ChooseCounterpartAsWritten(startFile: string, startLine: int, body: Option<Location>, spec: Option<Location>): (c: OtherHalf)
    ensures c.ScanSpec? ==> body.Some? && body.value.line == startLine && spec == Some(c.at)
    ensures c.ScanBody? ==> body == Some(c.at) && c.at.line != startLine
    ensures c.NoCounterpart? <==> body.None? || (body.value.line == startLine && spec.None?)
  {
    var isBody := body.Some? && body.value.line == startLine;
    if isBody && spec.Some? then ScanSpec(spec.value)
    else if !isBody && body.Some? then ScanBody(body.value)
    else NoCounterpart
  }

  /**
   * With the declaration at line 12 of "p.ads" and the body at line 12 of
   * "p.adb", a query at the declaration picks the declaration itself as its
   * own counterpart, so the body is never scanned.
   */
  lemma CounterpartAsWrittenRescansDeclaration()
    ensures var spec := Location("p.ads", 12, 14);
            var body := Location("p.adb", 12, 14);
            ChooseCounterpartAsWritten("p.ads", 12, Some(body), Some(spec)) == ScanSpec(spec)
  {
  }

  /** The queried block is the body when it starts where the body is, file included. */
  predicate AtBody(startFile: string, startLine: int, body: Option<Location>) {
    body.Some? && body.value.file == startFile && body.value.line == startLine
  }

  /**
   * The choice the comment "spec <=> body" describes: from the body scan the
   * declaration, from anywhere else scan the body.
   */
  function ChooseCounterpart(startFile: string, startLine: int, body: Option<Location>, spec: Option<Location>): (c: OtherHalf)
    ensures c.ScanSpec? ==> AtBody(startFile, startLine, body) && spec == Some(c.at)
    ensures c.ScanBody? ==> !AtBody(startFile, startLine, body) && body == Some(c.at)
    ensures c.ScanBody? ==> c.at.file != startFile || c.at.line != startLine
    ensures c.NoCounterpart? <==> body.None? || (AtBody(startFile, startLine, body) && spec.None?)
  {
    var isBody := AtBody(startFile, startLine, body);
    if isBody && spec.Some? then ScanSpec(spec.value)
    else if !isBody && body.Some? then ScanBody(body.value)
    else NoCounterpart
  }

  /** On the same inputs the corrected choice scans the body. */
  lemma CounterpartScansBody()
    ensures var spec := Location("p.ads", 12, 14);
            var body := Location("p.adb", 12, 14);
            ChooseCounterpart("p.ads", 12, Some(body), Some(spec)) == ScanBody(body)
  {
  }

  /** The two choices agree whenever declaration and body are in one file. */
  lemma CounterpartAgreesInOneFile(startFile: string, startLine: int, body: Option<Location>, spec: Option<Location>)
    requires body.Some? ==> body.value.file == startFile
    ensures ChooseCounterpart(startFile, startLine, body, spec) == ChooseCounterpartAsWritten(startFile, startLine, body, spec)
  {
  }

  /** The choice as written when `asWritten` holds, else the corrected one. */
  function ChooseCounterpartBy(asWritten: bool, startFile: string, startLine: int,
                               body: Option<Location>, spec: Option<Location>): OtherHalf
  {
    if asWritten then ChooseCounterpartAsWritten(startFile, startLine, body, spec)
    else ChooseCounterpart(startFile, startLine, body, spec)
  }

  // ---------------------------------------------------------------------------
  // Merging the two maps
  // ---------------------------------------------------------------------------

  /**
   * `merged` is `reqs` with `other` merged in: the keys of both; a key of
   * only one side keeps that side's entry; a shared key keeps `reqs`' entry
   * with `other`'s locations appended. An absent or empty `other` changes
   * nothing.
   */
  predicate IsMergeOf(reqs: Requirements, other: Option<Requirements>, merged: Requirements) {
    match other
    case None => merged == reqs
    case Some(o) =>
      && merged.Keys == reqs.Keys + o.Keys
      && (forall k :: k in reqs && k !in o ==> merged[k] == reqs[k])
      && (forall k :: k in o && k !in reqs ==> merged[k] == o[k])
      && (forall k :: k in o && k in reqs ==>
            merged[k] == reqs[k].(locations := reqs[k].locations + o[k].locations))
  }

  /** The merged map as a value. */
  function Merged(reqs: Requirements, other: Option<Requirements>): Requirements
  {
    match other
    case None => reqs
    case Some(o) =>
      map k | k in reqs.Keys + o.Keys ::
        if k !in reqs then o[k]
        else if k in o then reqs[k].(locations := reqs[k].locations + o[k].locations)
        else reqs[k]
  }

  /** The merge is determined: `Merged` is the one map that is a merge. */
  lemma MergeIsMerged(reqs: Requirements, other: Option<Requirements>, merged: Requirements)
    ensures IsMergeOf(reqs, other, merged) <==> merged == Merged(reqs, other)
  {
    if other.Some? && IsMergeOf(reqs, other, merged) {
      var o := other.value;
      assert forall k :: k in merged ==> merged[k] == Merged(reqs, other)[k];
    }
  }

  /**
   * `reqs_other` merged into `reqs` in place: a name new to `reqs` takes the
   * counterpart's entry, a known one has the counterpart's locations
   * appended. Nothing happens when `reqs_other` is `None` or empty.
   */
  method MergeCounterpart(reqs: Requirements, reqsOther: Option<Requirements>) returns (merged: Requirements)
    ensures IsMergeOf(reqs, reqsOther, merged)
  {
    merged := reqs;
    if reqsOther.Some? && reqsOther.value != map[] {
      var other := reqsOther.value;
      var todo := other.Keys;
      while todo != {}
        invariant todo <= other.Keys
        invariant merged.Keys == reqs.Keys + (other.Keys - todo)
        invariant forall k :: k in reqs && k !in other.Keys - todo ==> merged[k] == reqs[k]
        invariant forall k :: k in other.Keys - todo && k !in reqs ==> merged[k] == other[k]
        invariant forall k :: k in other.Keys - todo && k in reqs ==>
                    merged[k] == reqs[k].(locations := reqs[k].locations + other[k].locations)
        decreases todo
      {
        var k :| k in todo;
        if k !in merged {
          merged := merged[k := other[k]];
        } else {
          merged := merged[k := merged[k].(locations := merged[k].locations + other[k].locations)];
        }
        todo := todo - {k};
      }
    }
  }

  /** Merging never loses a location: each list is as long as both halves' together. */
  lemma MergeKeepsEveryLocation(reqs: Requirements, other: Requirements, merged: Requirements, k: string)
    requires IsMergeOf(reqs, Some(other), merged)
    requires k in merged
    ensures |merged[k].locations|
            == (if k in reqs then |reqs[k].locations| else 0) + (if k in other then |other[k].locations| else 0)
  {
  }

  /** Which names appear does not depend on which half was queried. */
  lemma MergeNamesCommute(a: Requirements, b: Requirements)
    ensures Merged(a, Some(b)).Keys == Merged(b, Some(a)).Keys
  {
  }

  /**
   * Positions are not deduplicated: merging a map with itself, as happens
   * when the counterpart is the queried block again, doubles every list.
   */
  lemma MergeWithItselfDoubles(reqs: Requirements)
    ensures Merged(reqs, Some(reqs)).Keys == reqs.Keys
    ensures forall k :: k in reqs ==>
              Merged(reqs, Some(reqs))[k].locations == reqs[k].locations + reqs[k].locations
  {
  }
}
