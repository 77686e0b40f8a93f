/**
 * Annotation parsing: every non-overlapping match of `@req (\S+)` in a
 * comment fragment records one location under the requirement name; a name
 * that repeats gathers all its locations in order.
 */
module Annotations {
  import opened Wrappers
  import opened Text
  import opened Comments

  /** A place in a source file; `col` is 1-based. */
  datatype Location = Location(file: string, line: int, col: int)

  /**
   * What is known of one requirement name: where it is referenced, and,
   * once checked, whether the database holds it (`None` before the check).
   */
  datatype Requirement = Requirement(locations: seq<Location>, inDatabase: Option<bool>)

  type Requirements = map<string, Requirement>

  // ---------------------------------------------------------------------------
  // The pattern `@req (\S+)`
  // ---------------------------------------------------------------------------

  /** One match: where "@req " begins in the text, and the captured name. */
  datatype Match = Match(start: nat, name: string)

  const Marker: string := "@req "

  predicate MarkerAt(t: string, i: nat) {
    i + |Marker| <= |t| && t[i..i + |Marker|] == Marker
  }

  /** The pattern can match at `i`: the marker, then a non-blank character. */
  predicate CanMatchAt(t: string, i: nat) {
    MarkerAt(t, i) && i + |Marker| < |t| && !IsSpace(t[i + |Marker|])
  }

  function MatchEnd(m: Match): nat {
    m.start + |Marker| + |m.name|
  }

  /** `m` is a match of `@req (\S+)` in `t` whose `\S+` is as long as it can be. */
  predicate IsMaximalMatch(t: string, m: Match) {
    && MarkerAt(t, m.start)
    && m.name != []
    && MatchEnd(m) <= |t|
    && t[m.start + |Marker|..MatchEnd(m)] == m.name
    && (forall k :: 0 <= k < |m.name| ==> !IsSpace(m.name[k]))
    && (MatchEnd(m) == |t| || IsSpace(t[MatchEnd(m)]))
  }

  /** The end of the run of non-blank characters that starts at `j`. */
  function RunEnd(t: string, j: nat): (e: nat)
    requires j <= |t|
    ensures j <= e <= |t|
    ensures forall k :: j <= k < e ==> !IsSpace(t[k])
    ensures e == |t| || IsSpace(t[e])
    decreases |t| - j
  {
    if j == |t| || IsSpace(t[j]) then j else RunEnd(t, j + 1)
  }

  /**
   * `re.finditer("@req (\S+)", t[i..])`: the matches from left to right, each
   * search resuming where the previous match ended.
   */
  function FindIter(t: string, i: nat): (ms: seq<Match>)
    requires i <= |t|
    decreases |t| - i
  {
    if i + |Marker| >= |t| then []
    else if CanMatchAt(t, i) then
      var e := RunEnd(t, i + |Marker|);
      [Match(i, t[i + |Marker|..e])] + FindIter(t, e)
    else FindIter(t, i + 1)
  }

  /** Where the pattern can match, the match runs to the end of the name. */
  lemma FirstMatchMaximal(t: string, i: nat)
    requires CanMatchAt(t, i)
    ensures var e := RunEnd(t, i + |Marker|);
            IsMaximalMatch(t, Match(i, t[i + |Marker|..e])) && MatchEnd(Match(i, t[i + |Marker|..e])) == e
  {
    var e := RunEnd(t, i + |Marker|);
    var name := t[i + |Marker|..e];
    assert forall k :: 0 <= k < |name| ==> name[k] == t[i + |Marker| + k];
  }

  /** All of `ms` are maximal matches in `t` that start at or after `i`. */
  predicate AllMaximalFrom(t: string, i: nat, ms: seq<Match>) {
    forall k :: 0 <= k < |ms| ==> i <= ms[k].start && IsMaximalMatch(t, ms[k])
  }

  /** Each match ends before the next one starts. */
  predicate NonOverlapping(ms: seq<Match>) {
    forall k :: 0 <= k < |ms| - 1 ==> MatchEnd(ms[k]) <= ms[k + 1].start
  }

  /**
   * Every match found is a maximal match of the pattern at or after `i`,
   * and the matches do not overlap.
   */
  lemma {:induction false} FindIterSound(t: string, i: nat)
    requires i <= |t|
    ensures AllMaximalFrom(t, i, FindIter(t, i)) && NonOverlapping(FindIter(t, i))
    decreases |t| - i
  {
    if i + |Marker| < |t| {
      if CanMatchAt(t, i) {
        var e := RunEnd(t, i + |Marker|);
        FindIterSound(t, e);
        var ms, rest := FindIter(t, i), FindIter(t, e);
        FirstMatchMaximal(t, i);
        assert ms == [Match(i, t[i + |Marker|..e])] + rest;
        forall k | 1 <= k < |ms| ensures i <= ms[k].start && IsMaximalMatch(t, ms[k]) {
          assert ms[k] == rest[k - 1];
        }
        forall k | 0 <= k < |ms| - 1 ensures MatchEnd(ms[k]) <= ms[k + 1].start {
          if k > 0 { assert ms[k] == rest[k - 1] && ms[k + 1] == rest[k]; }
        }
      } else {
        FindIterSound(t, i + 1);
        assert FindIter(t, i) == FindIter(t, i + 1);
      }
    }
  }

  /**
   * Nothing is missed: every place at or after `i` where the pattern could
   * start lies inside one of the matches found.
   */
  lemma {:induction false} FindIterComplete(t: string, i: nat, p: nat)
    requires i <= p <= |t| && CanMatchAt(t, p)
    ensures exists k :: 0 <= k < |FindIter(t, i)| && FindIter(t, i)[k].start <= p < MatchEnd(FindIter(t, i)[k])
    decreases |t| - i
  {
    var ms := FindIter(t, i);
    if CanMatchAt(t, i) {
      var e := RunEnd(t, i + |Marker|);
      assert ms[0] == Match(i, t[i + |Marker|..e]);
      if p >= e {
        FindIterComplete(t, e, p);
        var k :| 0 <= k < |FindIter(t, e)| && FindIter(t, e)[k].start <= p < MatchEnd(FindIter(t, e)[k]);
        assert ms[k + 1] == FindIter(t, e)[k];
      } else {
        assert ms[0].start <= p < MatchEnd(ms[0]);
      }
    } else {
      assert i < p;
      FindIterComplete(t, i + 1, p);
    }
  }

  // ---------------------------------------------------------------------------
  // From comments to requirement names and locations
  // ---------------------------------------------------------------------------

  /** One reference to a requirement name. */
  datatype Occurrence = Occurrence(name: string, loc: Location)

  /**
   * The references in one fragment; a location's column is the match start
   * plus the fragment's column plus one.
   */
  function OccurrencesIn(c: Comment): seq<Occurrence>
  {
    var ms := FindIter(c.text, 0);
    seq(|ms|, k requires 0 <= k < |ms| => Occurrence(ms[k].name, Location(c.file, c.line, ms[k].start + c.col + 1)))
  }

  /** The references in a sequence of fragments, in order. */
  function Occurrences(cs: seq<Comment>): seq<Occurrence>
  {
    if cs == [] then [] else Occurrences(cs[..|cs| - 1]) + OccurrencesIn(cs[|cs| - 1])
  }

  /** Record one reference: a new name starts a list, a known one appends. */
  function AddOccurrence(reqs: Requirements, o: Occurrence): Requirements
  {
    if o.name in reqs then reqs[o.name := reqs[o.name].(locations := reqs[o.name].locations + [o.loc])]
    else reqs[o.name := Requirement([o.loc], None)]
  }

  /** The map built from a sequence of references: the specification of `ExtractRequirements`. */
  function Collect(occs: seq<Occurrence>): Requirements
  {
    if occs == [] then map[] else AddOccurrence(Collect(occs[..|occs| - 1]), occs[|occs| - 1])
  }

  /** The locations of the references to `name`, in order. */
  function LocationsOf(occs: seq<Occurrence>, name: string): seq<Location>
  {
    if occs == [] then []
    else
      var o := occs[|occs| - 1];
      LocationsOf(occs[..|occs| - 1], name) + (if o.name == name then [o.loc] else [])
  }

  function NamesOf(occs: seq<Occurrence>): set<string>
  {
    set k | 0 <= k < |occs| :: occs[k].name
  }

  lemma NamesOfSnoc(occs: seq<Occurrence>)
    requires occs != []
    ensures NamesOf(occs) == NamesOf(occs[..|occs| - 1]) + {occs[|occs| - 1].name}
  {
    var n := |occs| - 1;
    var front := occs[..n];
    forall name | name in NamesOf(occs) ensures name in NamesOf(front) + {occs[n].name} {
      var k :| 0 <= k < |occs| && occs[k].name == name;
      if k < n { assert front[k] == occs[k]; }
    }
    forall name | name in NamesOf(front) ensures name in NamesOf(occs) {
      var k :| 0 <= k < |front| && front[k].name == name;
      assert occs[k] == front[k];
    }
  }

  /**
   * The map has one key per referenced name, and under each key all the
   * locations of that name in order, never overwritten and never empty.
   */
  lemma {:induction false} CollectGathers(occs: seq<Occurrence>)
    ensures Collect(occs).Keys == NamesOf(occs)
    ensures forall name :: name in Collect(occs) ==>
              Collect(occs)[name] == Requirement(LocationsOf(occs, name), None)
              && LocationsOf(occs, name) != []
    ensures forall name :: name !in Collect(occs) ==> LocationsOf(occs, name) == []
  {
    if occs != [] {
      var n := |occs| - 1;
      var front := occs[..n];
      CollectGathers(front);
      NamesOfSnoc(occs);
      var o := occs[n];
      forall name
        ensures name in Collect(occs) ==>
                  Collect(occs)[name] == Requirement(LocationsOf(occs, name), None)
                  && LocationsOf(occs, name) != []
        ensures name !in Collect(occs) ==> LocationsOf(occs, name) == []
      {
        assert LocationsOf(occs, name) == LocationsOf(front, name) + (if o.name == name then [o.loc] else []);
      }
    }
  }

  // ---------------------------------------------------------------------------
  // The total number of locations
  // ---------------------------------------------------------------------------

  /** The number of locations recorded under the names in `keys`. */
  ghost function SumLocations(reqs: Requirements, keys: set<string>): nat
    requires keys <= reqs.Keys
    decreases keys
  {
    if keys == {} then 0
    else
      var k :| k in keys;
      |reqs[k].locations| + SumLocations(reqs, keys - {k})
  }

  lemma {:induction false} SumLocationsSplit(reqs: Requirements, keys: set<string>, k: string)
    requires keys <= reqs.Keys && k in keys
    ensures SumLocations(reqs, keys) == |reqs[k].locations| + SumLocations(reqs, keys - {k})
    decreases keys
  {
    var j :| j in keys && SumLocations(reqs, keys) == |reqs[j].locations| + SumLocations(reqs, keys - {j});
    if j != k {
      SumLocationsSplit(reqs, keys - {j}, k);
      SumLocationsSplit(reqs, keys - {k}, j);
      assert keys - {j} - {k} == keys - {k} - {j};
    }
  }

  lemma {:induction false} SumLocationsAgree(a: Requirements, b: Requirements, keys: set<string>)
    requires keys <= a.Keys && keys <= b.Keys
    requires forall k :: k in keys ==> |a[k].locations| == |b[k].locations|
    ensures SumLocations(a, keys) == SumLocations(b, keys)
    decreases keys
  {
    if keys != {} {
      var k :| k in keys && SumLocations(a, keys) == |a[k].locations| + SumLocations(a, keys - {k});
      SumLocationsSplit(b, keys, k);
      SumLocationsAgree(a, b, keys - {k});
    }
  }

  /** Recording one reference adds exactly one location to the whole map. */
  lemma AddOccurrenceCountsOne(reqs: Requirements, o: Occurrence)
    ensures SumLocations(AddOccurrence(reqs, o), AddOccurrence(reqs, o).Keys) == SumLocations(reqs, reqs.Keys) + 1
  {
    var r := AddOccurrence(reqs, o);
    var rest := reqs.Keys - {o.name};
    SumLocationsSplit(r, r.Keys, o.name);
    SumLocationsAgree(r, reqs, rest);
    if o.name in reqs {
      SumLocationsSplit(reqs, reqs.Keys, o.name);
      assert r.Keys - {o.name} == rest;
    } else {
      assert r.Keys - {o.name} == reqs.Keys == rest;
    }
  }

  /** The locations in the map are exactly as many as the references. */
  lemma {:induction false} CollectCountsEveryOccurrence(occs: seq<Occurrence>)
    ensures SumLocations(Collect(occs), Collect(occs).Keys) == |occs|
  {
    if occs != [] {
      CollectCountsEveryOccurrence(occs[..|occs| - 1]);
      AddOccurrenceCountsOne(Collect(occs[..|occs| - 1]), occs[|occs| - 1]);
    }
  }

  // ---------------------------------------------------------------------------
  // Columns
  // ---------------------------------------------------------------------------

  /**
   * A reference found in the fragment of a source line points at the "@" of
   * "@req " in that line: its column is the 1-based column of the marker,
   * and the name follows the marker there.
   */
  lemma ReferenceColumnIsMarker(line: string, lineNo: int, file: string, k: nat)
    requires FindDashes(line) >= 0
    requires k < |OccurrencesIn(CommentOf(line, lineNo, file))|
    ensures var o := OccurrencesIn(CommentOf(line, lineNo, file))[k];
            && o.loc == Location(file, lineNo, o.loc.col)
            && 1 <= o.loc.col && o.loc.col + 4 + |o.name| <= |line|
            && line[o.loc.col - 1..o.loc.col + 4] == Marker
            && line[o.loc.col + 4..o.loc.col + 4 + |o.name|] == o.name
  {
    var c := CommentOf(line, lineNo, file);
    var pos := FindDashes(line);
    var ms := FindIter(c.text, 0);
    FindIterSound(c.text, 0);
    var m := ms[k];
    assert IsMaximalMatch(c.text, m);
    var at := pos + 2 + m.start;
    assert c.text == line[pos + 2..];
    assert line[at..at + |Marker|] == c.text[m.start..m.start + |Marker|];
    assert line[at + |Marker|..at + |Marker| + |m.name|] == c.text[m.start + |Marker|..MatchEnd(m)];
  }

  /** The two steps of the loop body (create if new, then append) add one reference. */
  lemma RecordReference(reqs: Requirements, o: Occurrence)
    ensures var created := if o.name !in reqs then reqs[o.name := Requirement([], None)] else reqs;
            created[o.name := created[o.name].(locations := created[o.name].locations + [o.loc])]
            == AddOccurrence(reqs, o)
  {
    assert [] + [o.loc] == [o.loc];
  }

  lemma AppendSlice<T>(a: seq<T>, b: seq<T>, j: nat)
    requires j < |b|
    ensures a + b[..j + 1] == (a + b[..j]) + [b[j]]
  {
  }

  lemma CollectSnoc(occs: seq<Occurrence>, o: Occurrence)
    ensures Collect(occs + [o]) == AddOccurrence(Collect(occs), o)
  {
    assert (occs + [o])[..|occs|] == occs;
  }

  /** Recording match `j` of fragment `c` extends the map by that reference. */
  lemma CollectNextReference(done: seq<Occurrence>, c: Comment, j: nat)
    requires j < |FindIter(c.text, 0)|
    ensures var m := FindIter(c.text, 0)[j];
            Collect(done + OccurrencesIn(c)[..j + 1])
            == AddOccurrence(Collect(done + OccurrencesIn(c)[..j]), Occurrence(m.name, Location(c.file, c.line, m.start + c.col + 1)))
  {
    var here := OccurrencesIn(c);
    AppendSlice(done, here, j);
    CollectSnoc(done + here[..j], here[j]);
  }

  lemma OccurrencesSnoc(cs: seq<Comment>, c: Comment)
    ensures Occurrences(cs + [c]) == Occurrences(cs) + OccurrencesIn(c)
  {
    assert (cs + [c])[..|cs|] == cs;
  }

  // ---------------------------------------------------------------------------
  // _extract_requirements
  // ---------------------------------------------------------------------------

  /**
   * `_extract_requirements`: for each fragment and each match in it, create
   * the name's entry if it is new and append the location to its list.
   */
  method ExtractRequirements(comment: seq<Comment>) returns (reqs: Requirements)
    ensures reqs == Collect(Occurrences(comment))
  {
    reqs := map[];
    for i := 0 to |comment|
      invariant reqs == Collect(Occurrences(comment[..i]))
    {
      var c := comment[i];
      var results := FindIter(c.text, 0);
      ghost var done := Occurrences(comment[..i]);
      ghost var here := OccurrencesIn(c);
      assert done + here[..0] == done;
      for j := 0 to |results|
        invariant reqs == Collect(done + here[..j])
      {
        var m := results[j];
        var colstart := m.start + c.col + 1;
        var reqname := m.name;
        ghost var before := reqs;
        if reqname !in reqs {
          reqs := reqs[reqname := Requirement([], None)];
        }
        reqs := reqs[reqname := reqs[reqname].(locations := reqs[reqname].locations + [Location(c.file, c.line, colstart)])];
        RecordReference(before, Occurrence(reqname, Location(c.file, c.line, colstart)));
        CollectNextReference(done, c, j);
      }
      assert here[..|results|] == here;
      assert comment[..i + 1] == comment[..i] + [c];
      OccurrencesSnoc(comment[..i], c);
    }
    assert comment[..|comment|] == comment;
  }
}
