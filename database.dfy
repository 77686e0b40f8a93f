/**
 * Checking requirement names against the requirements database: a name is
 * in the database when its lower-case form is the lower-case form of one
 * of the database's names.
 */
module Database {
  import opened Wrappers
  import opened Text
  import opened Annotations

  /** The lower-cased names of the database, built once per check. */
  function LowerAll(names: set<string>): set<string>
  {
    set n | n in names :: Lower(n)
  }

  /**
   * Whether `name` is in the database's answer `dbResult`; `None` stands for
   * an answer that is empty or missing, where nothing is in the database.
   */
  predicate InDatabase(name: string, dbResult: Option<set<string>>) {
    dbResult.Some? && Lower(name) in LowerAll(dbResult.value)
  }

  /** Membership ignores case: it holds iff some stored name equals `name` up to case. */
  lemma InDatabaseIgnoresCase(name: string, dbResult: Option<set<string>>)
    ensures InDatabase(name, dbResult) <==>
              dbResult.Some? && exists n :: n in dbResult.value && Lower(n) == Lower(name)
  {
  }

  /** Two names that differ only in case are both in the database or both not. */
  lemma SameUpToCase(a: string, b: string, dbResult: Option<set<string>>)
    requires Lower(a) == Lower(b)
    ensures InDatabase(a, dbResult) == InDatabase(b, dbResult)
  {
  }

  /** "Foo-1" and "foo-1" both match a stored "FOO-1". */
  lemma MixedCaseReferencesMatch()
    ensures InDatabase("Foo-1", Some({"FOO-1"})) && InDatabase("foo-1", Some({"FOO-1"}))
  {
    assert Lower("FOO-1") == "foo-1";
    assert Lower("Foo-1") == "foo-1";
    assert Lower("foo-1") == "foo-1";
    assert LowerAll({"FOO-1"}) == {"foo-1"};
  }

  /** With an empty or missing answer nothing is in the database. */
  lemma EmptyDatabaseHoldsNothing(name: string)
    ensures !InDatabase(name, None) && !InDatabase(name, Some({}))
  {
  }

  /** The checked map as a value: every entry marked, nothing else changed. */
  function Checked(codereqs: Requirements, dbResult: Option<set<string>>): Requirements
  {
    map k | k in codereqs :: codereqs[k].(inDatabase := Some(InDatabase(k, dbResult)))
  }

  /**
   * `_check_requirements`: mark `in_database` on every entry of `codereqs`;
   * when the database answers nothing every entry is marked false, otherwise
   * by case-insensitive membership. Keys and locations are left alone.
   */
  method CheckRequirements(codereqs: Requirements, dbResult: Option<set<string>>) returns (checked: Requirements)
    ensures checked.Keys == codereqs.Keys
    ensures forall k :: k in checked ==> checked[k].locations == codereqs[k].locations
    ensures forall k :: k in checked ==> checked[k].inDatabase == Some(InDatabase(k, dbResult))
  {
    checked := codereqs;
    var todo := codereqs.Keys;
    if dbResult.None? || dbResult.value == {} {
      while todo != {}
        invariant todo <= codereqs.Keys && checked.Keys == codereqs.Keys
        invariant forall k :: k in checked ==> checked[k].locations == codereqs[k].locations
        invariant forall k :: k in checked && k !in todo ==> checked[k].inDatabase == Some(false)
        decreases todo
      {
        var k :| k in todo;
        checked := checked[k := checked[k].(inDatabase := Some(false))];
        todo := todo - {k};
      }
    } else {
      var dbreqs := LowerAll(dbResult.value);
      while todo != {}
        invariant todo <= codereqs.Keys && checked.Keys == codereqs.Keys
        invariant forall k :: k in checked ==> checked[k].locations == codereqs[k].locations
        invariant forall k :: k in checked && k !in todo ==> checked[k].inDatabase == Some(Lower(k) in dbreqs)
        decreases todo
      {
        var k :| k in todo;
        if Lower(k) in dbreqs {
          checked := checked[k := checked[k].(inDatabase := Some(true))];
        } else {
          checked := checked[k := checked[k].(inDatabase := Some(false))];
        }
        todo := todo - {k};
      }
    }
  }

  /** What `CheckRequirements` promises determines its result: it is `Checked`. */
  lemma CheckIsChecked(codereqs: Requirements, dbResult: Option<set<string>>, checked: Requirements)
    requires checked.Keys == codereqs.Keys
    requires forall k :: k in checked ==> checked[k].locations == codereqs[k].locations
    requires forall k :: k in checked ==> checked[k].inDatabase == Some(InDatabase(k, dbResult))
    ensures checked == Checked(codereqs, dbResult)
  {
    forall k | k in checked ensures checked[k] == Checked(codereqs, dbResult)[k] {
      var r := checked[k];
      assert r == Requirement(r.locations, r.inDatabase);
    }
  }
}
