/**
 * What the tracer reports about a subprogram: how many lines of code there
 * are per requirement named in it (its density), and whether any of the
 * requirements it names exists in the database (its justification).
 */
module Metrics {
  import opened Wrappers
  import opened Annotations
  import opened Database

  // ---------------------------------------------------------------------------
  // Density
  // ---------------------------------------------------------------------------

  /** Lines of code per requirement: a whole number, or infinity with no requirement. */
  datatype Density = Finite(n: int) | Infinite

  datatype DensityCategory = LowDensity | GoodDensity

  /** Python 2 `sloc/rcount` on integers, or `float("inf")` when `rcount` is 0. */
  function SlocPerLlr(sloc: int, rcount: nat): (d: Density)
    ensures d.Infinite? <==> rcount == 0
    ensures d.Finite? ==> d.n * rcount <= sloc < (d.n + 1) * rcount
  {
    if rcount > 0 then Finite(sloc / rcount) else Infinite
  }

  /**
   * `slocperllr > target` with Python 2 ordering: infinity exceeds every
   * number, and every number exceeds `None`, the target before a project
   * is loaded.
   */
  predicate Exceeds(d: Density, target: Option<int>) {
    match (d, target)
    case (_, None) => true
    case (Infinite, Some(_)) => true
    case (Finite(n), Some(t)) => n > t
  }

  /** The density of a block from line `startLine` to line `endLine` naming the requirements `reqs`. */
  function DensityOf(startLine: int, endLine: int, reqs: Requirements): Density
  {
    SlocPerLlr(endLine - startLine + 1, |reqs.Keys|)
  }

  /** The category `check_density` files the block under. */
  function CategoryOf(startLine: int, endLine: int, reqs: Requirements, target: Option<int>): DensityCategory
  {
    if Exceeds(DensityOf(startLine, endLine, reqs), target) then LowDensity else GoodDensity
  }

  /** A block naming no requirement always has low density. */
  lemma NoRequirementsIsLow(startLine: int, endLine: int, reqs: Requirements, target: Option<int>)
    requires reqs == map[]
    ensures CategoryOf(startLine, endLine, reqs, target) == LowDensity
  {
  }

  /** Forty lines with two requirements against the default target of 20 is good density. */
  lemma FortyLinesTwoRequirementsIsGood(reqs: Requirements)
    requires |reqs.Keys| == 2
    ensures DensityOf(11, 50, reqs) == Finite(20)
    ensures CategoryOf(11, 50, reqs, Some(20)) == GoodDensity
  {
  }

  /**
   * Against a target `t`, a block naming some requirement has low density
   * exactly when it has at least `(t + 1) * rcount` lines.
   */
  lemma LowIffManyLines(startLine: int, endLine: int, reqs: Requirements, t: int)
    requires reqs != map[]
    ensures var sloc := endLine - startLine + 1;
            CategoryOf(startLine, endLine, reqs, Some(t)) == LowDensity <==> sloc >= (t + 1) * |reqs.Keys|
  {
    var sloc := endLine - startLine + 1;
    var r := |reqs.Keys|;
    assert reqs.Keys != {} by {
      var k :| k in reqs;
    }
    var q := sloc / r;
    assert q * r <= sloc < (q + 1) * r;
    if q > t {
      MulMonotone(t + 1, q, r);
    } else {
      MulMonotone(q + 1, t + 1, r);
    }
  }

  lemma MulMonotone(a: int, b: int, r: nat)
    requires a <= b
    ensures a * r <= b * r
  {
  }

  /** Floor division of a non-negative number by a larger divisor gives no more. */
  lemma DivAntitone(s: nat, a: nat, b: nat)
    requires 0 < a <= b
    ensures s / b <= s / a
  {
    var q := s / b;
    MulMonotone(a, b, q);
    assert q * a <= s;
    if q > s / a {
      MulMonotone(s / a + 1, q, a);
    }
  }

  /**
   * Naming more requirements never turns good density into low density, for
   * a block of non-negative length.
   */
  lemma MoreRequirementsStayGood(startLine: int, endLine: int, few: Requirements, many: Requirements, t: int)
    requires endLine - startLine + 1 >= 0
    requires few != map[] && few.Keys <= many.Keys
    requires CategoryOf(startLine, endLine, few, Some(t)) == GoodDensity
    ensures CategoryOf(startLine, endLine, many, Some(t)) == GoodDensity
  {
    assert few.Keys != {} by {
      var k :| k in few;
    }
    CardinalityOfSubset(few.Keys, many.Keys);
    DivAntitone(endLine - startLine + 1, |few.Keys|, |many.Keys|);
  }

  lemma CardinalityOfSubset<T>(a: set<T>, b: set<T>)
    requires a <= b
    ensures |a| <= |b|
  {
    assert b == a + (b - a);
  }

  /**
   * The density counts names, not database entries: marking every entry
   * against the database leaves it unchanged.
   */
  lemma DensityIgnoresDatabase(startLine: int, endLine: int, reqs: Requirements, dbResult: Option<set<string>>, target: Option<int>)
    ensures DensityOf(startLine, endLine, Checked(reqs, dbResult)) == DensityOf(startLine, endLine, reqs)
    ensures CategoryOf(startLine, endLine, Checked(reqs, dbResult), target) == CategoryOf(startLine, endLine, reqs, target)
  {
    assert Checked(reqs, dbResult).Keys == reqs.Keys;
  }

  // ---------------------------------------------------------------------------
  // Justification
  // ---------------------------------------------------------------------------

  /** A subprogram is justified by the requirements it names that are in the database. */
  datatype Justification = Unjustified | Justified(names: set<string>)

  /** The entries whose requirement is known to be in the database. */
  function ValidRequirements(codereqs: Requirements): (valid: Requirements)
    ensures valid.Keys <= codereqs.Keys
    ensures forall k :: k in valid ==> valid[k] == codereqs[k] && codereqs[k].inDatabase == Some(true)
    ensures forall k :: k in codereqs && codereqs[k].inDatabase == Some(true) ==> k in valid
  {
    map k | k in codereqs && codereqs[k].inDatabase == Some(true) :: codereqs[k]
  }

  /** `mark_unjustified_code`'s verdict: unjustified when no valid entry remains. */
  function Justify(codereqs: Requirements): Justification
  {
    var valid := ValidRequirements(codereqs);
    if valid == map[] then Unjustified else Justified(valid.Keys)
  }

  /**
   * After the database check a subprogram is unjustified exactly when none
   * of its names is in the database, and otherwise is justified by exactly
   * the names that are.
   */
  lemma JustifyChecked(codereqs: Requirements, dbResult: Option<set<string>>)
    ensures Justify(Checked(codereqs, dbResult)).Unjustified?
            <==> forall k :: k in codereqs ==> !InDatabase(k, dbResult)
    ensures Justify(Checked(codereqs, dbResult)).Justified? ==>
              Justify(Checked(codereqs, dbResult)).names
              == set k | k in codereqs && InDatabase(k, dbResult)
  {
    var valid := ValidRequirements(Checked(codereqs, dbResult));
    if valid == map[] {
      forall k | k in codereqs ensures !InDatabase(k, dbResult) {
        assert k !in valid;
      }
    } else {
      var k :| k in valid;
      assert InDatabase(k, dbResult);
    }
  }

  /** With an empty or missing database answer every subprogram is unjustified. */
  lemma NoDatabaseUnjustifies(codereqs: Requirements)
    ensures Justify(Checked(codereqs, None)) == Unjustified
    ensures Justify(Checked(codereqs, Some({}))) == Unjustified
  {
    JustifyChecked(codereqs, None);
    JustifyChecked(codereqs, Some({}));
  }
}
