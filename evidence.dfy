/**
 * The evidence check run on one clade hypothesis. The source runs it twice
 * with identical code (once for the walk's first step, once inside the walk's
 * loop); both copies are this one method.
 */
module Evidence {
  import opened Trees
  import opened F4Table

  /**
   * One clade hypothesis: `v` is the candidate clade, `u` the group tested as
   * its sister, `t` the rest of the tree's leaves. The statistics that bear on
   * it are f4(Outgroup; a, b, c) with a in t, b in u, c in v.
   */
  datatype Hypothesis = Hypothesis(t: set<Name>, u: set<Name>, v: set<Name>)

  /** The four populations a row is about, without its Z-score. */
  datatype Key = Key(out: Name, p1: Name, p2: Name, p3: Name)

  /** The outcome of one check: the offending rows and the verdict. */
  datatype Assessment = Assessment(hypothesis: Hypothesis, violations: seq<Row>, rejected: bool)

  function KeyOf(r: Row): Key
  {
    Key(r.out, r.p1, r.p2, r.p3)
  }

  /** `k` is one of the statistics f4(outgroup; t x u x v). */
  predicate InCross(k: Key, outgroup: Name, h: Hypothesis)
  {
    k.out == outgroup && k.p1 in h.t && k.p2 in h.u && k.p3 in h.v
  }

  function Abs(x: real): real
  {
    if x < 0.0 then -x else x
  }

  /** The row bears on the hypothesis and its Z-score is strictly beyond the threshold. */
  predicate Violates(r: Row, outgroup: Name, h: Hypothesis, threshold: real)
  {
    InCross(KeyOf(r), outgroup, h) && Abs(r.z) > threshold
  }

  /** The rows of `rows` that bear on the hypothesis, in table order. */
  function Applicable(rows: seq<Row>, outgroup: Name, h: Hypothesis): seq<Row>
  {
    if rows == [] then []
    else
      var last := rows[|rows| - 1];
      Applicable(rows[..|rows| - 1], outgroup, h) + (if InCross(KeyOf(last), outgroup, h) then [last] else [])
  }

  /** The rows of `rows` whose Z-score is strictly beyond the threshold, in order. */
  function Significant(rows: seq<Row>, threshold: real): seq<Row>
  {
    if rows == [] then []
    else
      var last := rows[|rows| - 1];
      Significant(rows[..|rows| - 1], threshold) + (if Abs(last.z) > threshold then [last] else [])
  }

  /** The violations the check reports for a hypothesis, in table order. */
  function Violations(table: seq<Row>, outgroup: Name, h: Hypothesis, threshold: real): seq<Row>
  {
    Significant(Applicable(table, outgroup, h), threshold)
  }

  /** What one check returns: the violations and "rejected" iff there is one. */
  function Assess(table: seq<Row>, outgroup: Name, h: Hypothesis, threshold: real): Assessment
  {
    var found := Violations(table, outgroup, h, threshold);
    Assessment(h, found, found != [])
  }

  lemma {:induction false} ApplicableMembership(rows: seq<Row>, outgroup: Name, h: Hypothesis)
    ensures forall r :: r in Applicable(rows, outgroup, h) <==> r in rows && InCross(KeyOf(r), outgroup, h)
  {
    if rows != [] {
      ApplicableMembership(rows[..|rows| - 1], outgroup, h);
      assert rows == rows[..|rows| - 1] + [rows[|rows| - 1]];
    }
  }

  lemma {:induction false} SignificantMembership(rows: seq<Row>, threshold: real)
    ensures forall r :: r in Significant(rows, threshold) <==> r in rows && Abs(r.z) > threshold
  {
    if rows != [] {
      SignificantMembership(rows[..|rows| - 1], threshold);
      assert rows == rows[..|rows| - 1] + [rows[|rows| - 1]];
    }
  }

  /**
   * A row is reported iff its outgroup is `outgroup`, its populations lie in
   * t x u x v, and |z| > threshold.
   */
  lemma ViolationsExact(table: seq<Row>, outgroup: Name, h: Hypothesis, threshold: real)
    ensures forall r :: r in Violations(table, outgroup, h, threshold) <==> r in table && Violates(r, outgroup, h, threshold)
  {
    ApplicableMembership(table, outgroup, h);
    SignificantMembership(Applicable(table, outgroup, h), threshold);
  }

  /**
   * The threshold is strict: a row with |z| equal to it is never a violation,
   * while an applicable row with |z| above it always is.
   */
  lemma ThresholdBoundary(table: seq<Row>, outgroup: Name, h: Hypothesis, threshold: real, r: Row)
    requires r in table && InCross(KeyOf(r), outgroup, h)
    ensures Abs(r.z) == threshold ==> r !in Violations(table, outgroup, h, threshold)
    ensures Abs(r.z) > threshold ==> r in Violations(table, outgroup, h, threshold)
  {
    ViolationsExact(table, outgroup, h, threshold);
  }

  /** The clade is rejected iff some row of the table violates it. */
  lemma RejectedExact(table: seq<Row>, outgroup: Name, h: Hypothesis, threshold: real)
    ensures Assess(table, outgroup, h, threshold).rejected <==> exists r :: r in table && Violates(r, outgroup, h, threshold)
  {
    ViolationsExact(table, outgroup, h, threshold);
    var found := Violations(table, outgroup, h, threshold);
    if found != [] {
      assert found[0] in found;
    }
  }

  /** A hypothesis with no statistic about it is never rejected: missing data is not evidence. */
  lemma NoDataNoRejection(table: seq<Row>, outgroup: Name, h: Hypothesis, threshold: real)
    requires forall r :: r in table ==> !InCross(KeyOf(r), outgroup, h)
    ensures !Assess(table, outgroup, h, threshold).rejected
  {
    RejectedExact(table, outgroup, h, threshold);
  }

  /**
   * Lists the keys f4(outgroup; a, b, c) for every (a, b, c) in t x u x v
   * (the source's `Subtable`, built with `itertools.product`).
   */
  method CrossKeys(outgroup: Name, h: Hypothesis) returns (sub: seq<Key>)
    ensures forall k :: k in sub <==> InCross(k, outgroup, h)
  {
    sub := [];
    var ts := h.t;
    while ts != {}
      invariant ts <= h.t
      invariant forall k :: k in sub <==> k.out == outgroup && k.p1 in h.t - ts && k.p2 in h.u && k.p3 in h.v
      decreases ts
    {
      var a :| a in ts;
      var us := h.u;
      while us != {}
        invariant us <= h.u
        invariant forall k :: k in sub <==>
          (k.out == outgroup && k.p3 in h.v && ((k.p1 in h.t - ts && k.p2 in h.u) || (k.p1 == a && k.p2 in h.u - us)))
        decreases us
      {
        var b :| b in us;
        var vs := h.v;
        while vs != {}
          invariant vs <= h.v
          invariant forall k :: k in sub <==>
            (k.out == outgroup &&
             ((k.p1 in h.t - ts && k.p2 in h.u && k.p3 in h.v) ||
              (k.p1 == a && k.p2 in h.u - us && k.p3 in h.v) ||
              (k.p1 == a && k.p2 == b && k.p3 in h.v - vs)))
          decreases vs
        {
          var c :| c in vs;
          sub := sub + [Key(outgroup, a, b, c)];
          vs := vs - {c};
        }
        us := us - {b};
      }
      ts := ts - {a};
    }
  }

  /**
   * Checks one hypothesis against the listed table: keeps the rows whose key
   * is in t x u x v, then reports those with |z| > threshold and rejects the
   * clade iff there is at least one.
   */
  method Evaluate(table: seq<Row>, outgroup: Name, h: Hypothesis, threshold: real) returns (result: Assessment)
    ensures result == Assess(table, outgroup, h, threshold)
    ensures result.hypothesis == h
    ensures forall r :: r in result.violations <==> r in table && Violates(r, outgroup, h, threshold)
    ensures result.rejected <==> result.violations != []
  {
    var sub := CrossKeys(outgroup, h);
    var results := [];
    for i := 0 to |table|
      invariant results == Applicable(table[..i], outgroup, h)
    {
      assert table[..i + 1][..i] == table[..i];
      if KeyOf(table[i]) in sub {
        results := results + [table[i]];
      }
    }
    assert table[..|table|] == table;
    var evidenceFound := false;
    var violations := [];
    for i := 0 to |results|
      invariant violations == Significant(results[..i], threshold)
      invariant evidenceFound <==> violations != []
    {
      assert results[..i + 1][..i] == results[..i];
      if Abs(results[i].z) > threshold {
        evidenceFound := true;
        violations := violations + [results[i]];
      }
    }
    assert results[..|results|] == results;
    result := Assessment(h, violations, evidenceFound);
    ViolationsExact(table, outgroup, h, threshold);
  }
}
