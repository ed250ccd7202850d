/**
 * The f4-statistics table and its completion under the antisymmetry
 * f4(O; A, B, C) = -f4(O; A, C, B).
 *
 * The source keeps each row as five text fields and writes the negated
 * Z-score back as text (`str(-1*float(z))`), so a row whose counterpart is
 * present with a differently spelled number ("-4.50" against "-4.5") gains a
 * near-duplicate. Here a Z-score is a `real` and negation is exact, so that
 * cannot happen.
 */
module F4Table {
  import opened Trees

  /** One statistic f4(out; p1, p2, p3) with its Z-score. */
  datatype Row = Row(out: Name, p1: Name, p2: Name, p3: Name, z: real)

  /** The antisymmetric counterpart of a row: p2 and p3 swapped, Z negated. */
  function Swap(r: Row): Row
  {
    r.(p2 := r.p3, p3 := r.p2, z := -r.z)
  }

  /** The rows of `rows` together with the counterpart of each. */
  function Expanded(rows: set<Row>): set<Row>
  {
    rows + set r | r in rows :: Swap(r)
  }

  /** A row is in the expansion iff it, or its counterpart, was given. */
  lemma ExpandedMembership(rows: set<Row>, r: Row)
    ensures r in Expanded(rows) <==> r in rows || Swap(r) in rows
  {
    if Swap(r) in rows {
      assert Swap(Swap(r)) == r;
    }
  }

  /** Expansion only adds rows, and every added row is the counterpart of a given one. */
  lemma ExpansionOnlyAdds(rows: set<Row>)
    ensures rows <= Expanded(rows)
    ensures forall r :: r in Expanded(rows) - rows ==> exists s :: s in rows && r == Swap(s)
  {
    forall r | r in Expanded(rows) - rows ensures exists s :: s in rows && r == Swap(s) {
      ExpandedMembership(rows, r);
      assert Swap(r) in rows && r == Swap(Swap(r));
    }
  }

  /** The expansion is closed under the antisymmetry. */
  lemma ExpandedClosed(rows: set<Row>)
    ensures forall r :: r in Expanded(rows) ==> Swap(r) in Expanded(rows)
  {
    forall r | r in Expanded(rows) ensures Swap(r) in Expanded(rows) {
      ExpandedMembership(rows, r);
      ExpandedMembership(rows, Swap(r));
    }
  }

  /** The expansion is the least closed superset: any closed table holding `rows` holds it. */
  lemma ExpandedLeast(rows: set<Row>, closed: set<Row>)
    requires rows <= closed
    requires forall r :: r in closed ==> Swap(r) in closed
    ensures Expanded(rows) <= closed
  {
    forall r | r in Expanded(rows) ensures r in closed {
      ExpandedMembership(rows, r);
      if r !in rows {
        assert Swap(Swap(r)) in closed;
      }
    }
  }

  /** Expanding twice adds nothing. */
  lemma ExpandedIdempotent(rows: set<Row>)
    ensures Expanded(Expanded(rows)) == Expanded(rows)
  {
    ExpandedClosed(rows);
    ExpandedLeast(Expanded(rows), Expanded(rows));
  }

  /**
   * Builds the expanded row set: the given rows as a set, then, for each of
   * them, its counterpart unless that row is already there. The loop runs over
   * a copy of the initial set, in whatever order the set yields its rows.
   */
  method Expand(table: seq<Row>) returns (f4: set<Row>)
    ensures f4 == Expanded(set r | r in table)
  {
    var given := set r | r in table;
    f4 := given;
    var pending := f4;
    while pending != {}
      invariant pending <= given
      invariant forall r :: r in f4 <==> r in given || (Swap(r) in given && Swap(r) !in pending)
      decreases pending
    {
      var row :| row in pending;
      var counterpart := Swap(row);
      if counterpart !in f4 {
        f4 := f4 + {counterpart};
      }
      pending := pending - {row};
    }
    forall r ensures r in f4 <==> r in Expanded(given) {
      ExpandedMembership(given, r);
    }
  }

  /**
   * Lists a row set (Python's `list(f4_set)`): every row once, in whatever
   * order the set yields them.
   */
  method ListRows(rows: set<Row>) returns (listed: seq<Row>)
    ensures forall r :: r in listed <==> r in rows
    ensures forall i, j :: 0 <= i < j < |listed| ==> listed[i] != listed[j]
  {
    listed := [];
    var rest := rows;
    while rest != {}
      invariant rest <= rows
      invariant forall r :: r in listed <==> r in rows - rest
      invariant forall i, j :: 0 <= i < j < |listed| ==> listed[i] != listed[j]
      decreases rest
    {
      var row :| row in rest;
      assert row !in listed;
      ghost var before := listed;
      listed := listed + [row];
      assert forall i :: 0 <= i < |before| ==> listed[i] == before[i] != row;
      rest := rest - {row};
    }
  }
}
