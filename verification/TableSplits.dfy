/**
 Adding split points: normalizing the request, planning a round against the
 current tablets, and the bounded rounds that retry what was not confirmed.
 The manager and the tablet map are the environment of each round.
 */
module TableSplits {
  import opened Wrappers
  import opened Bytes
  import opened TabletExtents

  predicate Ascending(rows: seq<Row>) { forall i, j | 0 <= i < j < |rows| :: AtMost(rows[i], rows[j]) }

  // ---- normalizeSplitRows ----

  /** `sort.Slice` by `bytes.Compare`. */
  method SortRows(rows: seq<Row>) returns (sorted: seq<Row>)
    ensures Ascending(sorted) && RowSet(sorted) == RowSet(rows) && |sorted| == |rows|
  {
    sorted := [];
    for n := 0 to |rows|
      invariant Ascending(sorted) && RowSet(sorted) == RowSet(rows[..n]) && |sorted| == n
    {
      RowSetSnoc(rows[..n], rows[n]);
      assert rows[..n + 1] == rows[..n] + [rows[n]];
      sorted := InsertRow(sorted, rows[n]);
    }
    assert rows[..|rows|] == rows;
  }

  lemma RowSetSnoc(rows: seq<Row>, r: Row)
    ensures RowSet(rows + [r]) == RowSet(rows) + {r}
  {
  }

  method InsertRow(sorted: seq<Row>, r: Row) returns (out: seq<Row>)
    requires Ascending(sorted)
    ensures Ascending(out) && RowSet(out) == RowSet(sorted) + {r} && |out| == |sorted| + 1
  {
    var i := |sorted|;
    while i > 0 && Compare(sorted[i - 1], r) > 0
      invariant 0 <= i <= |sorted|
      invariant forall j | i <= j < |sorted| :: AtMost(r, sorted[j])
    {
      CompareAntisymmetric(sorted[i - 1], r);
      i := i - 1;
    }
    forall j | 0 <= j < i ensures AtMost(sorted[j], r) {
      if j < i - 1 { CompareTransitive(sorted[j], sorted[i - 1], r); }
    }
    out := sorted[..i] + [r] + sorted[i..];
    InsertedRow(sorted, i, r);
  }

  lemma InsertedRow(sorted: seq<Row>, i: nat, r: Row)
    requires i <= |sorted| && Ascending(sorted)
    requires (forall j | 0 <= j < i :: AtMost(sorted[j], r)) && (forall j | i <= j < |sorted| :: AtMost(r, sorted[j]))
    ensures var out := sorted[..i] + [r] + sorted[i..]; Ascending(out) && RowSet(out) == RowSet(sorted) + {r}
  {
    hide Compare;
    var front, back := sorted[..i], sorted[i..];
    assert sorted == front + back;
    var out := front + [r] + back;
    assert forall x :: x in out <==> x in front || x == r || x in back;
  }

  /** Sorted, without repeats, the same rows; an empty request or an empty row is refused. */
  method NormalizeSplitRows(splits: seq<Row>) returns (r: Result<seq<Row>, nat>)
    ensures r.Ok? <==> splits != [] && forall i | 0 <= i < |splits| :: splits[i] != []
    ensures r.Ok? ==> StrictlySorted(r.value) && RowSet(r.value) == RowSet(splits)
    ensures r.Err? && splits != [] ==>
              && r.error < |splits| && splits[r.error] == []
              && forall i | 0 <= i < r.error :: splits[i] != []
  {
    if splits == [] {
      return Err(0);
    }
    for i := 0 to |splits|
      invariant forall j | 0 <= j < i :: splits[j] != []
    {
      if splits[i] == [] {
        return Err(i);
      }
    }
    var rows := SortRows(splits);
    var deduplicated := rows[..1];
    for i := 1 to |rows|
      invariant deduplicated != [] && deduplicated[|deduplicated| - 1] == rows[i - 1]
      invariant StrictlySorted(deduplicated) && RowSet(deduplicated) == RowSet(rows[..i])
    {
      assert rows[..i + 1] == rows[..i] + [rows[i]];
      RowSetSnoc(rows[..i], rows[i]);
      RowSetSnoc(deduplicated, rows[i]);
      if rows[i - 1] != rows[i] {
        CompareEqual(rows[i - 1], rows[i]);
        forall j | 0 <= j < |deduplicated| ensures Less(deduplicated[j], rows[i]) {
          if j < |deduplicated| - 1 { CompareTransitive(deduplicated[j], rows[i - 1], rows[i]); }
        }
        deduplicated := deduplicated + [rows[i]];
      } else {
        assert rows[i - 1] in rows[..i];
      }
    }
    assert rows[..|rows|] == rows;
    r := Ok(deduplicated);
  }

  // ---- removeSplitRows ----

  function Without(rows: seq<Row>, done: set<Row>): seq<Row> {
    if rows == [] then []
    else
      var last := rows[|rows| - 1];
      Without(rows[..|rows| - 1], done) + (if last in done then [] else [last])
  }

  lemma {:induction false} WithoutRows(rows: seq<Row>, done: set<Row>)
    ensures RowSet(Without(rows, done)) == RowSet(rows) - done
  {
    if rows != [] {
      var front, last := rows[..|rows| - 1], rows[|rows| - 1];
      WithoutRows(front, done);
      assert rows == front + [last];
      RowSetSnoc(front, last);
      RowSetSnoc(Without(front, done), last);
      assert Without(front, done) + [] == Without(front, done);
    }
  }

  lemma {:induction false} WithoutAscends(rows: seq<Row>, done: set<Row>)
    requires StrictlySorted(rows)
    ensures StrictlySorted(Without(rows, done))
  {
    hide Compare, Less;
    if rows != [] {
      var front, last := rows[..|rows| - 1], rows[|rows| - 1];
      WithoutAscends(front, done);
      WithoutRows(front, done);
      var kept := Without(front, done);
      forall i | 0 <= i < |kept| ensures Less(kept[i], last) {
        assert kept[i] in RowSet(kept);
        assert kept[i] in front;
      }
    }
  }

  lemma WithoutStep(rows: seq<Row>, i: nat, done: set<Row>)
    requires i < |rows|
    ensures Without(rows[..i + 1], done) == Without(rows[..i], done) + (if rows[i] in done then [] else [rows[i]])
  {
    assert rows[..i + 1][..i] == rows[..i];
  }

  /** Filters the pending rows in place; the first `left` slots hold what is left. */
  method RemoveSplitRows(pending: array<Row>, count: nat, completed: seq<Row>) returns (left: nat)
    requires count <= pending.Length
    modifies pending
    ensures left <= count && pending[..left] == Without(old(pending[..count]), RowSet(completed))
  {
    var done := set r | r in completed;
    ghost var before := pending[..count];
    left := 0;
    for i := 0 to count
      invariant left <= i && forall k | i <= k < count :: pending[k] == before[k]
      invariant pending[..left] == Without(before[..i], done)
    {
      hide Without;
      WithoutStep(before, i, done);
      if pending[i] !in done {
        pending[left] := pending[i];
        left := left + 1;
      }
    }
    assert before[..count] == before;
  }

  // ---- planTableSplits ----

  /** Tablets in ascending order that do not overlap; gaps are allowed. */
  predicate Ordered(tablets: seq<Extent>) {
    forall i, j | 0 <= i < j < |tablets| ::
      tablets[i].endRow.Some? && tablets[j].prevRow.Some? && AtMost(tablets[i].endRow.value, tablets[j].prevRow.value)
  }

  /** The ascending end-row order the locator keeps; no end row sorts last. */
  predicate EndsAscend(tablets: seq<Extent>) {
    forall i, j | 0 <= i < j < |tablets| ::
      tablets[i].endRow.Some? && (tablets[j].endRow.Some? ==> AtMost(tablets[i].endRow.value, tablets[j].endRow.value))
  }

  predicate Reaches(t: Extent, row: Row) { t.endRow.None? || Compare(t.endRow.value, row) >= 0 }

  /** `findSplitTablet`: a tablet that holds the row; -1 exactly when none of a non-overlapping list does. */
  method FindSplitTablet(tablets: seq<Extent>, row: Row) returns (index: int)
    requires EndsAscend(tablets)
    ensures -1 <= index < |tablets|
    ensures index >= 0 ==> Holds(tablets[index], row)
    ensures Ordered(tablets) ==> (index == -1 <==> forall i | 0 <= i < |tablets| :: !Holds(tablets[i], row))
  {
    hide Compare, Ordered;
    var low, high := 0, |tablets|;
    while low < high
      invariant 0 <= low <= high <= |tablets|
      invariant forall i | 0 <= i < low :: !Reaches(tablets[i], row)
      invariant high < |tablets| ==> Reaches(tablets[high], row)
    {
      var middle := (low + high) / 2;
      if Reaches(tablets[middle], row) {
        high := middle;
      } else {
        forall i | 0 <= i <= middle ensures !Reaches(tablets[i], row) {
          if i < middle { EarlierEndsEarlier(tablets, i, middle, row); }
        }
        low := middle + 1;
      }
    }
    if low < |tablets| {
      CandidateHolds(tablets[low], row);
    }
    if Ordered(tablets) {
      OnlyCandidate(tablets, low, row);
    }
    if low == |tablets| {
      return -1;
    }
    if tablets[low].prevRow.Some? && Compare(row, tablets[low].prevRow.value) <= 0 {
      return -1;
    }
    index := low;
  }

  lemma EarlierEndsEarlier(tablets: seq<Extent>, i: nat, j: nat, row: Row)
    requires EndsAscend(tablets) && i < j < |tablets| && !Reaches(tablets[j], row)
    ensures !Reaches(tablets[i], row)
  {
    CompareTransitive(tablets[i].endRow.value, tablets[j].endRow.value, row);
  }

  lemma CandidateHolds(t: Extent, row: Row)
    requires Reaches(t, row)
    ensures Holds(t, row) <==> t.prevRow.None? || !AtMost(row, t.prevRow.value)
  {
    if t.endRow.Some? {
      CompareAntisymmetric(t.endRow.value, row);
    }
  }

  /** Only the first tablet that reaches the row can hold it. */
  lemma OnlyCandidate(tablets: seq<Extent>, n: nat, row: Row)
    requires Ordered(tablets) && n <= |tablets|
    requires forall i | 0 <= i < n :: !Reaches(tablets[i], row)
    requires n < |tablets| ==> Reaches(tablets[n], row)
    ensures forall i | 0 <= i < |tablets| && i != n :: !Holds(tablets[i], row)
  {
    forall i | 0 <= i < |tablets| && i != n ensures !Holds(tablets[i], row) {
      if i < n {
        CompareAntisymmetric(tablets[i].endRow.value, row);
      } else {
        assert n < i && tablets[i].prevRow.Some?;
        CompareAntisymmetric(tablets[n].endRow.value, row);
        CompareTransitive(row, tablets[n].endRow.value, tablets[i].prevRow.value);
      }
    }
  }

  datatype Group = Group(extent: Extent, rows: seq<Row>)

  datatype SplitPlan = SplitPlan(groups: seq<Group>, existing: seq<Extent>, unresolved: seq<Row>)

  /** Strictly between the bounds of the tablet. */
  predicate StrictlyInside(t: Extent, row: Row) { Holds(t, row) && t.endRow != Some(row) }

  /** A request names one of the tablets and holds only rows strictly inside it. */
  predicate SoundGroup(tablets: seq<Extent>, g: Group) {
    g.extent in tablets && g.rows != [] && forall i | 0 <= i < |g.rows| :: StrictlyInside(g.extent, g.rows[i])
  }

  function GroupRows(groups: seq<Group>): set<Row> { set g, r | g in groups && r in g.rows :: r }

  function ExistingRows(existing: seq<Extent>): set<Row> {
    set e | e in existing && e.endRow.Some? :: e.endRow.value
  }

  /** Every pending row is in a request, already a tablet's end, or held by no tablet. */
  ghost predicate Plans(tablets: seq<Extent>, pending: seq<Row>, plan: SplitPlan) {
    && (forall i | 0 <= i < |plan.groups| :: SoundGroup(tablets, plan.groups[i]))
    && (forall e | e in plan.existing :: e in tablets && e.endRow.Some?)
    && (Ordered(tablets) ==> forall r | r in plan.unresolved :: forall i | 0 <= i < |tablets| :: !Holds(tablets[i], r))
    && GroupRows(plan.groups) + ExistingRows(plan.existing) + RowSet(plan.unresolved) == RowSet(pending)
  }

  lemma GroupRowsSnoc(groups: seq<Group>, g: Group)
    ensures GroupRows(groups + [g]) == GroupRows(groups) + RowSet(g.rows)
  {
  }

  lemma GroupRowsUpdate(groups: seq<Group>, i: nat, row: Row)
    requires i < |groups|
    ensures GroupRows(groups[i := Group(groups[i].extent, groups[i].rows + [row])]) == GroupRows(groups) + {row}
  {
    var after := groups[i := Group(groups[i].extent, groups[i].rows + [row])];
    forall r ensures r in GroupRows(after) <==> r in GroupRows(groups) + {row} {
      if r in GroupRows(after) {
        var k :| 0 <= k < |after| && r in after[k].rows;
        if k != i || r != row { assert r in groups[k].rows; }
      }
      if r in GroupRows(groups) {
        var k :| 0 <= k < |groups| && r in groups[k].rows;
        assert r in after[k].rows;
      }
      if r == row { assert row in after[i].rows; }
    }
  }

  lemma ExistingRowsSnoc(existing: seq<Extent>, e: Extent)
    requires e.endRow.Some?
    ensures ExistingRows(existing + [e]) == ExistingRows(existing) + {e.endRow.value}
  {
  }

  lemma EmptyPlan(tablets: seq<Extent>)
    ensures Plans(tablets, [], SplitPlan([], [], []))
    ensures forall pending :: SortedPlan(pending, SplitPlan([], [], []))
  {
  }

  lemma PlansUnresolved(tablets: seq<Extent>, rows: seq<Row>, plan: SplitPlan, row: Row)
    requires Plans(tablets, rows, plan)
    requires Ordered(tablets) ==> forall i | 0 <= i < |tablets| :: !Holds(tablets[i], row)
    ensures Plans(tablets, rows + [row], plan.(unresolved := plan.unresolved + [row]))
  {
    hide Ordered, Holds, SoundGroup, GroupRows, ExistingRows;
    RowSetSnoc(rows, row);
    RowSetSnoc(plan.unresolved, row);
  }

  /** A tablet already listed needs no second entry, so both forms plan the row. */
  lemma PlansExisting(tablets: seq<Extent>, rows: seq<Row>, plan: SplitPlan, e: Extent)
    requires Plans(tablets, rows, plan) && e in tablets && e.endRow.Some?
    ensures Plans(tablets, rows + [e.endRow.value], plan.(existing := plan.existing + [e]))
    ensures e in plan.existing ==> Plans(tablets, rows + [e.endRow.value], plan)
  {
    hide Ordered, Holds, SoundGroup, GroupRows;
    var row := e.endRow.value;
    RowSetSnoc(rows, row);
    ExistingRowsSnoc(plan.existing, e);
    if e in plan.existing {
      assert row in ExistingRows(plan.existing);
    }
  }

  lemma PlansNewGroup(tablets: seq<Extent>, rows: seq<Row>, plan: SplitPlan, t: Extent, row: Row)
    requires Plans(tablets, rows, plan) && t in tablets && StrictlyInside(t, row)
    ensures Plans(tablets, rows + [row], plan.(groups := plan.groups + [Group(t, [row])]))
  {
    hide Ordered, Holds, GroupRows, ExistingRows, StrictlyInside;
    RowSetSnoc(rows, row);
    GroupRowsSnoc(plan.groups, Group(t, [row]));
    assert RowSet([row]) == {row};
  }

  lemma PlansGrownGroup(tablets: seq<Extent>, rows: seq<Row>, plan: SplitPlan, position: nat, row: Row)
    requires Plans(tablets, rows, plan) && position < |plan.groups|
    requires StrictlyInside(plan.groups[position].extent, row)
    ensures var g := plan.groups[position];
      Plans(tablets, rows + [row], plan.(groups := plan.groups[position := Group(g.extent, g.rows + [row])]))
  {
    hide Ordered, Holds, GroupRows, ExistingRows, StrictlyInside, SoundGroup;
    RowSetSnoc(rows, row);
    GroupRowsUpdate(plan.groups, position, row);
    GrownGroupSound(tablets, plan.groups[position], row);
  }

  lemma GrownGroupSound(tablets: seq<Extent>, g: Group, row: Row)
    requires SoundGroup(tablets, g) && StrictlyInside(g.extent, row)
    ensures SoundGroup(tablets, Group(g.extent, g.rows + [row]))
  {
    hide StrictlyInside;
  }

  predicate Distinct<T(==)>(s: seq<T>) { forall i, j | 0 <= i < j < |s| :: s[i] != s[j] }

  function Extents(groups: seq<Group>): seq<Extent> { seq(|groups|, i requires 0 <= i < |groups| => groups[i].extent) }

  /** Each request's rows ascend as they do in what is pending, and so do the rows without a tablet. */
  predicate SortedPlan(pending: seq<Row>, plan: SplitPlan) {
    StrictlySorted(pending) ==>
      StrictlySorted(plan.unresolved) && forall i | 0 <= i < |plan.groups| :: StrictlySorted(plan.groups[i].rows)
  }

  /** The next pending row goes behind every row planned so far, wherever it goes. */
  lemma RowComesLast(tablets: seq<Extent>, pending: seq<Row>, n: nat, plan: SplitPlan)
    requires n < |pending| && Plans(tablets, pending[..n], plan) && SortedPlan(pending, plan)
    ensures SortedPlan(pending, plan.(unresolved := plan.unresolved + [pending[n]]))
    ensures forall e :: SortedPlan(pending, plan.(existing := plan.existing + [e]))
    ensures forall t :: SortedPlan(pending, plan.(groups := plan.groups + [Group(t, [pending[n]])]))
    ensures forall i | 0 <= i < |plan.groups| ::
              var g := plan.groups[i];
              SortedPlan(pending, plan.(groups := plan.groups[i := Group(g.extent, g.rows + [pending[n]])]))
  {
    hide Compare, Less, Ordered, Holds, SoundGroup, ExistingRows, StrictlySorted;
    if StrictlySorted(pending) {
      var row := pending[n];
      SortedSnoc(plan.unresolved, pending, n);
      SortedSnoc([], pending, n);
      assert [] + [row] == [row];
      forall i | 0 <= i < |plan.groups| ensures StrictlySorted(plan.groups[i].rows + [row]) {
        forall r | r in plan.groups[i].rows ensures r in RowSet(pending[..n]) {
          assert r in GroupRows(plan.groups);
        }
        SortedSnoc(plan.groups[i].rows, pending, n);
      }
    }
  }

  lemma SortedSnoc(rows: seq<Row>, pending: seq<Row>, n: nat)
    requires n < |pending| && StrictlySorted(pending) && RowSet(rows) <= RowSet(pending[..n])
    ensures StrictlySorted(rows) ==> StrictlySorted(rows + [pending[n]])
    ensures rows == [] ==> StrictlySorted(rows + [pending[n]])
  {
    hide Compare, Less;
    forall i | 0 <= i < |rows| ensures Less(rows[i], pending[n]) {
      assert rows[i] in RowSet(rows);
    }
  }

  /** `planTableSplits`: one request per tablet, in a map from tablet to request. */
  method PlanTableSplits(tablets: seq<Extent>, pending: seq<Row>) returns (plan: SplitPlan)
    requires EndsAscend(tablets)
    ensures Plans(tablets, pending, plan)
    ensures Distinct(tablets) ==> Distinct(plan.existing) && Distinct(Extents(plan.groups))
    ensures SortedPlan(pending, plan)
  {
    hide Compare, Ordered, EndsAscend, Holds, Plans, Less, StrictlySorted, SortedPlan;
    plan := SplitPlan([], [], []);
    var groups: map<int, nat> := map[];
    var seenExisting: set<int> := {};
    ghost var owners: seq<int> := [];
    ghost var marked: seq<int> := [];
    EmptyPlan(tablets);
    for n := 0 to |pending|
      invariant Plans(tablets, pending[..n], plan)
      invariant |owners| == |plan.groups|
      invariant forall k | 0 <= k < |owners| :: owners[k] in groups && groups[owners[k]] == k
      invariant forall t | t in groups :: 0 <= t < |tablets| && groups[t] < |owners| && owners[groups[t]] == t
      invariant forall k | 0 <= k < |owners| ::
                  0 <= owners[k] < |tablets| && plan.groups[k].extent == tablets[owners[k]]
      invariant SortedPlan(pending, plan)
      invariant |marked| == |plan.existing| && forall t :: t in seenExisting <==> t in marked
      invariant forall i, j | 0 <= i < j < |marked| :: marked[i] != marked[j]
      invariant forall k | 0 <= k < |marked| :: 0 <= marked[k] < |tablets| && plan.existing[k] == tablets[marked[k]]
    {
      var row := pending[n];
      assert pending[..n + 1] == pending[..n] + [row];
      var index := FindSplitTablet(tablets, row);
      RowComesLast(tablets, pending, n, plan);
      if index < 0 {
        PlansUnresolved(tablets, pending[..n], plan, row);
        plan := plan.(unresolved := plan.unresolved + [row]);
      } else if tablets[index].endRow == Some(row) {
        PlansExisting(tablets, pending[..n], plan, tablets[index]);
        if index !in seenExisting {
          seenExisting, marked := seenExisting + {index}, marked + [index];
          plan := plan.(existing := plan.existing + [tablets[index]]);
        }
      } else if index in groups {
        var position := groups[index];
        PlansGrownGroup(tablets, pending[..n], plan, position, row);
        var g := plan.groups[position];
        plan := plan.(groups := plan.groups[position := Group(g.extent, g.rows + [row])]);
      } else {
        groups, owners := groups[index := |plan.groups|], owners + [index];
        PlansNewGroup(tablets, pending[..n], plan, tablets[index], row);
        plan := plan.(groups := plan.groups + [Group(tablets[index], [row])]);
      }
    }
    assert pending[..|pending|] == pending;
  }
}
