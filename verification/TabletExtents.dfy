/** Tablet extents: the rows (prevRow, endRow] of one table, and their metadata rows. */
module TabletExtents {
  import opened Wrappers
  import opened Bytes

  const SEMICOLON: Byte := 59
  const LESS_THAN: Byte := 60

  /** A missing `prevRow` is minus infinity, a missing `endRow` plus infinity. */
  datatype Extent = Extent(tableID: Row, prevRow: Option<Row>, endRow: Option<Row>)

  datatype ExtentError = EmptyTableID | BoundsOutOfOrder | EmptyMetadataRow | NoSeparator

  predicate Holds(e: Extent, row: Row) {
    && (e.prevRow.Some? ==> !AtMost(row, e.prevRow.value))
    && (e.endRow.Some? ==> AtMost(row, e.endRow.value))
  }

  function NewExtent(tableID: Row, endRow: Option<Row>, prevRow: Option<Row>): Result<Extent, ExtentError> {
    if tableID == [] then Err(EmptyTableID)
    else if endRow.Some? && prevRow.Some? && Compare(prevRow.value, endRow.value) >= 0 then Err(BoundsOutOfOrder)
    else Ok(Extent(tableID, prevRow, endRow))
  }

  /** What `NewExtent` accepts. */
  predicate ValidExtent(e: Extent) {
    e.tableID != [] && (e.endRow.Some? && e.prevRow.Some? ==> Less(e.prevRow.value, e.endRow.value))
  }

  function MetadataEntry(tableID: Row, endRow: Option<Row>): Row {
    match endRow
    case None => tableID + [LESS_THAN]
    case Some(row) => tableID + [SEMICOLON] + row
  }

  /** `strings.IndexByte`. */
  function IndexByte(s: Row, b: Byte): (index: Option<nat>)
    ensures index.Some? ==> index.value < |s| && s[index.value] == b && b !in s[..index.value]
    ensures index.None? <==> b !in s
  {
    if s == [] then None
    else if s[0] == b then Some(0)
    else
      var rest := IndexByte(s[1..], b);
      assert s == [s[0]] + s[1..];
      assert rest.Some? ==> s[..rest.value + 1] == [s[0]] + s[1..][..rest.value];
      if rest.None? then None else Some(rest.value + 1)
  }

  function ParseExtent(metadataRow: Row, prevRow: Option<Row>): Result<Extent, ExtentError> {
    if metadataRow == [] then Err(EmptyMetadataRow)
    else
      var separator := IndexByte(metadataRow, SEMICOLON);
      if separator.Some? then
        NewExtent(metadataRow[..separator.value], Some(metadataRow[separator.value + 1..]), prevRow)
      else if metadataRow[|metadataRow| - 1] == LESS_THAN then
        NewExtent(metadataRow[..|metadataRow| - 1], None, prevRow)
      else Err(NoSeparator)
  }

  /** Parsing a tablet's metadata row gives the tablet back exactly when its table id has no ';'. */
  lemma ParseInvertsEntry(e: Extent)
    requires ValidExtent(e)
    ensures ParseExtent(MetadataEntry(e.tableID, e.endRow), e.prevRow) == Ok(e) <==> SEMICOLON !in e.tableID
  {
    var entry := MetadataEntry(e.tableID, e.endRow);
    assert entry[..|e.tableID|] == e.tableID;
    if SEMICOLON !in e.tableID {
      if e.endRow.Some? {
        IndexAt(entry, SEMICOLON, |e.tableID|);
        assert entry[|e.tableID| + 1..] == e.endRow.value;
      }
    } else {
      IndexWithin(entry, SEMICOLON, |e.tableID|);
    }
  }

  lemma {:induction false} IndexAt(s: Row, b: Byte, i: nat)
    requires i < |s| && s[i] == b && b !in s[..i]
    ensures IndexByte(s, b) == Some(i)
  {
    if i > 0 {
      assert s[0] == s[..i][0];
      assert s[..i] == [s[0]] + s[1..][..i - 1];
      IndexAt(s[1..], b, i - 1);
    }
  }

  lemma {:induction false} IndexWithin(s: Row, b: Byte, n: nat)
    requires n <= |s| && b in s[..n]
    ensures IndexByte(s, b).Some? && IndexByte(s, b).value < n
  {
    if s[0] != b {
      assert s[..n] == [s[0]] + s[1..][..n - 1];
      IndexWithin(s[1..], b, n - 1);
    }
  }

  /** Every metadata row that parses is the row its tablet renders. */
  lemma EntryInvertsParse(metadataRow: Row, prevRow: Option<Row>)
    requires ParseExtent(metadataRow, prevRow).Ok?
    ensures var e := ParseExtent(metadataRow, prevRow).value;
            && MetadataEntry(e.tableID, e.endRow) == metadataRow && e.prevRow == prevRow
            && ValidExtent(e) && SEMICOLON !in e.tableID
  {
    var separator := IndexByte(metadataRow, SEMICOLON);
    if separator.Some? {
      var i := separator.value;
      assert metadataRow == metadataRow[..i] + [SEMICOLON] + metadataRow[i + 1..];
      CompareEqual(metadataRow[i + 1..], metadataRow[i + 1..]);
    } else {
      assert metadataRow == metadataRow[..|metadataRow| - 1] + [LESS_THAN];
    }
  }

  /** Orders end rows, an absent one last. */
  function CompareEnds(left: Option<Row>, right: Option<Row>): int {
    if left.None? && right.None? then 0
    else if left.None? then 1
    else if right.None? then -1
    else Compare(left.value, right.value)
  }

  /** Orders previous end rows, an absent one first. */
  function ComparePrevs(left: Option<Row>, right: Option<Row>): int {
    if left.None? && right.None? then 0
    else if left.None? then -1
    else if right.None? then 1
    else Compare(left.value, right.value)
  }

  function CompareExtents(left: Extent, right: Extent): int {
    if Compare(left.tableID, right.tableID) != 0 then Compare(left.tableID, right.tableID)
    else if CompareEnds(left.endRow, right.endRow) != 0 then CompareEnds(left.endRow, right.endRow)
    else ComparePrevs(left.prevRow, right.prevRow)
  }

  /** Within a table, tablets are in the byte order of their metadata rows. */
  lemma EndOrderIsEntryOrder(tableID: Row, left: Option<Row>, right: Option<Row>)
    ensures CompareEnds(left, right) == Compare(MetadataEntry(tableID, left), MetadataEntry(tableID, right))
  {
    var l := if left.None? then [LESS_THAN] else [SEMICOLON] + left.value;
    var r := if right.None? then [LESS_THAN] else [SEMICOLON] + right.value;
    CommonPrefix(tableID, l, r);
    assert left.Some? ==> tableID + l == MetadataEntry(tableID, left);
    assert right.Some? ==> tableID + r == MetadataEntry(tableID, right);
    if left.Some? && right.Some? {
      assert l[1..] == left.value && r[1..] == right.value;
    } else if left.None? && right.None? {
      CompareEqual(l, r);
    }
  }

  /** Extents compare equal only when they are the same extent. */
  lemma CompareExtentsEqual(left: Extent, right: Extent)
    ensures CompareExtents(left, right) == 0 <==> left == right
  {
    CompareEqual(left.tableID, right.tableID);
    if left.endRow.Some? && right.endRow.Some? { CompareEqual(left.endRow.value, right.endRow.value); }
    if left.prevRow.Some? && right.prevRow.Some? { CompareEqual(left.prevRow.value, right.prevRow.value); }
  }

  /** The table decides, then the end row, an absent one last, then the previous one, an absent one first. */
  lemma ExtentOrderDecides(left: Extent, right: Extent)
    ensures left.tableID != right.tableID ==> (CompareExtents(left, right) < 0 <==> Less(left.tableID, right.tableID))
    ensures left.tableID == right.tableID && left.endRow != right.endRow ==>
              (CompareExtents(left, right) < 0 <==>
               left.endRow.Some? && (right.endRow.None? || Less(left.endRow.value, right.endRow.value)))
    ensures left.tableID == right.tableID && left.endRow == right.endRow && left.prevRow != right.prevRow ==>
              (CompareExtents(left, right) < 0 <==>
               right.prevRow.Some? && (left.prevRow.None? || Less(left.prevRow.value, right.prevRow.value)))
  {
    CompareEqual(left.tableID, right.tableID);
    if left.endRow.Some? && right.endRow.Some? { CompareEqual(left.endRow.value, right.endRow.value); }
    if left.prevRow.Some? && right.prevRow.Some? { CompareEqual(left.prevRow.value, right.prevRow.value); }
  }
}
