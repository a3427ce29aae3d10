/** The row decoder: one row of a query cursor turned into a map from column
    name to the value the driver decoded. */
module DbUtils {
  import opened Nullable
  import opened Strings
  import opened Errors

  /** A dynamically typed column value as the driver decodes it. */
  datatype Value =
    | Null
    | Bool(b: bool)
    | Int(i: int)
    | Float(f: real)
    | Text(s: string)
    | Timestamp(micros: int)
    | Bytes(data: seq<bv8>)

  /** One column of the current row: the name from its field description and
      the value the driver decodes for it. */
  datatype Column = Column(name: string, value: Value)

  /** The cursor's current row: either the driver decodes every column, or its
      `Scan` fails with an error (the field descriptions are still known). */
  datatype Row =
    | Scanned(columns: seq<Column>)
    | ScanFailed(fieldNames: seq<string>, err: Error)

  /** A decoded row. Go maps keep no order, so neither does this. */
  type Record = map<string, Value>

  /** The call site db_utils.go:`line` of a binary built from `buildDir`. */
  function DbUtilsSite(buildDir: string, line: int): Frame {
    Frame(buildDir + "internal/db_utils.go", line)
  }

  /** `rows.FieldDescriptions()`: the column names, in column order. */
  function FieldNames(row: Row): (names: seq<string>)
    ensures row.Scanned? ==> |names| == |row.columns|
    ensures forall i :: 0 <= i < |names| && row.Scanned? ==> names[i] == row.columns[i].name
  {
    match row
    case Scanned(columns) => seq(|columns|, i requires 0 <= i < |columns| => columns[i].name)
    case ScanFailed(names, _) => names
  }

  /** The names of `columns`. */
  function NameSet(columns: seq<Column>): set<string> {
    set c | c in columns :: c.name
  }

  /** The map the decoder builds: entries assigned in column order, so a later
      column overwrites an earlier one of the same name. */
  function RowMap(columns: seq<Column>): (m: Record)
    ensures m.Keys == NameSet(columns)
    decreases |columns|
  {
    if |columns| == 0 then map[]
    else
      var prefix := columns[..|columns| - 1];
      var last := columns[|columns| - 1];
      assert columns == prefix + [last];
      assert NameSet(columns) == NameSet(prefix) + {last.name};
      RowMap(prefix)[last.name := last.value]
  }

  /** What `ConvertDbRowToMap` returns for `row`. */
  function ConvertResult(row: Row, buildDir: string): (r: Returned<Option<Record>>)
    ensures r.err.Some? <==> row.ScanFailed?
    ensures r.err.Some? ==> r.value.None?
    ensures r.err.None? ==> r.value.Some? && r.value.value.Keys == NameSet(row.columns)
  {
    match row
    case Scanned(columns) => Returned(Some(RowMap(columns)), None)
    case ScanFailed(_, e) => Returned(None, Some(WrapError(e, DbUtilsSite(buildDir, 18))))
  }

  predicate DistinctNames(columns: seq<Column>) {
    forall i, j :: 0 <= i < j < |columns| ==> columns[i].name != columns[j].name
  }

  /** One fresh scan slot per column, each holding nil. */
  method AllocateSlots(n: nat) returns (slots: array<Value>)
    ensures fresh(slots) && slots.Length == n
    ensures forall i :: 0 <= i < n ==> slots[i] == Null
  {
    slots := new Value[n];
    var i := 0;
    while i < n
      invariant 0 <= i <= n
      invariant forall j :: 0 <= j < i ==> slots[j] == Null
    {
      slots[i] := Null;
      i := i + 1;
    }
  }

  /** The driver's `rows.Scan` into one slot per column: on success every
      slot holds its column's value. */
  method Scan(row: Row, slots: array<Value>) returns (err: Option<Error>)
    requires slots.Length == |FieldNames(row)|
    modifies slots
    ensures err == (if row.Scanned? then None else Some(row.err))
    ensures row.Scanned? ==> forall i :: 0 <= i < slots.Length ==> slots[i] == row.columns[i].value
  {
    match row
    case ScanFailed(_, e) =>
      err := Some(e);
    case Scanned(columns) =>
      forall i | 0 <= i < slots.Length {
        slots[i] := columns[i].value;
      }
      err := None;
  }

  /** `ConvertDbRowToMap`: scan the current row into fresh slots, then record
      each column's value under its name. A failed scan gives a nil map and
      the scan error wrapped at db_utils.go:18. */
  method ConvertDbRowToMap(row: Row, buildDir: string) returns (res: Option<Record>, err: Option<Error>)
    ensures Returned(res, err) == ConvertResult(row, buildDir)
  {
    var fieldDescs := FieldNames(row);
    var fieldLen := |fieldDescs|;
    var fieldValues := AllocateSlots(fieldLen);

    var scanErr := Scan(row, fieldValues);
    if scanErr.Some? {
      return None, Some(WrapError(scanErr.value, DbUtilsSite(buildDir, 18)));
    }

    var m: Record := map[];
    var i := 0;
    while i < fieldLen
      invariant 0 <= i <= fieldLen
      invariant m == RowMap(row.columns[..i])
    {
      assert row.columns[..i + 1][..i] == row.columns[..i];
      m := m[fieldDescs[i] := fieldValues[i]];
      i := i + 1;
    }
    assert row.columns[..fieldLen] == row.columns;
    return Some(m), None;
  }

  /* ---- lemmas ---- */

  /** Each name maps to the value of the last column carrying it. */
  lemma {:induction false} RowMapLastWins(columns: seq<Column>, i: nat)
    requires i < |columns|
    requires forall j :: i < j < |columns| ==> columns[j].name != columns[i].name
    ensures RowMap(columns)[columns[i].name] == columns[i].value
    decreases |columns|
  {
    if i < |columns| - 1 {
      var prefix := columns[..|columns| - 1];
      assert prefix[i] == columns[i];
      RowMapLastWins(prefix, i);
    }
  }

  /** Column names are distinct exactly when the prefix's are and the last
      name is new. */
  lemma DistinctSnoc(columns: seq<Column>)
    requires |columns| > 0
    ensures DistinctNames(columns) <==>
      DistinctNames(columns[..|columns| - 1]) && columns[|columns| - 1].name !in NameSet(columns[..|columns| - 1])
  {
    var prefix := columns[..|columns| - 1];
    var last := columns[|columns| - 1];
    if DistinctNames(columns) {
      assert DistinctNames(prefix) by {
        forall i, j | 0 <= i < j < |prefix| ensures prefix[i].name != prefix[j].name {
          assert prefix[i] == columns[i] && prefix[j] == columns[j];
        }
      }
      forall c | c in prefix ensures c.name != last.name {
        var k :| 0 <= k < |prefix| && prefix[k] == c;
        assert columns[k] == c;
      }
    }
    if DistinctNames(prefix) && last.name !in NameSet(prefix) {
      forall i, j | 0 <= i < j < |columns| ensures columns[i].name != columns[j].name {
        assert prefix[i] == columns[i];
        if j < |columns| - 1 {
          assert prefix[j] == columns[j];
        } else {
          assert prefix[i] in prefix;
        }
      }
    }
  }

  /** The map has at most one entry per column, exactly one when the column
      names are distinct. */
  lemma {:induction false} RowMapSize(columns: seq<Column>)
    ensures |RowMap(columns)| <= |columns|
    ensures |RowMap(columns)| == |columns| <==> DistinctNames(columns)
    decreases |columns|
  {
    if |columns| > 0 {
      var prefix := columns[..|columns| - 1];
      var last := columns[|columns| - 1];
      RowMapSize(prefix);
      DistinctSnoc(columns);
      var m := RowMap(prefix);
      assert RowMap(columns) == m[last.name := last.value];
      assert RowMap(columns).Keys == m.Keys + {last.name};
    }
  }

  /** A row without columns decodes to an empty, non-nil map. */
  lemma ConvertEmptyRow(buildDir: string)
    ensures ConvertResult(Scanned([]), buildDir) == Returned(Some(map[]), None)
  {
  }

  /** A failed scan is reported with its message kept and the entry for
      db_utils.go:18 in front of the stack it carried. */
  lemma ConvertScanError(row: Row, buildDir: string)
    requires row.ScanFailed? && !Contains(Root(row.err).text, Marker)
    ensures var r := ConvertResult(row, buildDir);
            r.value.None? && r.err.Some? && Unwrap(r.err.value) == Some(Root(row.err))
            && WrappedErrorMsg(r.err.value) == Root(row.err).text
            && WrappedErrorStack(r.err.value) == FrameText(DbUtilsSite(buildDir, 18)) + WrappedErrorStack(row.err)
  {
    WrapKeepsMessage(row.err, DbUtilsSite(buildDir, 18));
  }
}
