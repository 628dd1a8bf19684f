/**
 The two lookup tables that RemarksRevengStrategy fills from the database
 metadata: table name to table remark, and table name to column name to column
 remark. A metadata result set is modelled as the sequence of its rows, read in
 order. The functions TablesAfter and FieldsAfter say what a table holds after a
 sequence of rows has been read into it; the class Store holds the two static maps
 and fills them with loops, proved to agree with those functions.
 */
module RemarkTables {
  import opened Text

  /** A row of DatabaseMetaData.getTables: TABLE_NAME and REMARKS. */
  datatype TableRow = TableRow(tableName: string, remarks: string)

  /** A row of DatabaseMetaData.getColumns: TABLE_NAME, COLUMN_NAME and REMARKS. */
  datatype ColumnRow = ColumnRow(tableName: string, columnName: string, remarks: string)

  type RemarkMap = map<string, string>
  type FieldMap = map<string, RemarkMap>

  /** A row is kept only when its cleaned remark is not blank. */
  predicate HasRemark(remarks: string) {
    IsNotBlank(Clean(remarks))
  }

  /** Every key is clean, every remark is clean and non-empty. */
  predicate RemarksWellFormed(m: RemarkMap) {
    forall k :: k in m ==> IsClean(k) && IsClean(m[k]) && m[k] != []
  }

  /** Every table key is clean and maps to a non-empty, well-formed column map. */
  predicate FieldsWellFormed(m: FieldMap) {
    forall t :: t in m ==> IsClean(t) && m[t] != map[] && RemarksWellFormed(m[t])
  }

  /** The columns stored for a table, empty when the table is absent. */
  function Columns(m: FieldMap, table: string): RemarkMap {
    if table in m then m[table] else map[]
  }

  /* ---------------------------------------------------------------- */
  /* Table remarks                                                     */
  /* ---------------------------------------------------------------- */

  /** One iteration of the buildTablesComments loop. */
  function TableEntry(m: RemarkMap, row: TableRow): RemarkMap {
    var comment := Clean(row.remarks);
    if IsNotBlank(comment) then m[Clean(row.tableName) := comment] else m
  }

  /** The table map after reading `rows` in order, starting from `m`. */
  function TablesAfter(m: RemarkMap, rows: seq<TableRow>): (r: RemarkMap)
    ensures m.Keys <= r.Keys
    ensures RemarksWellFormed(m) ==> RemarksWellFormed(r)
    decreases |rows|
  {
    if rows == [] then m
    else TableEntry(TablesAfter(m, rows[..|rows| - 1]), rows[|rows| - 1])
  }

  /** What was in the map before survives only under keys that no row sets. */
  lemma {:induction false} TablesAfterOverrides(m: RemarkMap, rows: seq<TableRow>)
    ensures TablesAfter(m, rows) == m + TablesAfter(map[], rows)
    decreases |rows|
  {
    if rows != [] {
      var init, row := rows[..|rows| - 1], rows[|rows| - 1];
      TablesAfterOverrides(m, init);
      var before := TablesAfter(map[], init);
      if HasRemark(row.remarks) {
        UpdateAfterUnion(m, before, Clean(row.tableName), Clean(row.remarks));
      }
    }
  }

  lemma UpdateAfterUnion<K, V>(a: map<K, V>, b: map<K, V>, k: K, v: V)
    ensures (a + b)[k := v] == a + b[k := v]
  {
  }

  /** Reading the same rows a second time changes nothing. */
  lemma TablesRebuildIdempotent(m: RemarkMap, rows: seq<TableRow>)
    ensures TablesAfter(TablesAfter(m, rows), rows) == TablesAfter(m, rows)
  {
    var rowsOnly := TablesAfter(map[], rows);
    TablesAfterOverrides(m, rows);
    TablesAfterOverrides(TablesAfter(m, rows), rows);
    assert (m + rowsOnly) + rowsOnly == m + rowsOnly;
  }

  /** Among the rows whose cleaned name is the same, the last one with a remark wins. */
  lemma {:induction false} TablesLastRowWins(m: RemarkMap, rows: seq<TableRow>, i: nat)
    requires i < |rows| && HasRemark(rows[i].remarks)
    requires forall j :: i < j < |rows| && Clean(rows[j].tableName) == Clean(rows[i].tableName)
               ==> !HasRemark(rows[j].remarks)
    ensures Clean(rows[i].tableName) in TablesAfter(m, rows)
    ensures TablesAfter(m, rows)[Clean(rows[i].tableName)] == Clean(rows[i].remarks)
    decreases |rows|
  {
    if i < |rows| - 1 {
      var init := rows[..|rows| - 1];
      assert init[i] == rows[i];
      TablesLastRowWins(m, init, i);
    }
  }

  /** A key that no row with a remark sets keeps its previous state. */
  lemma {:induction false} TablesUntouchedKey(m: RemarkMap, rows: seq<TableRow>, k: string)
    requires forall j :: 0 <= j < |rows| && Clean(rows[j].tableName) == k ==> !HasRemark(rows[j].remarks)
    ensures k in TablesAfter(m, rows) <==> k in m
    ensures k in m ==> TablesAfter(m, rows)[k] == m[k]
    decreases |rows|
  {
    if rows != [] {
      var init := rows[..|rows| - 1];
      assert forall j :: 0 <= j < |init| ==> init[j] == rows[j];
      TablesUntouchedKey(m, init, k);
    }
  }

  /** A row whose remark holds only characters up to U+0020 leaves the map unchanged. */
  lemma BlankTableRowIgnored(m: RemarkMap, rows: seq<TableRow>, row: TableRow)
    requires AllTrimmable(row.remarks)
    ensures TablesAfter(m, rows + [row]) == TablesAfter(m, rows)
  {
    assert (rows + [row])[..|rows|] == rows;
  }

  /* ---------------------------------------------------------------- */
  /* Column remarks                                                    */
  /* ---------------------------------------------------------------- */

  /** One iteration of the buildFieldsComments loop. */
  function FieldEntry(m: FieldMap, row: ColumnRow): FieldMap {
    var comment := Clean(row.remarks);
    if IsNotBlank(comment) then
      var table := Clean(row.tableName);
      m[table := Columns(m, table)[Clean(row.columnName) := comment]]
    else m
  }

  /** One column remark added to a well-formed map keeps it well-formed. */
  lemma FieldEntryWellFormed(m: FieldMap, row: ColumnRow)
    ensures FieldsWellFormed(m) ==> FieldsWellFormed(FieldEntry(m, row))
  {
    if FieldsWellFormed(m) && HasRemark(row.remarks) {
      InsertColumnWellFormed(m, Clean(row.tableName), Clean(row.columnName), Clean(row.remarks));
    }
  }

  lemma InsertColumnWellFormed(m: FieldMap, t: string, c: string, v: string)
    requires FieldsWellFormed(m) && IsClean(t) && IsClean(c) && IsClean(v) && v != []
    ensures FieldsWellFormed(m[t := Columns(m, t)[c := v]])
  {
    var inner := Columns(m, t)[c := v];
    assert c in inner;
    assert RemarksWellFormed(inner);
  }

  /** The column map after reading `rows` in order, starting from `m`. */
  function FieldsAfter(m: FieldMap, rows: seq<ColumnRow>): (r: FieldMap)
    ensures m.Keys <= r.Keys
    ensures FieldsWellFormed(m) ==> FieldsWellFormed(r)
    decreases |rows|
  {
    if rows == [] then m
    else
      var before := FieldsAfter(m, rows[..|rows| - 1]);
      FieldEntryWellFormed(before, rows[|rows| - 1]);
      FieldEntry(before, rows[|rows| - 1])
  }

  /** Table by table, the columns of `b` override those of `a`. */
  function MergeColumns(a: FieldMap, b: FieldMap): (r: FieldMap)
    ensures r.Keys == a.Keys + b.Keys
    ensures forall t :: t in r ==> r[t] == Columns(a, t) + Columns(b, t)
  {
    map t | t in a.Keys + b.Keys :: Columns(a, t) + Columns(b, t)
  }

  /** Setting one column after merging is merging after setting it. */
  lemma MergeColumnsUpdate(a: FieldMap, b: FieldMap, t: string, c: string, v: string)
    ensures var merged := MergeColumns(a, b);
      merged[t := Columns(merged, t)[c := v]] == MergeColumns(a, b[t := Columns(b, t)[c := v]])
  {
    var merged := MergeColumns(a, b);
    var lhs, rhs := merged[t := Columns(merged, t)[c := v]], MergeColumns(a, b[t := Columns(b, t)[c := v]]);
    assert lhs.Keys == rhs.Keys;
    forall u | u in lhs ensures lhs[u] == rhs[u] {
      if u == t {
        assert Columns(merged, t) == Columns(a, t) + Columns(b, t);
        UpdateAfterUnion(Columns(a, t), Columns(b, t), c, v);
      }
    }
  }

  lemma MergeColumnsEmpty(a: FieldMap)
    ensures MergeColumns(a, map[]) == a
  {
    var r := MergeColumns(a, map[]);
    forall t | t in a ensures r[t] == a[t] {
      assert Columns(a, t) + map[] == a[t];
    }
  }

  lemma MergeColumnsTwice(a: FieldMap, b: FieldMap)
    ensures MergeColumns(MergeColumns(a, b), b) == MergeColumns(a, b)
  {
    var once := MergeColumns(a, b);
    var twice := MergeColumns(once, b);
    forall t | t in once ensures twice[t] == once[t] {
      UnionTwice(Columns(a, t), Columns(b, t));
    }
  }

  lemma UnionTwice<K, V>(a: map<K, V>, b: map<K, V>)
    ensures (a + b) + b == a + b
  {
  }

  /** What was in the map before survives only under the (table, column) pairs no row sets. */
  lemma {:induction false} FieldsAfterOverrides(m: FieldMap, rows: seq<ColumnRow>)
    ensures FieldsAfter(m, rows) == MergeColumns(m, FieldsAfter(map[], rows))
    decreases |rows|
  {
    if rows == [] {
      MergeColumnsEmpty(m);
    } else {
      var init, row := rows[..|rows| - 1], rows[|rows| - 1];
      FieldsAfterOverrides(m, init);
      if HasRemark(row.remarks) {
        MergeColumnsUpdate(m, FieldsAfter(map[], init), Clean(row.tableName), Clean(row.columnName), Clean(row.remarks));
      }
    }
  }

  /** Reading the same rows a second time changes nothing. */
  lemma FieldsRebuildIdempotent(m: FieldMap, rows: seq<ColumnRow>)
    ensures FieldsAfter(FieldsAfter(m, rows), rows) == FieldsAfter(m, rows)
  {
    FieldsAfterOverrides(m, rows);
    FieldsAfterOverrides(FieldsAfter(m, rows), rows);
    MergeColumnsTwice(m, FieldsAfter(map[], rows));
  }

  /** A row whose remark holds only characters up to U+0020 leaves the map unchanged. */
  lemma BlankColumnRowIgnored(m: FieldMap, rows: seq<ColumnRow>, row: ColumnRow)
    requires AllTrimmable(row.remarks)
    ensures FieldsAfter(m, rows + [row]) == FieldsAfter(m, rows)
  {
    assert (rows + [row])[..|rows|] == rows;
  }

  /** What one row does to one (table, column) pair. */
  lemma FieldEntryAt(m: FieldMap, row: ColumnRow, t: string, c: string)
    ensures var sets := HasRemark(row.remarks) && Clean(row.tableName) == t && Clean(row.columnName) == c;
      && (c in Columns(FieldEntry(m, row), t) <==> sets || c in Columns(m, t))
      && (sets ==> Columns(FieldEntry(m, row), t)[c] == Clean(row.remarks))
      && (!sets && c in Columns(m, t) ==> Columns(FieldEntry(m, row), t)[c] == Columns(m, t)[c])
  {
  }

  /** Within a table, the last row with a remark for a column wins. */
  lemma {:induction false} FieldsLastRowWins(m: FieldMap, rows: seq<ColumnRow>, i: nat)
    requires i < |rows| && HasRemark(rows[i].remarks)
    requires forall j :: i < j < |rows|
               && Clean(rows[j].tableName) == Clean(rows[i].tableName)
               && Clean(rows[j].columnName) == Clean(rows[i].columnName)
               ==> !HasRemark(rows[j].remarks)
    ensures Clean(rows[i].tableName) in FieldsAfter(m, rows)
    ensures Clean(rows[i].columnName) in FieldsAfter(m, rows)[Clean(rows[i].tableName)]
    ensures FieldsAfter(m, rows)[Clean(rows[i].tableName)][Clean(rows[i].columnName)] == Clean(rows[i].remarks)
    decreases |rows|
  {
    var t, c := Clean(rows[i].tableName), Clean(rows[i].columnName);
    var init, last := rows[..|rows| - 1], rows[|rows| - 1];
    if i < |rows| - 1 {
      assert init[i] == rows[i];
      FieldsLastRowWins(m, init, i);
    }
    FieldEntryAt(FieldsAfter(m, init), last, t, c);
  }

  /** A (table, column) pair that no row with a remark sets keeps its previous state. */
  lemma {:induction false} FieldsUntouchedColumn(m: FieldMap, rows: seq<ColumnRow>, t: string, c: string)
    requires forall j :: 0 <= j < |rows| && Clean(rows[j].tableName) == t && Clean(rows[j].columnName) == c
               ==> !HasRemark(rows[j].remarks)
    ensures c in Columns(FieldsAfter(m, rows), t) <==> c in Columns(m, t)
    ensures c in Columns(m, t) ==> Columns(FieldsAfter(m, rows), t)[c] == Columns(m, t)[c]
    decreases |rows|
  {
    if rows != [] {
      var init, last := rows[..|rows| - 1], rows[|rows| - 1];
      assert forall j :: 0 <= j < |init| ==> init[j] == rows[j];
      FieldsUntouchedColumn(m, init, t, c);
      FieldEntryAt(FieldsAfter(m, init), last, t, c);
    }
  }

  /** A row with a remark always gives its table a column map. */
  lemma {:induction false} FieldsTableCreated(m: FieldMap, rows: seq<ColumnRow>, i: nat)
    requires i < |rows| && HasRemark(rows[i].remarks)
    ensures Clean(rows[i].tableName) in FieldsAfter(m, rows)
    decreases |rows|
  {
    if i < |rows| - 1 {
      var init := rows[..|rows| - 1];
      assert init[i] == rows[i];
      FieldsTableCreated(m, init, i);
    }
  }

  /** Without a row with a remark for it, a table absent before stays absent:
      the map never gains an empty column map. */
  lemma {:induction false} FieldsTableNotCreated(m: FieldMap, rows: seq<ColumnRow>, t: string)
    requires t !in m
    requires forall j :: 0 <= j < |rows| && Clean(rows[j].tableName) == t ==> !HasRemark(rows[j].remarks)
    ensures t !in FieldsAfter(m, rows)
    decreases |rows|
  {
    if rows != [] {
      var init := rows[..|rows| - 1];
      assert forall j :: 0 <= j < |init| ==> init[j] == rows[j];
      FieldsTableNotCreated(m, init, t);
    }
  }

  /** Creating an empty column map when the table is absent, then setting the
      column in it, is the single update that FieldEntry describes. */
  lemma SetColumnAfterCreate(m: FieldMap, t: string, c: string, v: string)
    ensures var created := if t in m then m else m[t := map[]];
      created[t := created[t][c := v]] == m[t := Columns(m, t)[c := v]]
  {
  }

  /* ---------------------------------------------------------------- */
  /* The two static maps                                               */
  /* ---------------------------------------------------------------- */

  /** The static fields tablesComments and fieldsComments, shared by every strategy. */
  class Store {
    var tablesComments: RemarkMap
    var fieldsComments: FieldMap

    ghost predicate Valid()
      reads this
    {
      RemarksWellFormed(tablesComments) && FieldsWellFormed(fieldsComments)
    }

    /** The static initialisers: both maps start empty. */
    constructor ()
      ensures Valid()
      ensures tablesComments == map[] && fieldsComments == map[]
    {
      tablesComments := map[];
      fieldsComments := map[];
    }

    /** buildTablesComments: reads the table rows into tablesComments. */
    method BuildTablesComments(rows: seq<TableRow>)
      requires Valid()
      modifies this
      ensures Valid()
      ensures tablesComments == TablesAfter(old(tablesComments), rows)
      ensures fieldsComments == old(fieldsComments)
    {
      var i := 0;
      while i < |rows|
        invariant 0 <= i <= |rows|
        invariant tablesComments == TablesAfter(old(tablesComments), rows[..i])
        invariant fieldsComments == old(fieldsComments)
      {
        var comment := Clean(rows[i].remarks);
        if IsNotBlank(comment) {
          tablesComments := tablesComments[Clean(rows[i].tableName) := comment];
        }
        assert rows[..i + 1][..i] == rows[..i];
        i := i + 1;
      }
      assert rows[..|rows|] == rows;
    }

    /** buildFieldsComments: reads the column rows into fieldsComments. */
    method BuildFieldsComments(rows: seq<ColumnRow>)
      requires Valid()
      modifies this
      ensures Valid()
      ensures fieldsComments == FieldsAfter(old(fieldsComments), rows)
      ensures tablesComments == old(tablesComments)
    {
      var i := 0;
      while i < |rows|
        invariant 0 <= i <= |rows|
        invariant fieldsComments == FieldsAfter(old(fieldsComments), rows[..i])
        invariant tablesComments == old(tablesComments)
      {
        ghost var before := fieldsComments;
        var tableName := Clean(rows[i].tableName);
        var comment := Clean(rows[i].remarks);
        if IsNotBlank(comment) {
          if tableName !in fieldsComments {
            fieldsComments := fieldsComments[tableName := map[]];
          }
          fieldsComments := fieldsComments[tableName := fieldsComments[tableName][Clean(rows[i].columnName) := comment]];
          SetColumnAfterCreate(before, tableName, Clean(rows[i].columnName), comment);
        }
        assert rows[..i + 1][..i] == rows[..i];
        i := i + 1;
      }
      assert rows[..|rows|] == rows;
    }
  }
}
