/**
 RemarksRevengStrategy: a reverse engineering strategy that wraps another one
 (the delegate) and, before asking it for a class or property name, replaces the
 table or column name by the remark stored for it, when there is one. The
 delegate's own naming rules (camel-casing and the like) are not modelled: it is
 a pair of arbitrary total functions.
 */
module Strategy {
  import opened Text
  import opened Optional
  import opened RemarkTables

  /** Hibernate's TableIdentifier; a null catalog or schema is None. */
  datatype TableIdentifier = TableIdentifier(catalog: Option<string>, schema: Option<string>, name: string)

  /** The wrapped strategy, seen only through the two calls this layer makes on it. */
  datatype Delegate = Delegate(
    columnToPropertyName: (TableIdentifier, string) -> string,
    tableToClassName: TableIdentifier -> string)

  /** The remark stored for a column, looked up under the cleaned table and column names. */
  function StoredColumnRemark(fields: FieldMap, tableName: string, column: string): (r: Option<string>)
    ensures r.Some? <==> Clean(tableName) in fields && Clean(column) in fields[Clean(tableName)]
    ensures FieldsWellFormed(fields) && r.Some? ==> IsClean(r.value) && r.value != []
  {
    var t, c := Clean(tableName), Clean(column);
    if t in fields && c in fields[t] then Some(fields[t][c]) else None
  }

  /** The remark stored for a table, looked up under the cleaned table name. */
  function StoredTableRemark(tables: RemarkMap, tableName: string): (r: Option<string>)
    ensures r.Some? <==> Clean(tableName) in tables
    ensures RemarksWellFormed(tables) && r.Some? ==> IsClean(r.value) && r.value != []
  {
    var t := Clean(tableName);
    if t in tables then Some(tables[t]) else None
  }

  /** The column name handed to the delegate: the stored remark, or else the column as given. */
  function ColumnArgument(fields: FieldMap, table: TableIdentifier, column: string): (arg: string)
    ensures FieldsWellFormed(fields) ==> arg == column || (IsClean(arg) && arg != [])
  {
    match StoredColumnRemark(fields, table.name, column)
    case Some(remark) => remark
    case None => column
  }

  /** The identifier handed to the delegate: a name-only identifier built from the
      stored remark, or else the identifier as given. */
  function TableArgument(tables: RemarkMap, id: TableIdentifier): (arg: TableIdentifier)
    ensures RemarksWellFormed(tables) ==>
      arg == id || (arg.catalog == None && arg.schema == None && IsClean(arg.name) && arg.name != [])
  {
    match StoredTableRemark(tables, id.name)
    case Some(remark) => TableIdentifier(None, None, remark)
    case None => id
  }

  class RemarksRevengStrategy {
    const delegate: Delegate
    const store: Store

    /** Wraps the delegate and reads the table remarks, then the column remarks,
        into the shared maps (which keep whatever earlier strategies put there). */
    constructor (delegate: Delegate, store: Store, tableRows: seq<TableRow>, columnRows: seq<ColumnRow>)
      requires store.Valid()
      modifies store
      ensures this.delegate == delegate && this.store == store
      ensures store.Valid()
      ensures store.tablesComments == TablesAfter(old(store.tablesComments), tableRows)
      ensures store.fieldsComments == FieldsAfter(old(store.fieldsComments), columnRows)
    {
      this.delegate := delegate;
      this.store := store;
      new;
      store.BuildTablesComments(tableRows);
      store.BuildFieldsComments(columnRows);
    }

    /** columnToPropertyName: the delegate is asked about the stored remark exactly
        when the cleaned table name has a column map holding the cleaned column
        name; otherwise about the column exactly as the caller gave it. */
    function ColumnToPropertyName(table: TableIdentifier, column: string): (r: string)
      reads store
      ensures var t, c := Clean(table.name), Clean(column);
        t in store.fieldsComments && c in store.fieldsComments[t] ==>
          r == delegate.columnToPropertyName(table, store.fieldsComments[t][c])
      ensures var t, c := Clean(table.name), Clean(column);
        !(t in store.fieldsComments && c in store.fieldsComments[t]) ==>
          r == delegate.columnToPropertyName(table, column)
    {
      delegate.columnToPropertyName(table, ColumnArgument(store.fieldsComments, table, column))
    }

    /** tableToClassName: the delegate is asked about a name-only identifier holding
        the stored remark exactly when the cleaned table name has a remark; otherwise
        about the identifier exactly as the caller gave it. */
    function TableToClassName(id: TableIdentifier): (r: string)
      reads store
      ensures Clean(id.name) in store.tablesComments ==>
        r == delegate.tableToClassName(TableIdentifier(None, None, store.tablesComments[Clean(id.name)]))
      ensures Clean(id.name) !in store.tablesComments ==>
        r == delegate.tableToClassName(id)
    {
      delegate.tableToClassName(TableArgument(store.tablesComments, id))
    }
  }

  /* ---------------------------------------------------------------- */
  /* From metadata rows to what the delegate receives                  */
  /* ---------------------------------------------------------------- */

  /** After reading the column rows, the delegate receives the cleaned remark of the
      last row with a remark for the (cleaned) table and column. */
  lemma ColumnRemarkFromLastRow(m: FieldMap, rows: seq<ColumnRow>, i: nat, table: TableIdentifier, column: string)
    requires i < |rows| && HasRemark(rows[i].remarks)
    requires Clean(rows[i].tableName) == Clean(table.name) && Clean(rows[i].columnName) == Clean(column)
    requires forall j :: i < j < |rows|
               && Clean(rows[j].tableName) == Clean(table.name)
               && Clean(rows[j].columnName) == Clean(column)
               ==> !HasRemark(rows[j].remarks)
    ensures ColumnArgument(FieldsAfter(m, rows), table, column) == Clean(rows[i].remarks)
  {
    FieldsLastRowWins(m, rows, i);
  }

  /** A column with no remark in any row, and none from before, falls back to the
      original, uncleaned column name. */
  lemma ColumnFallsBack(m: FieldMap, rows: seq<ColumnRow>, table: TableIdentifier, column: string)
    requires StoredColumnRemark(m, table.name, column) == None
    requires forall j :: 0 <= j < |rows|
               && Clean(rows[j].tableName) == Clean(table.name)
               && Clean(rows[j].columnName) == Clean(column)
               ==> !HasRemark(rows[j].remarks)
    ensures ColumnArgument(FieldsAfter(m, rows), table, column) == column
  {
    FieldsUntouchedColumn(m, rows, Clean(table.name), Clean(column));
  }

  /** After reading the table rows, the delegate receives a name-only identifier
      holding the cleaned remark of the last row with a remark for the table. */
  lemma TableRemarkFromLastRow(m: RemarkMap, rows: seq<TableRow>, i: nat, id: TableIdentifier)
    requires i < |rows| && HasRemark(rows[i].remarks)
    requires Clean(rows[i].tableName) == Clean(id.name)
    requires forall j :: i < j < |rows| && Clean(rows[j].tableName) == Clean(id.name)
               ==> !HasRemark(rows[j].remarks)
    ensures TableArgument(TablesAfter(m, rows), id) == TableIdentifier(None, None, Clean(rows[i].remarks))
  {
    TablesLastRowWins(m, rows, i);
  }

  /** A table with no remark in any row, and none from before, keeps its identifier. */
  lemma TableFallsBack(m: RemarkMap, rows: seq<TableRow>, id: TableIdentifier)
    requires StoredTableRemark(m, id.name) == None
    requires forall j :: 0 <= j < |rows| && Clean(rows[j].tableName) == Clean(id.name)
               ==> !HasRemark(rows[j].remarks)
    ensures TableArgument(TablesAfter(m, rows), id) == id
  {
    TablesUntouchedKey(m, rows, Clean(id.name));
  }

  /* ---------------------------------------------------------------- */
  /* The examples of the class documentation                           */
  /* ---------------------------------------------------------------- */

  /* The names and remarks of the class documentation, cleaned one at a time. */

  lemma CleanTblUser()
    ensures Clean("tbl_user") == "tbl_user"
  {
    CleanFixesClean("tbl_user");
  }

  lemma CleanIdUser()
    ensures Clean("id_user") == "id_user"
  {
    CleanFixesClean("id_user");
  }

  lemma CleanTxEmail()
    ensures Clean("tx_email") == "tx_email"
  {
    CleanFixesClean("tx_email");
  }

  lemma CleanTxUsername()
    ensures Clean("tx_username") == "tx_username"
  {
    CleanFixesClean("tx_username");
  }

  lemma CleanUserName()
    ensures Clean("userName") == "username"
  {
    assert ToLowerCase("userName") == "username";
    CleanOnlyLowers("userName");
  }

  lemma CleanUpperTblUser()
    ensures Clean("TBL_USER") == "tbl_user"
  {
    assert ToLowerCase("TBL_USER") == "tbl_user";
    CleanOnlyLowers("TBL_USER");
  }

  lemma CleanTheRemark()
    ensures Clean("theRemark") == "theremark"
  {
    assert ToLowerCase("theRemark") == "theremark";
    CleanOnlyLowers("theRemark");
  }

  /** The first three columns of the documented tbl_user table, as getColumns
      reports them. */
  function DocumentedUserColumns(): seq<ColumnRow> {
    [ColumnRow("tbl_user", "id_user", ""),
     ColumnRow("tbl_user", "tx_email", "the email"),
     ColumnRow("tbl_user", "tx_username", "userName")]
  }

  /** In the tbl_user example, id_user has no remark and keeps its own name. */
  // The rows are a parameter pinned by the requires, not a literal in the body,
  // so that the verifier does not unfold FieldsAfter and Clean on literal rows.
  lemma UserIdExample(rows: seq<ColumnRow>, user: TableIdentifier)
    requires rows == DocumentedUserColumns() && user.name == "tbl_user"
    ensures ColumnArgument(FieldsAfter(map[], rows), user, "id_user") == "id_user"
  {
    CleanTblUser();
    CleanIdUser();
    assert !HasRemark(rows[0].remarks);
    forall j | 0 <= j < |rows| && Clean(rows[j].tableName) == Clean(user.name) && Clean(rows[j].columnName) == Clean("id_user")
      ensures !HasRemark(rows[j].remarks)
    {
      CleanTxEmail();
      CleanTxUsername();
      assert j == 0 || j == 1 || j == 2;
    }
    ColumnFallsBack(map[], rows, user, "id_user");
  }

  /** In the tbl_user example, tx_username is renamed after its remark "userName",
      which reaches the delegate lower-cased. */
  // The rows are a parameter for the same reason as in UserIdExample.
  lemma UserNameExample(rows: seq<ColumnRow>, user: TableIdentifier)
    requires rows == DocumentedUserColumns() && user.name == "tbl_user"
    ensures ColumnArgument(FieldsAfter(map[], rows), user, "tx_username") == "username"
  {
    CleanTblUser();
    CleanTxUsername();
    CleanUserName();
    ColumnRemarkFromLastRow(map[], rows, 2, user, "tx_username");
  }

  /** A table remark replaces the whole identifier by a name-only one, whatever
      the case of the name the caller looks up, and reaches the delegate lower-cased. */
  lemma TableRemarkExample()
    ensures TableArgument(TablesAfter(map[], [TableRow("tbl_user", "theRemark")]),
                          TableIdentifier(Some("db"), Some("app"), "TBL_USER"))
         == TableIdentifier(None, None, "theremark")
  {
    var rows := [TableRow("tbl_user", "theRemark")];
    CleanTblUser();
    CleanUpperTblUser();
    CleanTheRemark();
    TableRemarkFromLastRow(map[], rows, 0, TableIdentifier(Some("db"), Some("app"), "TBL_USER"));
  }
}
