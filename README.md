# db2jpa remark-based naming, modelled in Dafny

db2jpa plugs into Hibernate's reverse engineering pass. `RemarksRevengStrategy`
wraps the host tool's naming strategy (the *delegate*). Before the delegate
names a generated class or property, the wrapper swaps the database table or
column name for the free-text *remark* attached to that table or column, if
there is one.

The model covers the whole of that layer:

- `clean.dfy` (module `Text`): the `clean` normalisation. It lower-cases the
  string (ASCII only), applies `String.trim()` (which strips every leading and
  trailing character up to U+0020), then turns every run of two or more spaces
  into one space. `isNotBlank` is modelled here too. Lemmas prove what a cleaned
  string looks like, that each run of spaces keeps exactly one space, that
  `clean` is idempotent, that its fixed points are exactly the clean strings,
  and that a cleaned remark is blank exactly when the raw one holds nothing
  above U+0020.
- `remark_tables.dfy` (module `RemarkTables`): the two static lookup tables.
  `tablesComments` maps a table name to its remark. `fieldsComments` maps a
  table name to a map from column name to remark. A metadata result set is
  modelled as the sequence of its rows. `TablesAfter` and `FieldsAfter` give
  the table contents after reading rows in order. The class `Store` holds the
  two maps, and its methods `BuildTablesComments` and `BuildFieldsComments`
  fill them with `while` loops that are proved to agree with those functions.
  Lemmas prove:
  - every stored key and remark is clean;
  - no table ever gets an empty column map;
  - the last row with a remark wins;
  - untouched keys keep their earlier value;
  - blank rows are ignored;
  - reading the same rows twice changes nothing.
- `strategy.dfy` (module `Strategy`): `TableIdentifier`, the delegate, the
  strategy constructor, and the two overridden lookups with their fallbacks.
  Lemmas follow the chain from metadata rows to the argument the delegate
  receives. It also has examples built from the class
  documentation: the `id_user` and `tx_username` columns of `tbl_user`, and a
  table remark `theRemark` (a remark from the documentation's naming table).
- `option.dfy`: the `Option` datatype.

Two Java features are handled this way:

- The maps are `static` in Java, so every strategy instance shares them. The
  model makes them one `Store` object that each strategy constructor receives
  and refills. Nothing ever clears them, so entries from earlier constructions
  remain. `TablesAfterOverrides` and `FieldsAfterOverrides` state this.
- Each inner `HashMap` of `fieldsComments` is changed in place through `get`.
  The model uses a `map` value that is replaced instead. No inner map is ever
  handed out, so no aliasing can be observed.

## Model

| member | source | states |
|---|---|---|
| Text.ToLowerChar | src/main/java/com/boogiedev/db2jpa/RemarksRevengStrategy.java:152 | the lowered character is never an upper-case ASCII letter; letters move by 32, every other character is unchanged, and the character is trimmable (≤ U+0020) exactly when the original was |
| Text.ToLowerCaseSpec | src/main/java/com/boogiedev/db2jpa/RemarksRevengStrategy.java:152 | `toLowerCase` keeps the length, lowers each character independently, leaves no upper-case letter, and is the identity on strings without one |
| Text.TrimStartSpec | src/main/java/com/boogiedev/db2jpa/RemarksRevengStrategy.java:152 | the leading half of `trim` removes a prefix made only of characters ≤ U+0020, and what remains does not start with one |
| Text.TrimEndSpec | src/main/java/com/boogiedev/db2jpa/RemarksRevengStrategy.java:152 | the trailing half of `trim` removes a suffix made only of characters ≤ U+0020, and what remains does not end with one |
| Text.TrimSpec | src/main/java/com/boogiedev/db2jpa/RemarksRevengStrategy.java:152 | `trim` leaves no character ≤ U+0020 at either end; it is empty exactly when every character is ≤ U+0020; it keeps only characters of its input; it does nothing to a string that needs no trimming |
| Text.CollapseSpacesSpec | src/main/java/com/boogiedev/db2jpa/RemarksRevengStrategy.java:152 | `replaceAll("  +", " ")` leaves no two adjacent spaces and removes nothing but spaces (the text without spaces is the same); it is empty only for empty input, keeps only input characters, and keeps a first or last character that is not a space |
| Text.CollapseSpacesFixesNoDoubleSpace | src/main/java/com/boogiedev/db2jpa/RemarksRevengStrategy.java:152 | a string with no double space is left unchanged by the collapse |
| Text.CollapseSpacesAbsorbs | src/main/java/com/boogiedev/db2jpa/RemarksRevengStrategy.java:152 | one more space in a run of spaces changes nothing, so every run of two or more spaces ends up as exactly one space; with the previous row this determines the collapse completely |
| Text.CollapseSpacesExample | src/main/java/com/boogiedev/db2jpa/RemarksRevengStrategy.java:29 | the remark "the  remark", typed with two spaces, collapses to the documented "the remark" |
| Text.Clean | src/main/java/com/boogiedev/db2jpa/RemarksRevengStrategy.java:151-153 | a cleaned string has no upper-case letter, no character ≤ U+0020 at either end and no double space; it is empty exactly when the input holds only characters ≤ U+0020, so tabs or newlines alone clean to blank |
| Text.CleanFixesClean | src/main/java/com/boogiedev/db2jpa/RemarksRevengStrategy.java:151-153 | `clean` leaves an already clean string unchanged |
| Text.CleanIdempotent | src/main/java/com/boogiedev/db2jpa/RemarksRevengStrategy.java:151-153 | `clean(clean(s)) == clean(s)` for every string |
| Text.CleanFixedPointIff | src/main/java/com/boogiedev/db2jpa/RemarksRevengStrategy.java:151-153 | `clean(s) == s` holds exactly when s is clean (both directions) |
| Text.CleanOnlyLowers | src/main/java/com/boogiedev/db2jpa/RemarksRevengStrategy.java:29-33 | when the string has no edge whitespace and no double space, cleaning is just lower-casing, so the remark `theRemark` reaches the delegate as `theremark` |
| Text.CleanNotBlankIff | src/main/java/com/boogiedev/db2jpa/RemarksRevengStrategy.java:164-166 | a cleaned remark passes `isNotBlank` exactly when the raw remark holds some character above U+0020, so a remark of spaces, tabs or newlines is never stored |
| RemarkTables.TablesAfter | src/main/java/com/boogiedev/db2jpa/RemarksRevengStrategy.java:130-135 | reading table rows never removes a key, and it keeps the table map well formed: every key is clean, and every remark is clean and non-empty |
| RemarkTables.TablesAfterOverrides | src/main/java/com/boogiedev/db2jpa/RemarksRevengStrategy.java:130-135 | the map after reading rows is the old map overridden by what the rows alone produce; earlier entries survive only under keys the rows do not set |
| RemarkTables.TablesRebuildIdempotent | src/main/java/com/boogiedev/db2jpa/RemarksRevengStrategy.java:178-182 | reading the same table rows again leaves `tablesComments` unchanged |
| RemarkTables.TablesLastRowWins | src/main/java/com/boogiedev/db2jpa/RemarksRevengStrategy.java:130-135 | when several rows clean to the same table name, the stored remark is the cleaned remark of the last of them that has a non-blank remark |
| RemarkTables.TablesUntouchedKey | src/main/java/com/boogiedev/db2jpa/RemarksRevengStrategy.java:130-135 | a key that no row with a remark cleans to is present afterwards exactly when it was present before, with the same value |
| RemarkTables.BlankTableRowIgnored | src/main/java/com/boogiedev/db2jpa/RemarksRevengStrategy.java:131-134 | a row whose remark holds only characters ≤ U+0020 leaves the table map unchanged |
| RemarkTables.FieldsAfter | src/main/java/com/boogiedev/db2jpa/RemarksRevengStrategy.java:100-109 | reading column rows never removes a table, and it keeps the map well formed: every table key is clean, no column map is empty, and every column key and remark is clean (remarks also non-empty) |
| RemarkTables.FieldsAfterOverrides | src/main/java/com/boogiedev/db2jpa/RemarksRevengStrategy.java:100-109 | table by table, the columns the rows alone produce override the columns that were already there |
| RemarkTables.FieldsRebuildIdempotent | src/main/java/com/boogiedev/db2jpa/RemarksRevengStrategy.java:178-182 | reading the same column rows again leaves `fieldsComments` unchanged |
| RemarkTables.BlankColumnRowIgnored | src/main/java/com/boogiedev/db2jpa/RemarksRevengStrategy.java:102-103 | a column row whose remark holds only characters ≤ U+0020 leaves the map unchanged |
| RemarkTables.FieldsLastRowWins | src/main/java/com/boogiedev/db2jpa/RemarksRevengStrategy.java:100-109 | within a table, the stored remark for a column comes from the last row with a remark whose cleaned table and column names match |
| RemarkTables.FieldsUntouchedColumn | src/main/java/com/boogiedev/db2jpa/RemarksRevengStrategy.java:100-109 | a (table, column) pair that no row with a remark sets is present afterwards exactly when it was present before, with the same value |
| RemarkTables.FieldsTableCreated | src/main/java/com/boogiedev/db2jpa/RemarksRevengStrategy.java:103-107 | a row with a non-blank remark always gives its cleaned table name a column map |
| RemarkTables.FieldsTableNotCreated | src/main/java/com/boogiedev/db2jpa/RemarksRevengStrategy.java:103-106 | a table that had no column map, and has no row with a remark, still has none afterwards; no empty inner map is ever created |
| RemarkTables.Store.constructor | src/main/java/com/boogiedev/db2jpa/RemarksRevengStrategy.java:82-84 | both static maps start empty, which satisfies the well-formedness invariant |
| RemarkTables.Store.BuildTablesComments | src/main/java/com/boogiedev/db2jpa/RemarksRevengStrategy.java:124-140 | the loop leaves `tablesComments` equal to `TablesAfter` of its old value and the rows, keeps the invariant, and does not touch `fieldsComments` |
| RemarkTables.Store.BuildFieldsComments | src/main/java/com/boogiedev/db2jpa/RemarksRevengStrategy.java:94-114 | the loop, which creates a column map when the table has none, leaves `fieldsComments` equal to `FieldsAfter` of its old value and the rows, keeps the invariant, and does not touch `tablesComments` |
| Strategy.RemarksRevengStrategy.constructor | src/main/java/com/boogiedev/db2jpa/RemarksRevengStrategy.java:178-182 | keeps the delegate; reads the table rows and then the column rows into the shared maps, on top of what they already held |
| Strategy.RemarksRevengStrategy.ColumnToPropertyName | src/main/java/com/boogiedev/db2jpa/RemarksRevengStrategy.java:194-205 | the delegate is called with the stored remark exactly when the cleaned table name has a column map that holds the cleaned column name; otherwise it gets the original, uncleaned column |
| Strategy.RemarksRevengStrategy.TableToClassName | src/main/java/com/boogiedev/db2jpa/RemarksRevengStrategy.java:217-224 | the delegate is called with a name-only identifier (no catalog, no schema) holding the stored remark exactly when the cleaned table name has a remark; otherwise it gets the identifier unchanged |
| Strategy.StoredColumnRemark | src/main/java/com/boogiedev/db2jpa/RemarksRevengStrategy.java:196-200 | a column remark is found exactly when both cleaned keys are present; in a well-formed map it is clean and non-empty |
| Strategy.StoredTableRemark | src/main/java/com/boogiedev/db2jpa/RemarksRevengStrategy.java:219-220 | a table remark is found exactly when the cleaned name is a key; in a well-formed map it is clean and non-empty |
| Strategy.ColumnArgument | src/main/java/com/boogiedev/db2jpa/RemarksRevengStrategy.java:196-204 | from a well-formed column map, the column name passed on is either the caller's own column or a non-empty remark that is already lower-case, trimmed and free of double spaces |
| Strategy.TableArgument | src/main/java/com/boogiedev/db2jpa/RemarksRevengStrategy.java:219-223 | from a well-formed table map, the identifier passed on is either the caller's own identifier or one with no catalog and no schema whose name is a non-empty, already clean remark |
| Strategy.ColumnRemarkFromLastRow | src/main/java/com/boogiedev/db2jpa/RemarksRevengStrategy.java:196-201 | after reading column rows, the delegate gets the cleaned remark of the last matching row that has a remark |
| Strategy.ColumnFallsBack | src/main/java/com/boogiedev/db2jpa/RemarksRevengStrategy.java:196-204 | with no remark for the column in the rows or before them, the delegate gets the original column name |
| Strategy.TableRemarkFromLastRow | src/main/java/com/boogiedev/db2jpa/RemarksRevengStrategy.java:219-221 | after reading table rows, the delegate gets a name-only identifier holding the cleaned remark of the last matching row that has a remark |
| Strategy.TableFallsBack | src/main/java/com/boogiedev/db2jpa/RemarksRevengStrategy.java:219-223 | with no remark for the table in the rows or before them, the delegate gets the identifier unchanged |
| Strategy.UserIdExample | src/main/java/com/boogiedev/db2jpa/RemarksRevengStrategy.java:39-62 | in the documented `tbl_user` table, `id_user` has an empty remark and keeps its own name |
| Strategy.UserNameExample | src/main/java/com/boogiedev/db2jpa/RemarksRevengStrategy.java:39-62 | in the documented `tbl_user` table, `tx_username` is replaced by its remark `userName`, lower-cased to `username` |
| Strategy.TableRemarkExample | src/main/java/com/boogiedev/db2jpa/RemarksRevengStrategy.java:25-33 | a table remark `theRemark` reaches the delegate as the name-only identifier `theremark`, even when the caller spells the table name in upper case and gives a catalog and schema |

## Left out

- `DatabaseUtils.java` is not part of this model. It reads the host tool's connection settings, opens the JDBC connection and closes resources. It is pure I/O.
- The metadata queries `getTables` and `getColumns` are left out, and so is the `finally` block that closes the result set and connection. Their rows are inputs: one sequence per query, in the order the driver returns them.
- `SQLException` is left out. If a query fails partway, Java keeps the maps filled up to that row and the constructor throws. The model always reads every row it is given.
- The delegate's naming rules are left out: camel-casing, class-name capitalisation and the doc table's right-hand columns. The delegate is two arbitrary total functions, and nothing is said about what it returns.
- `toLowerCase` is modelled for ASCII letters only. Java's lowering is locale-dependent and covers all of Unicode, and some characters change length when lowered.
- Null strings are left out. Every table name, column name and remark is a non-null string. JDBC can return a null `REMARKS`, and `clean` would then throw before `isNotBlank` could test for null.
- The column-label constants `TABLE_NAME`, `COLUMN_NAME` and `REMARKS` become the field names of the row datatypes.
- Catalogs and schemas are left out of both maps. The Java code keys them by table name alone, so same-named tables in different schemas share entries. The model keeps that behaviour but proves nothing specific about it.
- The documented `tx_email`, `tx_password` and `bl_need_confirmation` columns and the table comment "user" have no example lemma. They follow from `ColumnRemarkFromLastRow` and `TableRemarkFromLastRow` in the same way as `tx_username`. Writing out all five literal rows makes the example proofs too costly for the verifier.
