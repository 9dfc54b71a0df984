/**
  `SnowflakeSchemaReflection::getDefinitions`: assembling the definitions of
  every table of a schema from three catalog query results.

  The queries themselves run on a connection, which is not part of this model:
  their result rows are the inputs. `SnowflakeColumn::createFromDB` is not part
  of this model either, so a definition carries each column row as it is handed to
  it, with the nullable flag already normalised. PHP's result array is keyed by
  table name in insertion order; here it is the sequence of its values, each of
  which carries its key as `tableName`.
*/
module SnowflakeSchemaReflection {
  import opened Results
  import opened CaseConverter

  /** `TableType` */
  datatype TableType = Table | View | SnowflakeExternal

  /** A row of `INFORMATION_SCHEMA.TABLES`; `BYTES` and `ROW_COUNT` are not used by a definition. */
  datatype InfoRow = InfoRow(tableName: string, tableType: string)

  /** A row of the column query: `TABLE_NAME`, `name`, `type`, `default`, `null?`. */
  datatype ColumnRow = ColumnRow(tableName: string, name: string, typeName: string, default: Option<string>, nullable: string)

  /** A row of `SHOW PRIMARY KEYS`: `table_name`, `column_name`. */
  datatype PrimaryKeyRow = PrimaryKeyRow(tableName: string, columnName: string)

  /** `SnowflakeTableDefinition` */
  datatype TableDefinition = TableDefinition(
    schemaName: string,
    tableName: string,
    isTemporary: bool,
    columns: seq<ColumnRow>,
    primaryKeysNames: seq<string>,
    tableType: TableType)

  /** The three `RuntimeException`s `getDefinitions` throws. */
  datatype ReflectionError =
    | UnknownTableType(tableType: string)
    | ColumnsOfUnknownTable(tableName: string, schemaName: string)
    | PrimaryKeysOfUnknownTable(tableName: string, schemaName: string)

  /** The `PROPS` recorded for a table: its temporary flag and its table type. */
  datatype Props = Props(temporary: bool, tableType: TableType)

  /** The table-type switch on an upper-cased `TABLE_TYPE`; `None` is the `default:` branch. */
  function ClassifyUpper(u: string): (r: Option<Props>)
    ensures r.Some? && r.value.temporary ==> r.value.tableType == Table
  {
    if u == "BASE TABLE" then Some(Props(false, Table))
    else if u == "EXTERNAL TABLE" then Some(Props(false, SnowflakeExternal))
    else if u == "LOCAL TEMPORARY" || u == "TEMPORARY TABLE" then Some(Props(true, Table))
    else if u == "VIEW" then Some(Props(false, View))
    else None
  }

  /** `switch (strtoupper($information['TABLE_TYPE']))` */
  function ClassifyTableType(tableType: string): (r: Option<Props>)
    ensures r.Some? && r.value.temporary ==> r.value.tableType == Table
  {
    ClassifyUpper(StringToUpper(tableType))
  }

  /** `'YES'` becomes `'Y'`, anything else `'N'`; the rest of the row is kept. */
  function NormalizeNullable(c: ColumnRow): (r: ColumnRow)
    ensures r.nullable == "Y" <==> c.nullable == "YES"
    ensures r.nullable == "Y" || r.nullable == "N"
    ensures r.(nullable := c.nullable) == c
  {
    c.(nullable := if c.nullable == "YES" then "Y" else "N")
  }

  function ColumnTable(c: ColumnRow): string {
    c.tableName
  }

  function KeyTable(k: PrimaryKeyRow): string {
    k.tableName
  }

  function KeyColumn(k: PrimaryKeyRow): string {
    k.columnName
  }

  /* ---------------------------------------------------------------------- */
  /* Sequence helpers                                                       */
  /* ---------------------------------------------------------------------- */

  function Last<T>(s: seq<T>): T
    requires s != []
  {
    s[|s| - 1]
  }

  function DropLast<T>(s: seq<T>): (r: seq<T>)
    requires s != []
    ensures s == r + [Last(s)]
  {
    s[..|s| - 1]
  }

  predicate Distinct(ns: seq<string>) {
    forall i, j :: 0 <= i < j < |ns| ==> ns[i] != ns[j]
  }

  /** The first position of `n` in `ns`. */
  function IndexOf(ns: seq<string>, n: string): (r: Option<nat>)
    ensures r.None? <==> n !in ns
    ensures r.Some? ==> r.value < |ns| && ns[r.value] == n
  {
    if ns == [] then None
    else if ns[0] == n then Some(0)
    else match IndexOf(ns[1..], n)
      case None => None
      case Some(i) => Some(i + 1)
  }

  lemma IndexOfDistinct(ns: seq<string>, i: nat)
    requires Distinct(ns) && i < |ns|
    ensures IndexOf(ns, ns[i]) == Some(i)
  {
  }

  /* ---------------------------------------------------------------------- */
  /* The table list                                                         */
  /* ---------------------------------------------------------------------- */

  /** An entry of PHP's `$tables`, keyed by `name`. */
  datatype TableEntry = TableEntry(name: string, props: Props)

  function Names(es: seq<TableEntry>): (r: seq<string>)
    ensures |r| == |es| && forall i :: 0 <= i < |es| ==> r[i] == es[i].name
  {
    seq(|es|, i requires 0 <= i < |es| => es[i].name)
  }

  /** `$tables[$e->name]['PROPS'] = ...`: an existing key keeps its place and takes the new value; a new key goes last. */
  function Put(es: seq<TableEntry>, e: TableEntry): (r: seq<TableEntry>)
    requires Distinct(Names(es))
    ensures Distinct(Names(r))
    ensures Names(r) == if e.name in Names(es) then Names(es) else Names(es) + [e.name]
    ensures e.name in Names(es) ==> |r| == |es| && forall i :: 0 <= i < |es| ==> r[i] == if es[i].name == e.name then e else es[i]
    ensures e.name !in Names(es) ==> r == es + [e]
  {
    if e.name in Names(es) then
      var r := seq(|es|, i requires 0 <= i < |es| => if es[i].name == e.name then e else es[i]);
      assert Names(r) == Names(es);
      r
    else
      var r := es + [e];
      assert Names(r) == Names(es) + [e.name];
      r
  }

  /** The first loop of `getDefinitions`: one entry per table name, failing at the first unknown table type. */
  function CollectTables(infos: seq<InfoRow>): (r: Result<seq<TableEntry>, ReflectionError>)
    ensures r.Ok? ==> Distinct(Names(r.value))
    ensures r.Err? ==> r.error.UnknownTableType?
  {
    if infos == [] then Ok([])
    else
      var es :- CollectTables(DropLast(infos));
      var info := Last(infos);
      match ClassifyTableType(info.tableType)
      case None => Err(UnknownTableType(info.tableType))
      case Some(props) => Ok(Put(es, TableEntry(info.tableName, props)))
  }

  /* ---------------------------------------------------------------------- */
  /* Grouping rows under their table                                        */
  /* ---------------------------------------------------------------------- */

  /**
    The column loop and the primary-key loop: every row is converted and
    appended to the group of its table, in row order. A row whose table is not
    listed stops the loop with that table's name.
  */
  function Group<R, V>(names: seq<string>, rows: seq<R>, key: R -> string, conv: R -> V): (r: Result<seq<seq<V>>, string>)
    ensures r.Ok? ==> |r.value| == |names|
  {
    if rows == [] then Ok(seq(|names|, _ => []))
    else
      var groups :- Group(names, DropLast(rows), key, conv);
      var row := Last(rows);
      match IndexOf(names, key(row))
      case None => Err(key(row))
      case Some(i) => Ok(groups[i := groups[i] + [conv(row)]])
  }

  /* ---------------------------------------------------------------------- */
  /* getDefinitions                                                         */
  /* ---------------------------------------------------------------------- */

  /** `getDefinitions`, with the rows of the three queries as inputs. */
  function GetDefinitions(schemaName: string, infos: seq<InfoRow>, columns: seq<ColumnRow>, primaryKeys: seq<PrimaryKeyRow>)
    : (r: Result<seq<TableDefinition>, ReflectionError>)
    ensures infos == [] ==> r == Ok([])
    ensures r.Ok? ==> forall i :: 0 <= i < |r.value| ==> r.value[i].schemaName == schemaName
    ensures r.Err? && (r.error.ColumnsOfUnknownTable? || r.error.PrimaryKeysOfUnknownTable?) ==> r.error.schemaName == schemaName
  {
    if infos == [] then Ok([])
    else
      var tables :- CollectTables(infos);
      var names := Names(tables);
      var columnGroups := Group(names, columns, ColumnTable, NormalizeNullable);
      if columnGroups.Err? then Err(ColumnsOfUnknownTable(columnGroups.error, schemaName))
      else
        var keyGroups := Group(names, primaryKeys, KeyTable, KeyColumn);
        if keyGroups.Err? then Err(PrimaryKeysOfUnknownTable(keyGroups.error, schemaName))
        else
          Ok(seq(|tables|, i requires 0 <= i < |tables| =>
            TableDefinition(schemaName, tables[i].name, tables[i].props.temporary, columnGroups.value[i],
                            keyGroups.value[i], tables[i].props.tableType)))
  }

  /* ---------------------------------------------------------------------- */
  /* Reference definitions                                                  */
  /* ---------------------------------------------------------------------- */

  function InfoNames(infos: seq<InfoRow>): (r: seq<string>)
    ensures |r| == |infos| && forall i :: 0 <= i < |infos| ==> r[i] == infos[i].tableName
  {
    seq(|infos|, i requires 0 <= i < |infos| => infos[i].tableName)
  }

  predicate AllTypesKnown(infos: seq<InfoRow>) {
    forall i :: 0 <= i < |infos| ==> ClassifyTableType(infos[i].tableType).Some?
  }

  /** Row `k` is the last information row about `name`, and `props` is what its table type means. */
  predicate LastRowGives(infos: seq<InfoRow>, name: string, props: Props) {
    exists k :: 0 <= k < |infos| && infos[k].tableName == name && ClassifyTableType(infos[k].tableType) == Some(props)
      && forall k' :: k < k' < |infos| ==> infos[k'].tableName != name
  }

  /** The converted rows whose table is `name`, in row order. */
  function RowsOf<R, V>(rows: seq<R>, key: R -> string, conv: R -> V, name: string): seq<V> {
    if rows == [] then []
    else (if key(rows[0]) == name then [conv(rows[0])] else []) + RowsOf(rows[1..], key, conv, name)
  }

  predicate AllRowsListed<R>(names: seq<string>, rows: seq<R>, key: R -> string) {
    forall i :: 0 <= i < |rows| ==> key(rows[i]) in names
  }

  /** Row `i` is the first row whose table type is unknown, and `t` is that type. */
  predicate FirstUnknownType(infos: seq<InfoRow>, t: string) {
    exists i :: 0 <= i < |infos| && infos[i].tableType == t && ClassifyTableType(t).None?
      && forall j :: 0 <= j < i ==> ClassifyTableType(infos[j].tableType).Some?
  }

  /** Row `i` is the first row naming an unlisted table, and `n` is that table. */
  predicate FirstUnlisted<R>(names: seq<string>, rows: seq<R>, key: R -> string, n: string) {
    exists i :: 0 <= i < |rows| && key(rows[i]) == n && n !in names
      && forall j :: 0 <= j < i ==> key(rows[j]) in names
  }

  /* ---------------------------------------------------------------------- */
  /* Helper lemmas                                                          */
  /* ---------------------------------------------------------------------- */

  lemma {:induction false} IndexOfAppend(ns: seq<string>, x: string, n: string)
    ensures IndexOf(ns + [x], n) == if n in ns then IndexOf(ns, n) else if n == x then Some(|ns|) else None
  {
    if ns != [] {
      assert (ns + [x])[1..] == ns[1..] + [x];
      IndexOfAppend(ns[1..], x, n);
    }
  }

  lemma {:induction false} RowsOfAppend<R, V>(rows: seq<R>, row: R, key: R -> string, conv: R -> V, name: string)
    ensures RowsOf(rows + [row], key, conv, name) == RowsOf(rows, key, conv, name) + (if key(row) == name then [conv(row)] else [])
  {
    if rows == [] {
      assert [row][1..] == [];
    } else {
      var h := if key(rows[0]) == name then [conv(rows[0])] else [];
      var t := if key(row) == name then [conv(row)] else [];
      assert (rows + [row])[0] == rows[0];
      assert (rows + [row])[1..] == rows[1..] + [row];
      assert RowsOf(rows + [row], key, conv, name) == h + RowsOf(rows[1..] + [row], key, conv, name);
      RowsOfAppend(rows[1..], row, key, conv, name);
      Associate(h, RowsOf(rows[1..], key, conv, name), t);
    }
  }

  lemma Associate<T>(a: seq<T>, b: seq<T>, c: seq<T>)
    ensures a + (b + c) == a + b + c
  {
  }

  /* ---------------------------------------------------------------------- */
  /* The table list against its reference                                   */
  /* ---------------------------------------------------------------------- */

  /** The first loop succeeds exactly when every table type is known, and otherwise names the first unknown one. */
  lemma {:induction false} CollectTablesOkIff(infos: seq<InfoRow>)
    ensures CollectTables(infos).Ok? <==> AllTypesKnown(infos)
    ensures CollectTables(infos).Err? ==> FirstUnknownType(infos, CollectTables(infos).error.tableType)
    decreases |infos|
  {
    if infos != [] {
      var p := DropLast(infos);
      var info := Last(infos);
      assert infos == p + [info];
      CollectTablesOkIff(p);
      KnownTypesAppend(p, info);
      if CollectTables(p).Err? {
        FirstUnknownTypeExtend(p, info, CollectTables(p).error.tableType);
      }
    }
  }

  /** One more row: all types stay known exactly when its type is known; a first unknown row stays first. */
  lemma KnownTypesAppend(p: seq<InfoRow>, info: InfoRow)
    ensures AllTypesKnown(p + [info]) <==> AllTypesKnown(p) && ClassifyTableType(info.tableType).Some?
    ensures AllTypesKnown(p) && ClassifyTableType(info.tableType).None? ==> FirstUnknownType(p + [info], info.tableType)
  {
    var infos := p + [info];
    assert infos[|p|] == info;
    assert forall j :: 0 <= j < |p| ==> infos[j] == p[j];
  }

  lemma FirstUnknownTypeExtend(p: seq<InfoRow>, info: InfoRow, t: string)
    requires FirstUnknownType(p, t)
    ensures FirstUnknownType(p + [info], t)
  {
    var i :| 0 <= i < |p| && p[i].tableType == t && ClassifyTableType(t).None?
      && forall j :: 0 <= j < i ==> ClassifyTableType(p[j].tableType).Some?;
    var infos := p + [info];
    assert infos[i] == p[i];
    assert forall j :: 0 <= j < i ==> infos[j] == p[j];
  }

  /** On success the entries are keyed by exactly the table names of the rows. */
  lemma {:induction false} CollectTablesNames(infos: seq<InfoRow>)
    requires CollectTables(infos).Ok?
    ensures forall n :: n in Names(CollectTables(infos).value) <==> n in InfoNames(infos)
    decreases |infos|
  {
    if infos != [] {
      var p := DropLast(infos);
      var info := Last(infos);
      assert infos == p + [info];
      CollectTablesNames(p);
      InfoNamesAppend(p, info);
      var props := ClassifyTableType(info.tableType).value;
      PutNames(CollectTables(p).value, TableEntry(info.tableName, props));
    }
  }

  /** The position of the first row about `name`, or the row count when there is none. */
  function FirstRow(infos: seq<InfoRow>, name: string): (r: nat)
    ensures r <= |infos|
    ensures r < |infos| <==> name in InfoNames(infos)
    ensures r < |infos| ==> infos[r].tableName == name
  {
    match IndexOf(InfoNames(infos), name)
    case Some(k) => k
    case None => |infos|
  }

  lemma PutNames(es: seq<TableEntry>, e: TableEntry)
    requires Distinct(Names(es))
    ensures forall n :: n in Names(Put(es, e)) <==> n in Names(es) || n == e.name
  {
  }

  lemma InfoNamesAppend(p: seq<InfoRow>, info: InfoRow)
    ensures InfoNames(p + [info]) == InfoNames(p) + [info.tableName]
  {
  }

  lemma FirstRowAppend(p: seq<InfoRow>, info: InfoRow, name: string)
    requires name in InfoNames(p) || name == info.tableName
    ensures FirstRow(p + [info], name) == if name in InfoNames(p) then FirstRow(p, name) else |p|
  {
    assert InfoNames(p + [info]) == InfoNames(p) + [info.tableName];
    IndexOfAppend(InfoNames(p), info.tableName, name);
  }

  /** On success the entries are ordered by the first row naming each table. */
  lemma {:induction false} CollectTablesOrder(infos: seq<InfoRow>)
    requires CollectTables(infos).Ok?
    ensures var es := CollectTables(infos).value;
      forall i, j :: 0 <= i < j < |es| ==> FirstRow(infos, es[i].name) < FirstRow(infos, es[j].name)
    decreases |infos|
  {
    if infos != [] {
      var p := DropLast(infos);
      var info := Last(infos);
      assert infos == p + [info];
      CollectTablesOrder(p);
      CollectTablesNames(p);
      var before := CollectTables(p).value;
      var es := CollectTables(infos).value;
      forall i | 0 <= i < |before|
        ensures FirstRow(infos, before[i].name) == FirstRow(p, before[i].name) < |p|
      {
        assert before[i].name in Names(before);
        FirstRowAppend(p, info, before[i].name);
      }
      if info.tableName !in Names(before) {
        FirstRowAppend(p, info, info.tableName);
      }
      var props := ClassifyTableType(info.tableType).value;
      PutKeepsFirstRowOrder(infos, before, TableEntry(info.tableName, props), |p|);
    }
  }

  /** `Put` keeps entries ordered by first row when a new name's first row comes after every existing one. */
  lemma PutKeepsFirstRowOrder(infos: seq<InfoRow>, es: seq<TableEntry>, e: TableEntry, bound: nat)
    requires Distinct(Names(es))
    requires forall i, j :: 0 <= i < j < |es| ==> FirstRow(infos, es[i].name) < FirstRow(infos, es[j].name)
    requires forall i :: 0 <= i < |es| ==> FirstRow(infos, es[i].name) < bound
    requires e.name !in Names(es) ==> FirstRow(infos, e.name) == bound
    ensures var r := Put(es, e);
      forall i, j :: 0 <= i < j < |r| ==> FirstRow(infos, r[i].name) < FirstRow(infos, r[j].name)
  {
  }

  lemma LastRowGivesExtend(p: seq<InfoRow>, info: InfoRow, name: string, props: Props)
    requires LastRowGives(p, name, props)
    requires info.tableName != name
    ensures LastRowGives(p + [info], name, props)
  {
    var k :| 0 <= k < |p| && p[k].tableName == name && ClassifyTableType(p[k].tableType) == Some(props)
      && forall k' :: k < k' < |p| ==> p[k'].tableName != name;
    var infos := p + [info];
    assert infos[k] == p[k];
    forall k' | k < k' < |infos|
      ensures infos[k'].tableName != name
    {
      if k' < |p| {
        assert infos[k'] == p[k'];
      }
    }
  }

  lemma LastRowGivesLast(p: seq<InfoRow>, info: InfoRow, props: Props)
    requires ClassifyTableType(info.tableType) == Some(props)
    ensures LastRowGives(p + [info], info.tableName, props)
  {
    assert (p + [info])[|p|] == info;
  }

  /** Recording one more row keeps every entry's last row right. */
  lemma PutKeepsLastRows(p: seq<InfoRow>, info: InfoRow, before: seq<TableEntry>, props: Props)
    requires Distinct(Names(before))
    requires forall i :: 0 <= i < |before| ==> LastRowGives(p, before[i].name, before[i].props)
    requires ClassifyTableType(info.tableType) == Some(props)
    ensures var es := Put(before, TableEntry(info.tableName, props));
      forall i :: 0 <= i < |es| ==> LastRowGives(p + [info], es[i].name, es[i].props)
  {
    var es := Put(before, TableEntry(info.tableName, props));
    forall i | 0 <= i < |es|
      ensures LastRowGives(p + [info], es[i].name, es[i].props)
    {
      if es[i].name == info.tableName {
        LastRowGivesLast(p, info, es[i].props);
      } else {
        LastRowGivesExtend(p, info, es[i].name, es[i].props);
      }
    }
  }

  /** On success each entry holds what the last row about its table says. */
  lemma {:induction false} CollectTablesProps(infos: seq<InfoRow>)
    requires CollectTables(infos).Ok?
    ensures var es := CollectTables(infos).value;
      forall i :: 0 <= i < |es| ==> LastRowGives(infos, es[i].name, es[i].props)
    decreases |infos|
  {
    if infos != [] {
      var p := DropLast(infos);
      var info := Last(infos);
      assert infos == p + [info];
      CollectTablesProps(p);
      var props := ClassifyTableType(info.tableType).value;
      PutKeepsLastRows(p, info, CollectTables(p).value, props);
    }
  }

  /* ---------------------------------------------------------------------- */
  /* Grouping against its reference                                         */
  /* ---------------------------------------------------------------------- */

  /**
    Grouping fails exactly when some row names an unlisted table, and then
    names the first such table. The conversion `conv` is total here, so a
    throwing `SnowflakeColumn::createFromDB` is not covered.
  */
  lemma {:induction false} GroupOkIff<R, V>(names: seq<string>, rows: seq<R>, key: R -> string, conv: R -> V)
    ensures Group(names, rows, key, conv).Ok? <==> AllRowsListed(names, rows, key)
    ensures Group(names, rows, key, conv).Err? ==> FirstUnlisted(names, rows, key, Group(names, rows, key, conv).error)
    decreases |rows|
  {
    if rows != [] {
      var p := DropLast(rows);
      var row := Last(rows);
      assert rows == p + [row];
      GroupOkIff(names, p, key, conv);
      ListedAppend(names, p, row, key);
      if Group(names, p, key, conv).Err? {
        FirstUnlistedExtend(names, p, row, key, Group(names, p, key, conv).error);
      }
    }
  }

  /** One more row: all rows stay listed exactly when its table is listed; a first unlisted row stays first. */
  lemma ListedAppend<R>(names: seq<string>, p: seq<R>, row: R, key: R -> string)
    ensures AllRowsListed(names, p + [row], key) <==> AllRowsListed(names, p, key) && key(row) in names
    ensures AllRowsListed(names, p, key) && key(row) !in names ==> FirstUnlisted(names, p + [row], key, key(row))
  {
    var rows := p + [row];
    assert rows[|p|] == row;
    assert forall j :: 0 <= j < |p| ==> rows[j] == p[j];
  }

  lemma FirstUnlistedExtend<R>(names: seq<string>, p: seq<R>, row: R, key: R -> string, n: string)
    requires FirstUnlisted(names, p, key, n)
    ensures FirstUnlisted(names, p + [row], key, n)
  {
    var i :| 0 <= i < |p| && key(p[i]) == n && n !in names && forall j :: 0 <= j < i ==> key(p[j]) in names;
    var rows := p + [row];
    assert rows[i] == p[i];
    assert forall j :: 0 <= j < i ==> rows[j] == p[j];
  }

  /** Each table's group is exactly its rows, converted, in row order. */
  lemma {:induction false} GroupIsFilter<R, V>(names: seq<string>, rows: seq<R>, key: R -> string, conv: R -> V)
    requires Distinct(names)
    requires Group(names, rows, key, conv).Ok?
    ensures forall i :: 0 <= i < |names| ==> Group(names, rows, key, conv).value[i] == RowsOf(rows, key, conv, names[i])
    decreases |rows|
  {
    if rows != [] {
      var p := DropLast(rows);
      var row := Last(rows);
      GroupIsFilter(names, p, key, conv);
      assert rows == p + [row];
      var idx := IndexOf(names, key(row)).value;
      forall i | 0 <= i < |names|
        ensures Group(names, rows, key, conv).value[i] == RowsOf(rows, key, conv, names[i])
      {
        RowsOfAppend(p, row, key, conv, names[i]);
        if names[i] == key(row) {
          IndexOfDistinct(names, i);
        }
      }
    } else {
      forall i | 0 <= i < |names|
        ensures Group(names, rows, key, conv).value[i] == RowsOf(rows, key, conv, names[i])
      {
      }
    }
  }

  /* ---------------------------------------------------------------------- */
  /* getDefinitions against the references                                  */
  /* ---------------------------------------------------------------------- */

  function DefinitionNames(defs: seq<TableDefinition>): (r: seq<string>)
    ensures |r| == |defs| && forall i :: 0 <= i < |defs| ==> r[i] == defs[i].tableName
  {
    seq(|defs|, i requires 0 <= i < |defs| => defs[i].tableName)
  }

  lemma ListedUnderSameNames<R>(a: seq<string>, b: seq<string>, rows: seq<R>, key: R -> string)
    requires forall n :: n in a <==> n in b
    ensures AllRowsListed(a, rows, key) <==> AllRowsListed(b, rows, key)
  {
  }

  /**
    Without information rows the result is empty whatever the other rows are;
    otherwise it succeeds exactly when every table type is known and every
    column and primary-key row names a table of the information rows. Failures
    of `SnowflakeColumn::createFromDB` and of a numeric table name used as an
    integer key are not modelled.
  */
  lemma GetDefinitionsOkIff(schemaName: string, infos: seq<InfoRow>, columns: seq<ColumnRow>, primaryKeys: seq<PrimaryKeyRow>)
    ensures GetDefinitions(schemaName, infos, columns, primaryKeys).Ok? <==>
      infos == [] || (AllTypesKnown(infos) && AllRowsListed(InfoNames(infos), columns, ColumnTable)
                      && AllRowsListed(InfoNames(infos), primaryKeys, KeyTable))
  {
    if infos != [] {
      CollectTablesOkIff(infos);
      if AllTypesKnown(infos) {
        var names := Names(CollectTables(infos).value);
        CollectTablesNames(infos);
        ListedUnderSameNames(names, InfoNames(infos), columns, ColumnTable);
        ListedUnderSameNames(names, InfoNames(infos), primaryKeys, KeyTable);
        GroupOkIff(names, columns, ColumnTable, NormalizeNullable);
        GroupOkIff(names, primaryKeys, KeyTable, KeyColumn);
      }
    }
  }

  /**
    Table types are checked first, then the column rows, then the primary-key
    rows; each failure names the first row with an unknown type or an
    unlisted table. A `createFromDB` throw is not modelled.
  */
  lemma GetDefinitionsErrorOrder(schemaName: string, infos: seq<InfoRow>, columns: seq<ColumnRow>, primaryKeys: seq<PrimaryKeyRow>)
    requires infos != []
    ensures var r := GetDefinitions(schemaName, infos, columns, primaryKeys);
      !AllTypesKnown(infos) ==> r.Err? && r.error.UnknownTableType? && FirstUnknownType(infos, r.error.tableType)
    ensures var r := GetDefinitions(schemaName, infos, columns, primaryKeys);
      AllTypesKnown(infos) && !AllRowsListed(InfoNames(infos), columns, ColumnTable) ==>
        r.Err? && r.error.ColumnsOfUnknownTable? && r.error.schemaName == schemaName
        && FirstUnlisted(InfoNames(infos), columns, ColumnTable, r.error.tableName)
    ensures var r := GetDefinitions(schemaName, infos, columns, primaryKeys);
      AllTypesKnown(infos) && AllRowsListed(InfoNames(infos), columns, ColumnTable)
      && !AllRowsListed(InfoNames(infos), primaryKeys, KeyTable) ==>
        r.Err? && r.error.PrimaryKeysOfUnknownTable? && r.error.schemaName == schemaName
        && FirstUnlisted(InfoNames(infos), primaryKeys, KeyTable, r.error.tableName)
  {
    CollectTablesOkIff(infos);
    if AllTypesKnown(infos) {
      var names := Names(CollectTables(infos).value);
      CollectTablesNames(infos);
      ListedUnderSameNames(names, InfoNames(infos), columns, ColumnTable);
      ListedUnderSameNames(names, InfoNames(infos), primaryKeys, KeyTable);
      GroupOkIff(names, columns, ColumnTable, NormalizeNullable);
      GroupOkIff(names, primaryKeys, KeyTable, KeyColumn);
    }
  }

  /**
    On success there is one definition per distinct table name of the
    information rows, ordered by the first row naming it, typed by the last
    row naming it.
  */
  lemma GetDefinitionsTables(schemaName: string, infos: seq<InfoRow>, columns: seq<ColumnRow>, primaryKeys: seq<PrimaryKeyRow>)
    requires GetDefinitions(schemaName, infos, columns, primaryKeys).Ok?
    ensures var defs := GetDefinitions(schemaName, infos, columns, primaryKeys).value;
      Distinct(DefinitionNames(defs))
      && (forall n :: n in DefinitionNames(defs) <==> n in InfoNames(infos))
      && (forall i, j :: 0 <= i < j < |defs| ==> FirstRow(infos, defs[i].tableName) < FirstRow(infos, defs[j].tableName))
      && (forall i :: 0 <= i < |defs| ==> LastRowGives(infos, defs[i].tableName, Props(defs[i].isTemporary, defs[i].tableType)))
  {
    if infos != [] {
      var es := CollectTables(infos).value;
      var defs := GetDefinitions(schemaName, infos, columns, primaryKeys).value;
      CollectTablesNames(infos);
      CollectTablesOrder(infos);
      CollectTablesProps(infos);
      assert DefinitionNames(defs) == Names(es);
      assert forall i :: 0 <= i < |defs| ==> Props(defs[i].isTemporary, defs[i].tableType) == es[i].props;
    }
  }

  /** On success each definition holds exactly its table's column rows (nullable normalised) and primary-key columns, in row order. */
  lemma GetDefinitionsRows(schemaName: string, infos: seq<InfoRow>, columns: seq<ColumnRow>, primaryKeys: seq<PrimaryKeyRow>)
    requires GetDefinitions(schemaName, infos, columns, primaryKeys).Ok?
    ensures var defs := GetDefinitions(schemaName, infos, columns, primaryKeys).value;
      forall i :: 0 <= i < |defs| ==>
        defs[i].columns == RowsOf(columns, ColumnTable, NormalizeNullable, defs[i].tableName)
        && defs[i].primaryKeysNames == RowsOf(primaryKeys, KeyTable, KeyColumn, defs[i].tableName)
  {
    if infos != [] {
      var names := Names(CollectTables(infos).value);
      GroupIsFilter(names, columns, ColumnTable, NormalizeNullable);
      GroupIsFilter(names, primaryKeys, KeyTable, KeyColumn);
    }
  }

  /** A table no row mentions gets no columns or keys. */
  lemma {:induction false} NoRowsNoGroup<R, V>(rows: seq<R>, key: R -> string, conv: R -> V, name: string)
    requires forall i :: 0 <= i < |rows| ==> key(rows[i]) != name
    ensures RowsOf(rows, key, conv, name) == []
  {
    if rows != [] {
      NoRowsNoGroup(rows[1..], key, conv, name);
    }
  }

  /* ---------------------------------------------------------------------- */
  /* The table-type mapping                                                 */
  /* ---------------------------------------------------------------------- */

  /** The mapping only depends on the table type up to ASCII case. */
  lemma ClassifyIgnoresCase(a: string, b: string)
    requires EqualIgnoringCase(a, b)
    ensures ClassifyTableType(a) == ClassifyTableType(b)
  {
    StringToUpperEqualIff(a, b);
  }

  lemma PermanentUpper(u: string)
    ensures ClassifyUpper(u) == Some(Props(false, Table)) <==> u == "BASE TABLE"
    ensures ClassifyUpper(u) == Some(Props(false, SnowflakeExternal)) <==> u == "EXTERNAL TABLE"
    ensures ClassifyUpper(u) == Some(Props(false, View)) <==> u == "VIEW"
  {
  }

  lemma PermanentNamesHaveNoLower()
    ensures HasNoLower("BASE TABLE") && HasNoLower("EXTERNAL TABLE") && HasNoLower("VIEW")
  {
  }

  /** `BASE TABLE`, in any case, is a permanent table. */
  lemma BaseTableIff(t: string)
    ensures ClassifyTableType(t) == Some(Props(false, Table)) <==> EqualIgnoringCase(t, "BASE TABLE")
  {
    PermanentUpper(StringToUpper(t));
    PermanentNamesHaveNoLower();
    StringToUpperCharacterized(t, "BASE TABLE");
  }

  /** `EXTERNAL TABLE`, in any case, is an external table. */
  lemma ExternalTableIff(t: string)
    ensures ClassifyTableType(t) == Some(Props(false, SnowflakeExternal)) <==> EqualIgnoringCase(t, "EXTERNAL TABLE")
  {
    PermanentUpper(StringToUpper(t));
    PermanentNamesHaveNoLower();
    StringToUpperCharacterized(t, "EXTERNAL TABLE");
  }

  lemma TemporaryUpper(u: string)
    ensures ClassifyUpper(u) == Some(Props(true, Table)) <==> u == "LOCAL TEMPORARY" || u == "TEMPORARY TABLE"
  {
  }

  lemma TemporaryNamesHaveNoLower()
    ensures HasNoLower("LOCAL TEMPORARY") && HasNoLower("TEMPORARY TABLE")
  {
  }

  /** `LOCAL TEMPORARY` and `TEMPORARY TABLE`, in any case, are temporary tables. */
  lemma TemporaryTableIff(t: string)
    ensures ClassifyTableType(t) == Some(Props(true, Table)) <==>
      EqualIgnoringCase(t, "LOCAL TEMPORARY") || EqualIgnoringCase(t, "TEMPORARY TABLE")
  {
    TemporaryUpper(StringToUpper(t));
    TemporaryNamesHaveNoLower();
    StringToUpperCharacterized(t, "LOCAL TEMPORARY");
    StringToUpperCharacterized(t, "TEMPORARY TABLE");
  }

  /** `VIEW`, in any case, is a view. */
  lemma ViewIff(t: string)
    ensures ClassifyTableType(t) == Some(Props(false, View)) <==> EqualIgnoringCase(t, "VIEW")
  {
    PermanentUpper(StringToUpper(t));
    PermanentNamesHaveNoLower();
    StringToUpperCharacterized(t, "VIEW");
  }

  /** Any other table type is unknown. */
  lemma UnknownTableTypeIff(t: string)
    ensures ClassifyTableType(t).None? <==>
      !EqualIgnoringCase(t, "BASE TABLE") && !EqualIgnoringCase(t, "EXTERNAL TABLE")
      && !EqualIgnoringCase(t, "LOCAL TEMPORARY") && !EqualIgnoringCase(t, "TEMPORARY TABLE")
      && !EqualIgnoringCase(t, "VIEW")
  {
    BaseTableIff(t);
    ExternalTableIff(t);
    TemporaryTableIff(t);
    ViewIff(t);
  }

  /** A lower-case `view` is a view too. */
  lemma LowerCaseView()
    ensures ClassifyTableType("view") == Some(Props(false, View))
  {
    UpperOfUpper("VIEW");
    ClassifyIgnoresCase("view", "VIEW");
  }
}
