/**
  `SynapseTableQueryBuilder`: the DDL strings for tables on Azure Synapse.

  Identifier quoting (`AbstractPlatform::quoteSingleIdentifier`), a column's
  SQL definition (`getColumnDefinition()->getSQLDefinition()`) and the value of
  `ColumnInterface::TIMESTAMP_COLUMN_NAME` are not part of this model: the
  first is the parameter `quote`, the second is carried by the column, the
  third is the parameter `timestampColumn`.
*/
module SynapseTableQueryBuilder {
  import opened Results

  /** A column as the builder sees it: its name and its rendered SQL definition. */
  datatype Column = Column(name: string, sqlDefinition: string)

  /** `QueryBuilderException` with code `STRING_CODE_INVALID_TEMP_TABLE`. */
  datatype QueryBuilderError = InvalidTempTableName(tableName: string)

  const HeapSuffix := " WITH (HEAP, LOCATION = USER_DB)"

  /** A temporary table name is `#` followed by at least one character. */
  predicate IsTempTableName(tableName: string) {
    |tableName| >= 2 && tableName[0] == '#'
  }

  /** `assertTemporaryTable`: `#` must be at offset 0 and the name must not be `#` alone. */
  function AssertTemporaryTable(tableName: string): (r: Result<(), QueryBuilderError>)
    ensures r.Ok? <==> IsTempTableName(tableName)
    ensures r.Err? ==> r.error == InvalidTempTableName(tableName)
  {
    var hashAtStart := |tableName| > 0 && tableName[0] == '#';
    if !hashAtStart || tableName == "#" then Err(InvalidTempTableName(tableName)) else Ok(())
  }

  /* ---------------------------------------------------------------------- */
  /* implode                                                                */
  /* ---------------------------------------------------------------------- */

  function TotalLength(parts: seq<string>): nat {
    if parts == [] then 0 else |parts[0]| + TotalLength(parts[1..])
  }

  /** PHP's `implode(sep, parts)`. */
  function Join(parts: seq<string>, sep: string): (r: string)
    ensures parts == [] ==> r == []
    ensures |parts| == 1 ==> r == parts[0]
    ensures parts != [] ==> |r| == TotalLength(parts) + (|parts| - 1) * |sep|
  {
    if parts == [] then []
    else if |parts| == 1 then parts[0]
    else parts[0] + sep + Join(parts[1..], sep)
  }

  /** Joining one more part appends the separator and that part. */
  lemma {:induction false} JoinAppend(parts: seq<string>, x: string, sep: string)
    requires parts != []
    ensures Join(parts + [x], sep) == Join(parts, sep) + sep + x
  {
    if |parts| == 1 {
      assert parts + [x] == [parts[0], x];
      assert [parts[0], x][1..] == [x];
    } else {
      assert (parts + [x])[1..] == parts[1..] + [x];
      JoinAppend(parts[1..], x, sep);
    }
  }

  /* ---------------------------------------------------------------------- */
  /* Clauses                                                                */
  /* ---------------------------------------------------------------------- */

  /** `q(name) definition` */
  function ColumnClause(quote: string -> string, c: Column): string {
    quote(c.name) + " " + c.sqlDefinition
  }

  /** The clause `getCreateTableCommand` writes: the timestamp column ignores its definition. */
  function TableColumnClause(quote: string -> string, timestampColumn: string, c: Column): string {
    if c.name == timestampColumn then "[" + timestampColumn + "] DATETIME2" else ColumnClause(quote, c)
  }

  function ColumnClauses(quote: string -> string, columns: seq<Column>): (r: seq<string>)
    ensures |r| == |columns|
    ensures forall i :: 0 <= i < |columns| ==> r[i] == ColumnClause(quote, columns[i])
  {
    if columns == [] then [] else [ColumnClause(quote, columns[0])] + ColumnClauses(quote, columns[1..])
  }

  function TableColumnClauses(quote: string -> string, timestampColumn: string, columns: seq<Column>): (r: seq<string>)
    ensures |r| == |columns|
    ensures forall i :: 0 <= i < |columns| ==> r[i] == TableColumnClause(quote, timestampColumn, columns[i])
  {
    if columns == [] then []
    else [TableColumnClause(quote, timestampColumn, columns[0])] + TableColumnClauses(quote, timestampColumn, columns[1..])
  }

  function QuoteAll(quote: string -> string, names: seq<string>): (r: seq<string>)
    ensures |r| == |names|
    ensures forall i :: 0 <= i < |names| ==> r[i] == quote(names[i])
  {
    if names == [] then [] else [quote(names[0])] + QuoteAll(quote, names[1..])
  }

  /** `, PRIMARY KEY NONCLUSTERED(k1,k2) NOT ENFORCED`, or nothing without keys. */
  function PrimaryKeyClause(quote: string -> string, primaryKeys: seq<string>): (r: string)
    ensures r == [] <==> primaryKeys == []
  {
    if primaryKeys == [] then []
    else ", PRIMARY KEY NONCLUSTERED(" + Join(QuoteAll(quote, primaryKeys), ",") + ") NOT ENFORCED"
  }

  function QualifiedName(quote: string -> string, schemaName: string, tableName: string): string {
    quote(schemaName) + "." + quote(tableName)
  }

  /* ---------------------------------------------------------------------- */
  /* Commands                                                               */
  /* ---------------------------------------------------------------------- */

  /** `getCreateTempTableCommand`: the name is checked before any SQL is produced. */
  function CreateTempTableCommand(quote: string -> string, schemaName: string, tableName: string, columns: seq<Column>)
    : (r: Result<string, QueryBuilderError>)
    ensures r.Err? <==> !IsTempTableName(tableName)
    ensures r.Err? ==> r.error == InvalidTempTableName(tableName)
  {
    var _ :- AssertTemporaryTable(tableName);
    Ok("CREATE TABLE " + QualifiedName(quote, schemaName, tableName)
       + " (" + Join(ColumnClauses(quote, columns), ", ") + ")" + HeapSuffix)
  }

  /** `getCreateTableCommand` */
  function CreateTableCommand(quote: string -> string, timestampColumn: string, schemaName: string, tableName: string,
                              columns: seq<Column>, primaryKeys: seq<string>): (r: string)
    ensures var head := "CREATE TABLE " + QualifiedName(quote, schemaName, tableName) + " (";
      |r| > |head| && r[..|head|] == head
    ensures |r| > 0 && r[|r| - 1] == ')'
  {
    "CREATE TABLE " + QualifiedName(quote, schemaName, tableName)
    + " (" + Join(TableColumnClauses(quote, timestampColumn, columns), ", ") + PrimaryKeyClause(quote, primaryKeys) + ")"
  }

  /** `getDropTableCommand` */
  function DropTableCommand(quote: string -> string, schemaName: string, tableName: string): (r: string)
    ensures |r| >= 11 && r[..11] == "DROP TABLE "
  {
    "DROP TABLE " + QualifiedName(quote, schemaName, tableName)
  }

  /** `getRenameTableCommand` */
  function RenameTableCommand(quote: string -> string, schemaName: string, sourceTableName: string, newTableName: string)
    : (r: string)
    ensures |r| >= 14 && r[..14] == "RENAME OBJECT "
    ensures var tail := " TO " + quote(newTableName);
      |r| >= 14 + |tail| && r[|r| - |tail|..] == tail
  {
    "RENAME OBJECT " + QualifiedName(quote, schemaName, sourceTableName) + " TO " + quote(newTableName)
  }

  /** `getTruncateTableCommand` */
  function TruncateTableCommand(quote: string -> string, schemaName: string, tableName: string): (r: string)
    ensures |r| >= 15 && r[..15] == "TRUNCATE TABLE "
  {
    "TRUNCATE TABLE " + QualifiedName(quote, schemaName, tableName)
  }

  /* ---------------------------------------------------------------------- */
  /* Properties                                                             */
  /* ---------------------------------------------------------------------- */

  predicate HasNoTimestampColumn(timestampColumn: string, columns: seq<Column>) {
    forall i :: 0 <= i < |columns| ==> columns[i].name != timestampColumn
  }

  lemma ClausesWithoutTimestamp(quote: string -> string, timestampColumn: string, columns: seq<Column>)
    requires HasNoTimestampColumn(timestampColumn, columns)
    ensures TableColumnClauses(quote, timestampColumn, columns) == ColumnClauses(quote, columns)
  {
  }

  /**
    The temporary-table command has no timestamp special case: every column is
    written `quoted name` + definition. So for every column list it is the
    key-less create command, taken with any timestamp name that no column
    carries (a finite list always leaves one free), followed by the HEAP
    clause. This fixes its success output for every column list.
  */
  lemma CreateTempIsCreateWithHeap(quote: string -> string, timestampColumn: string, schemaName: string,
                                   tableName: string, columns: seq<Column>)
    requires IsTempTableName(tableName)
    requires HasNoTimestampColumn(timestampColumn, columns)
    ensures CreateTempTableCommand(quote, schemaName, tableName, columns)
         == Ok(CreateTableCommand(quote, timestampColumn, schemaName, tableName, columns, []) + HeapSuffix)
  {
    ClausesWithoutTimestamp(quote, timestampColumn, columns);
    var head := "CREATE TABLE " + QualifiedName(quote, schemaName, tableName)
                + " (" + Join(ColumnClauses(quote, columns), ", ");
    assert head + PrimaryKeyClause(quote, []) == head;
    assert CreateTableCommand(quote, timestampColumn, schemaName, tableName, columns, []) == head + ")";
  }

  /** The key clause is inserted just before the closing parenthesis, and only when there are keys. */
  lemma PrimaryKeyClauseInserted(quote: string -> string, timestampColumn: string, schemaName: string,
                                 tableName: string, columns: seq<Column>, primaryKeys: seq<string>)
    ensures var plain := CreateTableCommand(quote, timestampColumn, schemaName, tableName, columns, []);
      CreateTableCommand(quote, timestampColumn, schemaName, tableName, columns, primaryKeys)
      == plain[..|plain| - 1] + PrimaryKeyClause(quote, primaryKeys) + ")"
  {
    var head := "CREATE TABLE " + QualifiedName(quote, schemaName, tableName)
                + " (" + Join(TableColumnClauses(quote, timestampColumn, columns), ", ");
    var plain := CreateTableCommand(quote, timestampColumn, schemaName, tableName, columns, []);
    assert plain == head + ")";
    assert plain[..|plain| - 1] == head;
  }

  /** Keys change the command exactly when there are some. */
  lemma PrimaryKeysChangeCommandIff(quote: string -> string, timestampColumn: string, schemaName: string,
                                    tableName: string, columns: seq<Column>, primaryKeys: seq<string>)
    ensures CreateTableCommand(quote, timestampColumn, schemaName, tableName, columns, primaryKeys)
         == CreateTableCommand(quote, timestampColumn, schemaName, tableName, columns, [])
         <==> primaryKeys == []
  {
    var withKeys := CreateTableCommand(quote, timestampColumn, schemaName, tableName, columns, primaryKeys);
    var plain := CreateTableCommand(quote, timestampColumn, schemaName, tableName, columns, []);
    PrimaryKeyClauseInserted(quote, timestampColumn, schemaName, tableName, columns, primaryKeys);
    if primaryKeys != [] {
      assert |withKeys| == |plain| + |PrimaryKeyClause(quote, primaryKeys)|;
    }
  }

  /** The key list is the quoted keys in order, separated by `,` with no blank. */
  lemma PrimaryKeyListAppend(quote: string -> string, primaryKeys: seq<string>, k: string)
    requires primaryKeys != []
    ensures Join(QuoteAll(quote, primaryKeys + [k]), ",") == Join(QuoteAll(quote, primaryKeys), ",") + "," + quote(k)
  {
    assert QuoteAll(quote, primaryKeys + [k]) == QuoteAll(quote, primaryKeys) + [quote(k)];
    JoinAppend(QuoteAll(quote, primaryKeys), quote(k), ",");
  }

  /** A later column's clause follows the earlier ones after `, `: columns keep their input order. */
  lemma ColumnClausesAppend(quote: string -> string, timestampColumn: string, columns: seq<Column>, c: Column)
    requires columns != []
    ensures Join(TableColumnClauses(quote, timestampColumn, columns + [c]), ", ")
         == Join(TableColumnClauses(quote, timestampColumn, columns), ", ") + ", " + TableColumnClause(quote, timestampColumn, c)
  {
    assert TableColumnClauses(quote, timestampColumn, columns + [c])
        == TableColumnClauses(quote, timestampColumn, columns) + [TableColumnClause(quote, timestampColumn, c)];
    JoinAppend(TableColumnClauses(quote, timestampColumn, columns), TableColumnClause(quote, timestampColumn, c), ", ");
  }

  /** Columns that differ only in the definition of the timestamp column give the same command. */
  lemma TimestampDefinitionIgnored(quote: string -> string, timestampColumn: string, schemaName: string,
                                   tableName: string, a: seq<Column>, b: seq<Column>, primaryKeys: seq<string>)
    requires |a| == |b|
    requires forall i :: 0 <= i < |a| ==> a[i].name == b[i].name
    requires forall i :: 0 <= i < |a| ==> a[i].name != timestampColumn ==> a[i] == b[i]
    ensures CreateTableCommand(quote, timestampColumn, schemaName, tableName, a, primaryKeys)
         == CreateTableCommand(quote, timestampColumn, schemaName, tableName, b, primaryKeys)
  {
    assert TableColumnClauses(quote, timestampColumn, a) == TableColumnClauses(quote, timestampColumn, b);
  }

  predicate IsPrefix(p: string, s: string) {
    |p| <= |s| && s[..|p|] == p
  }

  /**
    Quoting after which the character `c` marks the end of the quoted name:
    a quoted name followed by `c` is never a proper prefix of another quoted
    name followed by `c`. The qualified names and RENAME's ` TO ` rely on it
    for `.` and the blank.
  */
  ghost predicate Delimits(quote: string -> string, c: char) {
    forall a, b :: IsPrefix(quote(a) + [c], quote(b) + [c]) ==> a == b
  }

  ghost predicate ReadableQuoting(quote: string -> string) {
    Delimits(quote, '.') && Delimits(quote, ' ')
  }

  /** Two prefixes of one string are prefixes of each other, the shorter of the longer. */
  lemma PrefixesComparable(p: string, q: string, w: string)
    requires IsPrefix(p, w) && IsPrefix(q, w)
    ensures IsPrefix(p, q) || IsPrefix(q, p)
  {
    if |p| <= |q| {
      assert q[..|p|] == w[..|q|][..|p|];
    } else {
      assert p[..|q|] == w[..|p|][..|q|];
    }
  }

  /** A quoted name ended by a delimiting character, followed by anything, can be read back. */
  lemma SplitQuoted(quote: string -> string, c: char, a: string, b: string, x: string, y: string)
    requires Delimits(quote, c)
    requires quote(a) + [c] + x == quote(b) + [c] + y
    ensures a == b && x == y
  {
    var w := quote(a) + [c] + x;
    assert IsPrefix(quote(a) + [c], w);
    assert IsPrefix(quote(b) + [c], w);
    PrefixesComparable(quote(a) + [c], quote(b) + [c], w);
    assert x == w[|quote(a)| + 1..];
  }

  /** Delimited quoting is injective. */
  lemma DelimitedInjective(quote: string -> string, c: char, a: string, b: string)
    requires Delimits(quote, c)
    requires quote(a) == quote(b)
    ensures a == b
  {
    assert IsPrefix(quote(a) + [c], quote(b) + [c]);
  }

  /** A qualified name determines its schema, and what follows the `.`. */
  lemma QualifiedNameSplits(quote: string -> string, s1: string, t1: string, x1: string,
                            s2: string, t2: string, x2: string)
    requires Delimits(quote, '.')
    requires QualifiedName(quote, s1, t1) + x1 == QualifiedName(quote, s2, t2) + x2
    ensures s1 == s2 && quote(t1) + x1 == quote(t2) + x2
  {
    assert quote(s1) + ['.'] + (quote(t1) + x1) == QualifiedName(quote, s1, t1) + x1;
    assert quote(s2) + ['.'] + (quote(t2) + x2) == QualifiedName(quote, s2, t2) + x2;
    SplitQuoted(quote, '.', s1, s2, quote(t1) + x1, quote(t2) + x2);
  }

  /* ---------------------------------------------------------------------- */
  /* Bracket quoting                                                        */
  /* ---------------------------------------------------------------------- */

  /** `]` written twice, every other character as it is. */
  function DoubleClosers(s: string): (r: string)
    ensures |r| >= |s|
  {
    if s == [] then []
    else (if s[0] == ']' then "]]" else [s[0]]) + DoubleClosers(s[1..])
  }

  /** SQL Server's identifier quoting: `[name]` with each `]` of the name doubled. */
  function BracketQuote(name: string): string {
    "[" + DoubleClosers(name) + "]"
  }

  /** Reads a bracket-quoted body: up to the first `]` that is not doubled. */
  function Unbracket(w: string): (r: Option<(string, string)>)
    ensures r.Some? ==> |r.value.1| < |w|
  {
    if w == [] then None
    else if w[0] == ']' then
      if |w| >= 2 && w[1] == ']' then
        match Unbracket(w[2..])
        case None => None
        case Some(p) => Some(("]" + p.0, p.1))
      else Some(([], w[1..]))
    else
      match Unbracket(w[1..])
      case None => None
      case Some(p) => Some(([w[0]] + p.0, p.1))
  }

  /** Reading back a bracket-quoted body gives the name and the text after the closing `]`. */
  lemma {:induction false} UnbracketDoubled(name: string, y: string)
    requires y == [] || y[0] != ']'
    ensures Unbracket(DoubleClosers(name) + "]" + y) == Some((name, y))
  {
    var w := DoubleClosers(name) + "]" + y;
    if name == [] {
      assert w == "]" + y;
    } else {
      var tail := DoubleClosers(name[1..]) + "]" + y;
      UnbracketDoubled(name[1..], y);
      if name[0] == ']' {
        assert w == "]]" + tail;
        assert w[2..] == tail;
        assert "]" + name[1..] == name;
      } else {
        assert w == [name[0]] + tail;
        assert w[1..] == tail;
        assert [name[0]] + name[1..] == name;
      }
    }
  }

  /** Bracket quoting satisfies the requirement for every character except `]`, so for `.` and the blank. */
  lemma BracketQuoteDelimits(c: char)
    requires c != ']'
    ensures Delimits(BracketQuote, c)
  {
    forall a, b | IsPrefix(BracketQuote(a) + [c], BracketQuote(b) + [c])
      ensures a == b
    {
      BracketPrefixSame(a, b, c);
    }
  }

  lemma BracketPrefixSame(a: string, b: string, c: char)
    requires c != ']'
    requires IsPrefix(BracketQuote(a) + [c], BracketQuote(b) + [c])
    ensures a == b
  {
    var w := BracketQuote(b) + [c];
    var rest := w[|BracketQuote(a)| + 1..];
    assert w == BracketQuote(a) + ([c] + rest);
    BracketBody(b, [c]);
    BracketBody(a, [c] + rest);
    UnbracketDoubled(b, [c]);
    UnbracketDoubled(a, [c] + rest);
  }

  /** Past the opening `[`, a quoted name and what follows it read as its doubled body, `]`, and the rest. */
  lemma BracketBody(name: string, y: string)
    ensures (BracketQuote(name) + y)[1..] == DoubleClosers(name) + "]" + y
  {
  }

  lemma BracketQuoteReadable()
    ensures ReadableQuoting(BracketQuote)
  {
    BracketQuoteDelimits('.');
    BracketQuoteDelimits(' ');
  }

  /** With readable quoting, a DROP command names exactly one table. */
  lemma DropTableCommandEqualIff(quote: string -> string, s1: string, t1: string, s2: string, t2: string)
    requires ReadableQuoting(quote)
    ensures DropTableCommand(quote, s1, t1) == DropTableCommand(quote, s2, t2) <==> s1 == s2 && t1 == t2
  {
    if DropTableCommand(quote, s1, t1) == DropTableCommand(quote, s2, t2) {
      CommandsShareTarget(quote, s1, t1, []);
      CommandsShareTarget(quote, s2, t2, []);
      assert QualifiedName(quote, s1, t1) + [] == QualifiedName(quote, s2, t2) + [];
      QualifiedNameSplits(quote, s1, t1, [], s2, t2, []);
      assert quote(t1) == quote(t1) + [] && quote(t2) == quote(t2) + [];
      DelimitedInjective(quote, '.', t1, t2);
    }
  }

  /** With readable quoting, a TRUNCATE command names exactly one table. */
  lemma TruncateTableCommandEqualIff(quote: string -> string, s1: string, t1: string, s2: string, t2: string)
    requires ReadableQuoting(quote)
    ensures TruncateTableCommand(quote, s1, t1) == TruncateTableCommand(quote, s2, t2) <==> s1 == s2 && t1 == t2
  {
    if TruncateTableCommand(quote, s1, t1) == TruncateTableCommand(quote, s2, t2) {
      CommandsShareTarget(quote, s1, t1, []);
      CommandsShareTarget(quote, s2, t2, []);
      assert QualifiedName(quote, s1, t1) + [] == QualifiedName(quote, s2, t2) + [];
      QualifiedNameSplits(quote, s1, t1, [], s2, t2, []);
      assert quote(t1) == quote(t1) + [] && quote(t2) == quote(t2) + [];
      DelimitedInjective(quote, '.', t1, t2);
    }
  }

  /** With readable quoting, a RENAME command determines the schema, the source and the new name. */
  lemma RenameTableCommandEqualIff(quote: string -> string, s1: string, t1: string, n1: string,
                                   s2: string, t2: string, n2: string)
    requires ReadableQuoting(quote)
    ensures RenameTableCommand(quote, s1, t1, n1) == RenameTableCommand(quote, s2, t2, n2)
        <==> s1 == s2 && t1 == t2 && n1 == n2
  {
    if RenameTableCommand(quote, s1, t1, n1) == RenameTableCommand(quote, s2, t2, n2) {
      RenameAfterKeyword(quote, s1, t1, n1);
      RenameAfterKeyword(quote, s2, t2, n2);
      QualifiedNameSplits(quote, s1, t1, " TO " + quote(n1), s2, t2, " TO " + quote(n2));
      SplitAtTo(quote, t1, t2, n1, n2);
    }
  }

  lemma RenameAfterKeyword(quote: string -> string, s: string, t: string, n: string)
    ensures RenameTableCommand(quote, s, t, n)[14..] == QualifiedName(quote, s, t) + (" TO " + quote(n))
  {
  }

  /** The source name ends at the blank before `TO`, and the new name is all that follows it. */
  lemma SplitAtTo(quote: string -> string, t1: string, t2: string, n1: string, n2: string)
    requires Delimits(quote, ' ')
    requires quote(t1) + (" TO " + quote(n1)) == quote(t2) + (" TO " + quote(n2))
    ensures t1 == t2 && n1 == n2
  {
    assert quote(t1) + [' '] + ("TO " + quote(n1)) == quote(t1) + (" TO " + quote(n1));
    assert quote(t2) + [' '] + ("TO " + quote(n2)) == quote(t2) + (" TO " + quote(n2));
    SplitQuoted(quote, ' ', t1, t2, "TO " + quote(n1), "TO " + quote(n2));
    assert quote(n1) == ("TO " + quote(n1))[3..];
    assert quote(n2) == ("TO " + quote(n2))[3..];
    DelimitedInjective(quote, ' ', n1, n2);
  }

  /** DROP and TRUNCATE name the same object, RENAME starts from it. */
  lemma CommandsShareTarget(quote: string -> string, schemaName: string, tableName: string, newTableName: string)
    ensures DropTableCommand(quote, schemaName, tableName)[11..] == QualifiedName(quote, schemaName, tableName)
    ensures TruncateTableCommand(quote, schemaName, tableName)[15..] == QualifiedName(quote, schemaName, tableName)
    ensures var target := QualifiedName(quote, schemaName, tableName);
      RenameTableCommand(quote, schemaName, tableName, newTableName)[14..14 + |target|] == target
  {
  }
}
