# php-table-backend-utils core, modelled in Dafny

This project models the parts of keboola/php-table-backend-utils that do not
talk to a database. Those parts build SQL strings, interpret catalog rows and
parse BigQuery type strings. The rest of the library runs queries over a
connection, which this model leaves out. The modelled parts are:

- **BigQuery complex-type tokenizer** (`complex_type_tokenizer.dfy`,
  `complex_type_tokenizer_vectors.dfy`). It turns a column type such as
  `ARRAY<STRUCT<x NUMERIC(10,10)>>` into a tree of `T_NAME`, `T_TYPE`,
  `T_LENGTH`, `T_FIELD_DELIMITER` and `T_NESTED` tokens.
  - The parser is a recursive descent over the unconsumed rest of the input.
  - Its reference is a grammar predicate `WellFormed`: a region is
    `field (, field)*` with `field = [NAME] TYPE [LENGTH | NESTED]`.
  - A canonical spelling `Render` connects the two. Parsing the spelling of a
    well-formed list gives that list back, and everything the parser accepts
    is well-formed.
  - Every case of the tokenizer's unit test is proved about the model.
- **Snowflake schema reflection** (`snowflake_schema_reflection.dfy`).
  `getDefinitions` turns three query results (table rows, column rows,
  primary-key rows) into one definition per table. It fails on an unknown
  table type, or on a column or key row whose table is not listed; the
  failures of the column conversion `SnowflakeColumn::createFromDB` are not
  modelled (see "## Left out"). Each loop
  of the PHP code is a prefix-recursive fold. It is proved against
  independent reference predicates:
  - which rows are accepted;
  - which error is reported first;
  - one entry per distinct table name, ordered by first appearance and typed
    by the last row naming it;
  - each table holds exactly its rows, in row order.
- **Synapse table query builder** (`synapse_table_query_builder.dfy`).
  CREATE, CREATE of a temporary table, DROP, RENAME and TRUNCATE commands,
  with the `#` check on temporary table names and the `PRIMARY KEY
  NONCLUSTERED` clause.
- **Synapse schema query builder** (`synapse_schema_query_builder.dfy`):
  CREATE and DROP SCHEMA on the upper-cased, quoted schema name.
- **Exasol column** (`exasol_column.dfy`). It builds a column from a row of
  Exasol's column catalog:
  - the length comes from the interval patterns, precision and scale, or
    the maximum size;
  - the nullable flag is `'1'`;
  - the default is trimmed as PHP's `trim` does.
  It also models the generic `VARCHAR(2000000)` column.
- **Case converter** (`case_converter.dfy`): `strtoupper` on strings and
  arrays. From PHP 8.2 on, and in the default C locale before it,
  `strtoupper` is ASCII-only.
- **BigQuery quoting** (`bigquery_quote.dfy`). String literals are wrapped
  in `'` with quotes escaped by `\`; identifiers are wrapped in backticks.
  The behaviour is the one the unit test fixes, with a decoder proving the
  round trip in both directions.

`results.dfy` holds the `Result` and `Option` types shared by the modules.
Identifier quoting, which the SQL platform and `SynapseQuote` perform, is a
parameter `quote: string -> string` of the builders.

## Model

| member | source | states |
|---|---|---|
| ComplexTypeTokenizer.ReadHead | tests/Unit/Column/Bigquery/Parser/ComplexTypeTokenizerTest.php:18-25 | Reading a field's head fails exactly when the field does not start with a word character. On success it consumes input and gives a head of the grammar: a TYPE, or a NAME then a TYPE. |
| ComplexTypeTokenizer.ReadUntilCloser | tests/Unit/Column/Bigquery/Parser/ComplexTypeTokenizerTest.php:40-52 | A length region is kept up to the first `)`, commas included (`10,10`), and the `)` is consumed. Reading fails only when no `)` follows. |
| ComplexTypeTokenizer.ParseFields | tests/Unit/Column/Bigquery/Parser/ComplexTypeTokenizerTest.php:93-144 | The field loop of one region always consumes input. It stops only at a `>` or at the end of the input. |
| ComplexTypeTokenizer.TokenizeRender | tests/Unit/Column/Bigquery/Parser/ComplexTypeTokenizerTest.php:228-232 | Round trip: tokenizing the canonical spelling of any well-formed token tree gives that tree back. |
| ComplexTypeTokenizer.RenderInjective | tests/Unit/Column/Bigquery/Parser/ComplexTypeTokenizerTest.php:228-232 | Two well-formed token trees with the same spelling are equal. |
| ComplexTypeTokenizer.TokenizeWellFormed | tests/Unit/Column/Bigquery/Parser/ComplexTypeTokenizerTest.php:228-232 | Soundness: every accepted type string gives a tree in the grammar, and re-tokenizing that tree's spelling gives the same result. |
| ComplexTypeTokenizer.DelimitersSeparateFields | tests/Unit/Column/Bigquery/Parser/ComplexTypeTokenizerTest.php:199-221 | In every well-formed region there is one more TYPE token than there are delimiters: delimiters sit only between fields. |
| ComplexTypeTokenizerVectors.ToArraysInjective | tests/Unit/Column/Bigquery/Parser/ComplexTypeTokenizerTest.php:238-261 | The test's array form (`type` plus `token` or `nested`) determines the tokens, so comparing arrays is comparing tokens. |
| ComplexTypeTokenizerVectors.ArrayOfString | tests/Unit/Column/Bigquery/Parser/ComplexTypeTokenizerTest.php:18-25 | `col ARRAY<STRING>` tokenizes to NAME col, TYPE ARRAY, NESTED[TYPE STRING]. |
| ComplexTypeTokenizerVectors.ArrayOfStringWithLength | tests/Unit/Column/Bigquery/Parser/ComplexTypeTokenizerTest.php:26-39 | `col ARRAY<STRING(123245)>` tokenizes with the length `123245` inside the nested region. |
| ComplexTypeTokenizerVectors.ArrayOfNumeric | tests/Unit/Column/Bigquery/Parser/ComplexTypeTokenizerTest.php:40-52 | `ARRAY<NUMERIC(10,10)>` tokenizes to TYPE ARRAY, NESTED[TYPE NUMERIC, LENGTH 10,10]. |
| ComplexTypeTokenizerVectors.ArrayOfStruct | tests/Unit/Column/Bigquery/Parser/ComplexTypeTokenizerTest.php:53-71 | `ARRAY<STRUCT<x NUMERIC>>` tokenizes to two levels of nesting, with a named field inside. |
| ComplexTypeTokenizerVectors.ArrayOfStructWithLength | tests/Unit/Column/Bigquery/Parser/ComplexTypeTokenizerTest.php:72-91 | `ARRAY<STRUCT<x NUMERIC(10,10)>>` tokenizes as the test expects. |
| ComplexTypeTokenizerVectors.UnbalancedArrayOfStruct | tests/Unit/Column/Bigquery/Parser/ComplexTypeTokenizerTest.php:92-144 | The three-field case tokenizes to exactly the expected tree. It has a blank after a delimiter and one `>` fewer than `<`. |
| ComplexTypeTokenizerVectors.StructWithLength | tests/Unit/Column/Bigquery/Parser/ComplexTypeTokenizerTest.php:145-158 | `STRUCT<t NUMERIC(10,10)>` tokenizes as the test expects. |
| ComplexTypeTokenizerVectors.NamedStructWithLength | tests/Unit/Column/Bigquery/Parser/ComplexTypeTokenizerTest.php:159-173 | `col STRUCT<t NUMERIC(10,10)>` tokenizes as the test expects. |
| ComplexTypeTokenizerVectors.StructWithPrecision | tests/Unit/Column/Bigquery/Parser/ComplexTypeTokenizerTest.php:174-187 | `STRUCT<t NUMERIC(10)>` tokenizes with the length `10`. |
| ComplexTypeTokenizerVectors.StructOfType | tests/Unit/Column/Bigquery/Parser/ComplexTypeTokenizerTest.php:188-197 | `STRUCT<t NUMERIC>` tokenizes to TYPE STRUCT, NESTED[NAME t, TYPE NUMERIC]. |
| ComplexTypeTokenizerVectors.StructOfStruct | tests/Unit/Column/Bigquery/Parser/ComplexTypeTokenizerTest.php:199-221 | `STRUCT<x STRUCT<y INTEGER,z INTEGER>>` tokenizes with a delimiter between the two inner fields. |
| SnowflakeSchemaReflection.BaseTableIff | src/Schema/Snowflake/SnowflakeSchemaReflection.php:140-144 | A table type maps to a permanent TABLE exactly when it is `BASE TABLE` up to ASCII case. |
| SnowflakeSchemaReflection.ExternalTableIff | src/Schema/Snowflake/SnowflakeSchemaReflection.php:145-148 | It maps to a permanent SNOWFLAKE_EXTERNAL table exactly when it is `EXTERNAL TABLE` up to case. |
| SnowflakeSchemaReflection.TemporaryTableIff | src/Schema/Snowflake/SnowflakeSchemaReflection.php:149-153 | It maps to a temporary TABLE exactly when it is `LOCAL TEMPORARY` or `TEMPORARY TABLE` up to case. |
| SnowflakeSchemaReflection.ViewIff | src/Schema/Snowflake/SnowflakeSchemaReflection.php:154-157 | It maps to a permanent VIEW exactly when it is `VIEW` up to case. |
| SnowflakeSchemaReflection.UnknownTableTypeIff | src/Schema/Snowflake/SnowflakeSchemaReflection.php:158-162 | Every other table type is rejected. |
| SnowflakeSchemaReflection.ClassifyIgnoresCase | src/Schema/Snowflake/SnowflakeSchemaReflection.php:140 | The mapping depends on the table type only up to ASCII case. |
| SnowflakeSchemaReflection.LowerCaseView | src/Schema/Snowflake/SnowflakeSchemaReflection.php:140-157 | A lower-case `view` is classified as a view. |
| SnowflakeSchemaReflection.NormalizeNullable | src/Schema/Snowflake/SnowflakeSchemaReflection.php:177 | `null?` becomes `Y` exactly when it was `YES`, otherwise `N`; the rest of the row is unchanged. |
| SnowflakeSchemaReflection.Put | src/Schema/Snowflake/SnowflakeSchemaReflection.php:138 | Writing a table's entry keeps keys distinct. A known key keeps its place and takes the new value; a new key is appended last. |
| SnowflakeSchemaReflection.CollectTablesOkIff | src/Schema/Snowflake/SnowflakeSchemaReflection.php:137-164 | The table loop succeeds exactly when every table type is known; otherwise it reports the first unknown one. |
| SnowflakeSchemaReflection.CollectTablesNames | src/Schema/Snowflake/SnowflakeSchemaReflection.php:137-138 | The tables collected are exactly the table names of the information rows. |
| SnowflakeSchemaReflection.CollectTablesOrder | src/Schema/Snowflake/SnowflakeSchemaReflection.php:137-138 | Tables are ordered by the first information row naming them. |
| SnowflakeSchemaReflection.CollectTablesProps | src/Schema/Snowflake/SnowflakeSchemaReflection.php:137-157 | Each table's temporary flag and type come from the last information row naming it. |
| SnowflakeSchemaReflection.GroupOkIff | src/Schema/Snowflake/SnowflakeSchemaReflection.php:166-190 | With the column conversion taken to succeed, the column and key loops succeed exactly when every row names a listed table; otherwise they report the first unlisted table. |
| SnowflakeSchemaReflection.GroupIsFilter | src/Schema/Snowflake/SnowflakeSchemaReflection.php:166-190 | Each table's group is exactly its rows, converted, in row order. |
| SnowflakeSchemaReflection.GetDefinitions | src/Schema/Snowflake/SnowflakeSchemaReflection.php:116-119 | No information rows give an empty result, whatever the other rows. Every definition and every row error carries the reflected schema name. |
| SnowflakeSchemaReflection.GetDefinitionsOkIff | src/Schema/Snowflake/SnowflakeSchemaReflection.php:116-190 | Apart from the unmodelled `createFromDB` and numeric-name failures, the result is a success exactly when there are no information rows, or when all types are known and every column and key row names a listed table. |
| SnowflakeSchemaReflection.GetDefinitionsErrorOrder | src/Schema/Snowflake/SnowflakeSchemaReflection.php:137-190 | Table types are checked first, then the columns, then the keys. Each error names the first row with an unknown type or an unlisted table; `createFromDB` throws are not modelled. |
| SnowflakeSchemaReflection.GetDefinitionsTables | src/Schema/Snowflake/SnowflakeSchemaReflection.php:192-203 | There is one definition per distinct table name, ordered by first appearance, with flags from the last row naming it. |
| SnowflakeSchemaReflection.GetDefinitionsRows | src/Schema/Snowflake/SnowflakeSchemaReflection.php:166-203 | Each definition holds exactly its table's normalised column rows and its primary-key column names, in row order. |
| SnowflakeSchemaReflection.NoRowsNoGroup | src/Schema/Snowflake/SnowflakeSchemaReflection.php:198-199 | A table that no row mentions gets an empty column and key list (`?? []`). |
| SynapseTableQueryBuilder.AssertTemporaryTable | src/Table/SynapseTableQueryBuilder.php:48-60 | A temporary table name is accepted exactly when `#` is at offset 0 and the name is not `#` alone; otherwise the error carries the name. |
| SynapseTableQueryBuilder.CreateTempTableCommand | src/Table/SynapseTableQueryBuilder.php:24-46 | The command fails exactly when the name is not a temporary table name, and then with that name. |
| SynapseTableQueryBuilder.CreateTempIsCreateWithHeap | src/Table/SynapseTableQueryBuilder.php:24-46 | The temporary-table command treats a `_timestamp` column like any other. For every column list, a successful command is the key-less CREATE TABLE, taken with a timestamp name that no column carries, followed by ` WITH (HEAP, LOCATION = USER_DB)`. |
| SynapseTableQueryBuilder.Join | src/Table/SynapseTableQueryBuilder.php:88 | `implode`: no parts give the empty string and one part gives itself. The length is the parts' total plus one separator between each pair. |
| SynapseTableQueryBuilder.JoinAppend | src/Table/SynapseTableQueryBuilder.php:96 | Joining one more part appends the separator and that part. |
| SynapseTableQueryBuilder.ClausesWithoutTimestamp | src/Table/SynapseTableQueryBuilder.php:68-79 | Without a timestamp column, CREATE TABLE writes every column as `quoted name` + definition. |
| SynapseTableQueryBuilder.TimestampDefinitionIgnored | src/Table/SynapseTableQueryBuilder.php:70-73 | The timestamp column is always written `[name] DATETIME2`: its own definition does not affect the command. |
| SynapseTableQueryBuilder.ColumnClausesAppend | src/Table/SynapseTableQueryBuilder.php:68-79 | Columns appear in input order, separated by `, `. |
| SynapseTableQueryBuilder.PrimaryKeyClauseInserted | src/Table/SynapseTableQueryBuilder.php:81-98 | The key clause is inserted just before the closing parenthesis. |
| SynapseTableQueryBuilder.PrimaryKeysChangeCommandIff | src/Table/SynapseTableQueryBuilder.php:81-90 | Primary keys change the command exactly when there are some. |
| SynapseTableQueryBuilder.PrimaryKeyListAppend | src/Table/SynapseTableQueryBuilder.php:83-89 | The keys are quoted in order and joined by `,` with no blank. |
| SynapseTableQueryBuilder.CreateTableCommand | src/Table/SynapseTableQueryBuilder.php:92-98 | The command starts with `CREATE TABLE `, the quoted `schema.table` and ` (`, and always ends with the closing parenthesis. |
| SynapseTableQueryBuilder.DropTableCommand | src/Table/SynapseTableQueryBuilder.php:101-110 | The command starts with `DROP TABLE `. |
| SynapseTableQueryBuilder.RenameTableCommand | src/Table/SynapseTableQueryBuilder.php:112-123 | The command starts with `RENAME OBJECT ` and ends with ` TO ` and the quoted new name. |
| SynapseTableQueryBuilder.TruncateTableCommand | src/Table/SynapseTableQueryBuilder.php:125-134 | The command starts with `TRUNCATE TABLE `. |
| SynapseTableQueryBuilder.DropTableCommandEqualIff | src/Table/SynapseTableQueryBuilder.php:101-110 | When a quoted name followed by `.` or a blank can be read back, two DROP commands are equal exactly when they name the same schema and table. |
| SynapseTableQueryBuilder.TruncateTableCommandEqualIff | src/Table/SynapseTableQueryBuilder.php:125-134 | Under the same quoting requirement, two TRUNCATE commands are equal exactly when they name the same schema and table. |
| SynapseTableQueryBuilder.RenameTableCommandEqualIff | src/Table/SynapseTableQueryBuilder.php:112-123 | Under the same quoting requirement, two RENAME commands are equal exactly when schema, source table and new name all agree. |
| SynapseTableQueryBuilder.BracketQuoteDelimits | src/Table/SynapseTableQueryBuilder.php:105-109 | SQL Server's bracket quoting (`[name]` with `]` doubled) meets that requirement for every character except `]`: the name is read back up to the first `]` that is not doubled. |
| SynapseTableQueryBuilder.CommandsShareTarget | src/Table/SynapseTableQueryBuilder.php:101-134 | DROP and TRUNCATE end with the same `schema.table` that RENAME starts from. |
| SynapseSchemaQueryBuilder.CreateSchemaCommand | src/Schema/SynapseSchemaQueryBuilder.php:12-16 | The command starts with `CREATE SCHEMA `. |
| SynapseSchemaQueryBuilder.DropSchemaCommand | src/Schema/SynapseSchemaQueryBuilder.php:18-22 | The command starts with `DROP SCHEMA `. |
| SynapseSchemaQueryBuilder.CreateAndDropShareIdentifier | src/Schema/SynapseSchemaQueryBuilder.php:12-22 | Both commands embed the quoted, upper-cased schema name after their keyword. |
| SynapseSchemaQueryBuilder.SchemaCommandsIgnoreCase | src/Schema/SynapseSchemaQueryBuilder.php:14-20 | Names equal up to ASCII case give the same commands. |
| SynapseSchemaQueryBuilder.CreateSchemaCommandEqualIff | src/Schema/SynapseSchemaQueryBuilder.php:12-16 | With injective quoting, two CREATE commands are equal exactly when the names are equal up to case. |
| SynapseSchemaQueryBuilder.DropSchemaCommandEqualIff | src/Schema/SynapseSchemaQueryBuilder.php:18-22 | The same holds for DROP commands. |
| ExasolColumn.CreateGenericColumn | src/Column/Exasol/ExasolColumn.php:29-44 | The generic column is VARCHAR, length `2000000`, not nullable, default `''`, with the given name. |
| ExasolColumn.FindFirst | src/Column/Exasol/ExasolColumn.php:93 | An unanchored `preg_match` finds the leftmost match, or reports that no position matches. |
| ExasolColumn.ExtractColumnLength | src/Column/Exasol/ExasolColumn.php:89-104 | A day-to-second interval always gets a length. A year-to-month length, when there is one, is a single digit. |
| ExasolColumn.DaySecondLength | src/Column/Exasol/ExasolColumn.php:92-94 | `INTERVAL DAY(d) TO SECOND(s)` as the first match anywhere in the column type gives the length `d,s`. |
| ExasolColumn.DaySecondWithoutMatch | src/Column/Exasol/ExasolColumn.php:92-94 | Without a match, both groups read as null and the length is `,`. |
| ExasolColumn.YearMonthLength | src/Column/Exasol/ExasolColumn.php:95-97 | `INTERVAL YEAR(d) TO MONTH` as the first match anywhere in the column type gives the length `d`. |
| ExasolColumn.DaySecondVector | src/Column/Exasol/ExasolColumn.php:92-94 | `INTERVAL DAY(2) TO SECOND(3)` gives `2,3`. |
| ExasolColumn.YearMonthVector | src/Column/Exasol/ExasolColumn.php:95-97 | `INTERVAL YEAR(5) TO MONTH` gives `5`. |
| ExasolColumn.NumericLength | src/Column/Exasol/ExasolColumn.php:98-103 | For a non-interval type with a precision or a scale, a length is always produced. It splits at its first comma back into the precision and the scale (null read as empty) whenever the precision holds no comma. |
| ExasolColumn.DaySecondSplits | src/Column/Exasol/ExasolColumn.php:92-94 | A day-to-second length `d,s` splits at its comma back into the two digits. |
| ExasolColumn.CreateFromDB | src/Column/Exasol/ExasolColumn.php:62-76 | It produces a column exactly when the length can be extracted; the definition class's own validation is not modelled. The column keeps name and type and carries the extracted length. It is nullable exactly when `COLUMN_IS_NULLABLE` is `'1'`, and its default is the normalised catalog default. |
| ExasolColumn.CreateFromDBFailsIff | src/Column/Exasol/ExasolColumn.php:62-104 | Length extraction, and so creation in this model, fails exactly for a year-to-month type with no match, or a non-interval type with precision, scale and max size all null. |
| ExasolColumn.NormalizeDefault | src/Column/Exasol/ExasolColumn.php:72 | A string default is trimmed and a null default stays null. |
| ExasolColumn.TrimIsCore | src/Column/Exasol/ExasolColumn.php:72 | `trim` keeps a slice of its input. Only strippable characters (space, tab, LF, CR, NUL, vertical tab) lie outside it, and neither end of it is strippable. |
| ExasolColumn.TrimIdempotent | src/Column/Exasol/ExasolColumn.php:72 | Trimming twice is trimming once. |
| ExasolColumn.DefaultIsTrimmed | src/Column/Exasol/ExasolColumn.php:64-72 | A created column's string default is the trimmed catalog default, which starts and ends with a kept character. |
| ExasolColumn.NoDefaultStaysNull | src/Column/Exasol/ExasolColumn.php:64-72 | A null catalog default stays null. |
| CaseConverter.UpperChar | src/Utils/CaseConverter.php:11 | A lower-case ASCII letter becomes its capital (32 code points lower); every other character is unchanged. |
| CaseConverter.StringToUpper | src/Utils/CaseConverter.php:9-12 | Upper-casing keeps the length, maps each character by itself, and leaves no lower-case letter. |
| CaseConverter.StringToUpperCharacterized | src/Utils/CaseConverter.php:9-12 | The result is the only string without lower-case letters that equals the input up to case. |
| CaseConverter.StringToUpperIdempotent | src/Utils/CaseConverter.php:9-12 | Upper-casing twice is upper-casing once. |
| CaseConverter.StringToUpperEqualIff | src/Utils/CaseConverter.php:9-12 | Two strings upper-case alike exactly when they are equal up to ASCII case. |
| CaseConverter.StringToUpperAppend | src/Utils/CaseConverter.php:9-12 | Upper-casing distributes over concatenation. |
| CaseConverter.ArrayToUpper | src/Utils/CaseConverter.php:18-21 | The array keeps its length, and each element is upper-cased in place. |
| CaseConverter.ArrayToUpperAppend | src/Utils/CaseConverter.php:18-21 | Element order is kept: mapping a concatenation is concatenating the mapped parts. |
| CaseConverter.ArrayToUpperIdempotent | src/Utils/CaseConverter.php:18-21 | Mapping twice is mapping once. |
| CaseConverter.StringToUpperVector | tests/Unit/Utils/CaseConverterTest.php:12-17 | `testMe_man` becomes `TESTME_MAN`. |
| CaseConverter.MixedCaseVector | tests/Unit/Utils/CaseConverterTest.php:19-24 | `CoLuMn_xYZ-0` becomes `COLUMN_XYZ-0`. |
| CaseConverter.UpperCaseVector | tests/Unit/Utils/CaseConverterTest.php:19-24 | `COLUMN_X` is unchanged. |
| CaseConverter.ArrayToUpperVector | tests/Unit/Utils/CaseConverterTest.php:19-24 | The three-element array of the test maps to `TESTME_MAN`, `COLUMN_X`, `COLUMN_XYZ-0`. |
| BigqueryQuote.Quote | tests/Unit/Escaping/BigqueryQuoteTest.php:16-38 | A quoted literal is the value in single quotes, one character longer per quote. Inside, every quote follows a backslash and every backslash precedes a quote, so the literal cannot end early. |
| BigqueryQuote.EscapeWellEscaped | tests/Unit/Escaping/BigqueryQuoteTest.php:22-25 | Escaping a backslash-free value gives a well-escaped interior. |
| BigqueryQuote.EscapeAppend | tests/Unit/Escaping/BigqueryQuoteTest.php:26-29 | Escaping distributes over concatenation, and so does the quote count. |
| BigqueryQuote.UnescapeEscape | tests/Unit/Escaping/BigqueryQuoteTest.php:16-38 | Decoding an escaped value gives the value back. |
| BigqueryQuote.EscapeUnescape | tests/Unit/Escaping/BigqueryQuoteTest.php:16-38 | Every decodable interior is the escape of its decoding. |
| BigqueryQuote.UnquoteQuote | tests/Unit/Escaping/BigqueryQuoteTest.php:16-38 | Round trip: unquoting a quoted value gives the value. |
| BigqueryQuote.QuoteUnquote | tests/Unit/Escaping/BigqueryQuoteTest.php:16-38 | Round trip: every literal that unquotes is the quoting of its value. |
| BigqueryQuote.QuoteInjective | tests/Unit/Escaping/BigqueryQuoteTest.php:16-38 | Distinct values give distinct literals. |
| BigqueryQuote.QuoteIdentifier | tests/Unit/Escaping/BigqueryQuoteTest.php:43-66 | An identifier is the name between backticks, unchanged, with `"` and `\` kept as they are. |
| BigqueryQuote.UnquoteIdentifierQuote | tests/Unit/Escaping/BigqueryQuoteTest.php:43-66 | Round trip: unquoting a quoted identifier gives the name. |
| BigqueryQuote.QuoteIdentifierUnquote | tests/Unit/Escaping/BigqueryQuoteTest.php:43-66 | Round trip: every identifier that unquotes is the quoting of its name. |
| BigqueryQuote.QuoteSimpleVector | tests/Unit/Escaping/BigqueryQuoteTest.php:18-21 | `valueToQuote` becomes `'valueToQuote'`. |
| BigqueryQuote.QuoteEscapingVector | tests/Unit/Escaping/BigqueryQuoteTest.php:22-25 | `value'To'Quote` becomes `'value\'To\'Quote'`. |
| BigqueryQuote.QuoteComplexVector | tests/Unit/Escaping/BigqueryQuoteTest.php:26-29 | `va[l.u]e']To'[Q][uo.t[]e` becomes `'va[l.u]e\']To\'[Q][uo.t[]e'`; brackets and dots are kept. |
| BigqueryQuote.QuoteIdentifierSimpleVector | tests/Unit/Escaping/BigqueryQuoteTest.php:45-48 | `valueToQuote` becomes `` `valueToQuote` ``. |
| BigqueryQuote.QuoteIdentifierDoubleQuoteVector | tests/Unit/Escaping/BigqueryQuoteTest.php:49-52 | `abc"def` becomes `` `abc"def` ``. |
| BigqueryQuote.QuoteIdentifierBackslashVector | tests/Unit/Escaping/BigqueryQuoteTest.php:53-56 | `value\"ToQuote` becomes `` `value\"ToQuote` ``. |

## Left out

- **Connections, drivers and queries.** Connections, drivers, sessions, the
  BigQuery client wrapper and every query execution are not modelled. Query
  results are inputs, and identifier quoting is the parameter `quote`.
- **`getTablesNames` and `getViewsNames`.** They only map query rows to
  names.
- **The tokenizer implementation class.** `ComplexTypeTokenizer` and its
  token classes are not part of this model. The tokenizer is modelled from
  its unit test, which fixes its observable behaviour.
  - Word characters are taken to be ASCII letters, digits and `_`.
  - Blanks are space, tab, CR and LF.
  - The interior of a length is kept verbatim up to the first `)`.
  - The sixth test case has five `<` but only four `>`, and the test expects
    a result. The model therefore lets the end of the input close a nested
    region that is still open.
  - The tokenizer's error messages and offsets are reduced to one
    `MalformedType` error.
- **`SnowflakeColumn::createFromDB`.** It is not part of this model. A
  Snowflake definition carries each column row as it is handed to that
  constructor, with `null?` already normalised.
- **SnowflakeSchemaReflection.GetDefinitions: PHP array keys.** The result
  array is keyed by table name in insertion order, and the model returns the
  sequence of its values, each carrying its name. PHP turns a numeric table
  name such as `123` into an integer key at line 138 of
  `SnowflakeSchemaReflection.php`. That is not modelled, so such a name keeps
  its string form. Under `strict_types=1` the integer key handed to
  `SnowflakeTableDefinition` as its string table name (lines 194-196) is
  expected to raise a TypeError, which the model does not report either.
- SnowflakeSchemaReflection.GetDefinitionsOkIff: its "success exactly when"
  covers only table types and table membership. Two further failures of the
  PHP code are not modelled: a throw from `SnowflakeColumn::createFromDB`
  (line 178), whose definition class validates each column row, and the
  TypeError for a numeric table name described above.
- SnowflakeSchemaReflection.GetDefinitionsErrorOrder: "the first offending
  row" means the first row with an unknown type or an unlisted table. A
  `createFromDB` throw at an earlier column row would come first in PHP, and
  a numeric table name would fail after all three loops; neither is modelled.
- SnowflakeSchemaReflection.GroupOkIff: the column loop "succeeds exactly
  when every row names a listed table" only because the conversion by
  `SnowflakeColumn::createFromDB` is taken to succeed; its throws are not
  modelled.
- **Catalog columns the definitions never read.** `BYTES` and `ROW_COUNT`
  are not modelled.
- **The `Exasol` and `Synapse` definition classes** (keboola/php-datatypes).
  They are not part of this model. A column's SQL definition is carried as a
  string, and the Exasol type-name constants are Exasol's own type names.
  The value of `ColumnInterface::TIMESTAMP_COLUMN_NAME` is the parameter
  `timestampColumn`.
- ExasolColumn.DaySecondWithoutMatch: without a match, PHP reads the two
  missing named groups as null, with an "undefined array key" warning. The
  model gives the length `,` and does not model the warning.
- ExasolColumn.CreateFromDB: `new Exasol(...)` at lines 67-74 of
  `ExasolColumn.php` validates the type and the length it is given, and it
  can throw. Two examples are an unknown `TYPE_NAME` and the `,` length of a
  day-to-second type without a match. That constructor is not part of this
  model, so its failures are not modelled. An `Ok` result, and the "fails
  exactly" of `ExasolColumn.CreateFromDBFailsIff`, speak only of length
  extraction.
- SynapseTableQueryBuilder.DropTableCommandEqualIff: the platform's
  `quoteSingleIdentifier` is not part of this model. The three
  table-command equality lemmas assume only that a quoted name followed by
  `.` or a blank can be read back. `BracketQuoteDelimits` shows that SQL
  Server's bracket quoting meets that assumption. The same holds for
  `TruncateTableCommandEqualIff` and `RenameTableCommandEqualIff`.
- BigqueryQuote.Quote: the `BigqueryQuote` class is not part of this model.
  Its test only covers values without a backslash, so the contract is stated
  for that domain only. How a backslash in a value is escaped is not claimed.
- BigqueryQuote.QuoteIdentifier: for the same reason, the contract is stated
  only for names without a backtick. How a backtick inside an identifier is
  escaped is not claimed.
- CaseConverter.StringToUpper: upper-cases ASCII letters only, as
  `strtoupper` does from PHP 8.2 on, where it no longer depends on the
  locale. Under PHP 8.0 or 8.1 with a non-C `LC_CTYPE` set through
  `setlocale()`, bytes outside ASCII may also be converted; that is not
  modelled.
  Characters are code points rather than bytes, so multi-byte characters
  are unaffected, as they are in PHP.
