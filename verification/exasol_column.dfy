/**
  `ExasolColumn`: building a column from a row of Exasol's column catalog, and
  the generic column used for untyped imports.

  The `Exasol` definition class is not part of this model: a definition here
  only records what is handed to its constructor. Its type-name constants are
  the names Exasol itself uses for those types.
*/
module ExasolColumn {
  import opened Results

  const TypeVarchar := "VARCHAR"
  const TypeIntervalDayToSecond := "INTERVAL DAY TO SECOND"
  const TypeIntervalYearToMonth := "INTERVAL YEAR TO MONTH"

  /** The options given to the `Exasol` definition: `length`, `nullable`, `default`. */
  datatype Definition = Definition(typeName: string, length: string, nullable: bool, default: Option<string>)

  datatype Column = Column(columnName: string, definition: Definition)

  /** The catalog row `createFromDB` reads; nullable catalog fields are options. */
  datatype CatalogRow = CatalogRow(
    columnName: string,
    typeName: string,
    columnType: string,
    numPrecision: Option<string>,
    numScale: Option<string>,
    maxSize: Option<string>,
    isNullable: string,
    columnDefault: Option<string>)

  /** `extractColumnLength` returned null although it is declared to return a string: PHP raises a `TypeError`. */
  datatype ColumnError = LengthIsNull

  /** `ExasolColumn::createGenericColumn` */
  function CreateGenericColumn(columnName: string): (r: Column)
    ensures r.columnName == columnName
    ensures r.definition == Definition(TypeVarchar, "2000000", false, Some("''"))
  {
    Column(columnName, Definition(TypeVarchar, "2000000", false, Some("''")))
  }

  /* ---------------------------------------------------------------------- */
  /* Pattern search                                                         */
  /* ---------------------------------------------------------------------- */

  predicate IsDigit(c: char) {
    '0' <= c <= '9'
  }

  /** `INTERVAL DAY\((\d)\) TO SECOND\((\d)\)` anchored at the start of `s`: the two digits. */
  function DaySecondAt(s: string): Option<(char, char)> {
    if |s| >= 28 && s[..13] == "INTERVAL DAY(" && IsDigit(s[13]) && s[14..26] == ") TO SECOND("
       && IsDigit(s[26]) && s[27] == ')'
    then Some((s[13], s[26]))
    else None
  }

  /** `INTERVAL YEAR\((\d)\) TO MONTH` anchored at the start of `s`: the digit. */
  function YearMonthAt(s: string): Option<char> {
    if |s| >= 25 && s[..14] == "INTERVAL YEAR(" && IsDigit(s[14]) && s[15..25] == ") TO MONTH"
    then Some(s[14])
    else None
  }

  /** An unanchored `preg_match`: the match that starts leftmost in `s`, if any. */
  function FindFirst<T>(s: string, at: string -> Option<T>): (r: Option<T>)
    decreases |s|
    ensures r.Some? ==> exists i :: 0 <= i <= |s| && at(s[i..]) == r && forall j :: 0 <= j < i ==> at(s[j..]).None?
    ensures r.None? ==> forall i :: 0 <= i <= |s| ==> at(s[i..]).None?
  {
    if at(s).Some? then
      assert s[0..] == s;
      at(s)
    else if s == [] then
      None
    else
      var r := FindFirst(s[1..], at);
      assert forall i :: 1 <= i <= |s| ==> s[1..][i - 1..] == s[i..];
      assert s[0..] == s;
      r
  }

  /* ---------------------------------------------------------------------- */
  /* PHP trim                                                               */
  /* ---------------------------------------------------------------------- */

  /** The characters PHP's `trim` strips by default: space, tab, LF, CR, NUL and vertical tab. */
  predicate IsTrimmed(c: char) {
    c == ' ' || c == '\t' || c == '\n' || c == '\r' || c == '\0' || c as int == 11
  }

  predicate AllTrimmed(s: string) {
    forall i :: 0 <= i < |s| ==> IsTrimmed(s[i])
  }

  lemma PrefixAfterHead(s: string, k: nat)
    requires k < |s|
    ensures s[..k + 1] == [s[0]] + s[1..][..k]
  {
  }

  lemma SuffixBeforeLast(s: string, k: nat)
    requires k < |s|
    ensures s[k..] == s[..|s| - 1][k..] + [s[|s| - 1]]
  {
  }

  function TrimStart(s: string): (r: string)
    ensures |r| <= |s| && r == s[|s| - |r|..]
    ensures AllTrimmed(s[..|s| - |r|])
    ensures r == [] || !IsTrimmed(r[0])
  {
    if s != [] && IsTrimmed(s[0]) then
      var r := TrimStart(s[1..]);
      PrefixAfterHead(s, |s| - 1 - |r|);
      r
    else
      s
  }

  function TrimEnd(s: string): (r: string)
    ensures |r| <= |s| && r == s[..|r|]
    ensures AllTrimmed(s[|r|..])
    ensures r == [] || !IsTrimmed(r[|r| - 1])
  {
    if s != [] && IsTrimmed(s[|s| - 1]) then
      var r := TrimEnd(s[..|s| - 1]);
      SuffixBeforeLast(s, |r|);
      r
    else
      s
  }

  /** PHP's `trim`. */
  function Trim(s: string): string {
    TrimEnd(TrimStart(s))
  }

  /** `r` is `s[i..j]`, and only strippable characters lie outside it. */
  predicate CutAt(s: string, r: string, i: int, j: int) {
    0 <= i <= j <= |s| && r == s[i..j] && AllTrimmed(s[..i]) && AllTrimmed(s[j..])
  }

  lemma SliceOfSuffix(s: string, i: nat, j: nat)
    requires i <= j <= |s|
    ensures s[i..][..j - i] == s[i..j]
    ensures s[i..][j - i..] == s[j..]
  {
  }

  /** What `trim` keeps is a slice of the input, cut where only strippable characters lie outside and none at its ends. */
  lemma TrimIsCore(s: string)
    ensures exists i, j :: CutAt(s, Trim(s), i, j)
    ensures var r := Trim(s); r == [] || (!IsTrimmed(r[0]) && !IsTrimmed(r[|r| - 1]))
  {
    var t := TrimStart(s);
    var r := TrimEnd(t);
    var i := |s| - |t|;
    var j := i + |r|;
    assert t == s[i..];
    assert r == t[..|r|] && AllTrimmed(t[|r|..]);
    SliceOfSuffix(s, i, j);
    assert r == s[i..j];
    assert t[|r|..] == s[j..];
    assert AllTrimmed(s[..i]);
    assert r == Trim(s);
    assert CutAt(s, Trim(s), i, j);
    if r != [] {
      assert r[0] == t[0];
    }
  }

  /** Trimming a trimmed string changes nothing. */
  lemma TrimIdempotent(s: string)
    ensures Trim(Trim(s)) == Trim(s)
  {
    var r := Trim(s);
    if r != [] {
      TrimIsCore(s);
      assert TrimStart(r) == r;
      assert TrimEnd(r) == r;
    }
  }

  /* ---------------------------------------------------------------------- */
  /* createFromDB                                                           */
  /* ---------------------------------------------------------------------- */

  /** PHP string interpolation of a nullable value: null is the empty string. */
  function Interpolate(v: Option<string>): (r: string)
    ensures v.Some? ==> r == v.value
    ensures v.None? ==> r == []
  {
    match v
    case Some(x) => x
    case None => []
  }

  /** `extractColumnLength` */
  function ExtractColumnLength(row: CatalogRow): (r: Result<string, ColumnError>)
    ensures row.typeName == TypeIntervalDayToSecond ==> r.Ok?
    ensures r.Ok? && row.typeName == TypeIntervalYearToMonth ==> |r.value| == 1 && IsDigit(r.value[0])
  {
    if row.typeName == TypeIntervalDayToSecond then
      // Without a match both named groups are missing and read as null.
      match FindFirst(row.columnType, DaySecondAt)
      case Some(digits) => Ok([digits.0] + "," + [digits.1])
      case None => Ok(",")
    else if row.typeName == TypeIntervalYearToMonth then
      match FindFirst(row.columnType, YearMonthAt)
      case Some(years) => Ok([years])
      case None => Err(LengthIsNull)
    else if row.numPrecision.None? && row.numScale.None? then
      match row.maxSize
      case Some(m) => Ok(m)
      case None => Err(LengthIsNull)
    else
      Ok(Interpolate(row.numPrecision) + "," + Interpolate(row.numScale))
  }

  /** `is_string($default) ? trim($default) : $default` */
  function NormalizeDefault(d: Option<string>): (r: Option<string>)
    ensures r.Some? <==> d.Some?
    ensures d.Some? ==> r.value == Trim(d.value)
  {
    match d
    case Some(s) => Some(Trim(s))
    case None => None
  }

  /** `ExasolColumn::createFromDB` */
  function CreateFromDB(row: CatalogRow): (r: Result<Column, ColumnError>)
    ensures r.Ok? <==> ExtractColumnLength(row).Ok?
    ensures r.Ok? ==> r.value.columnName == row.columnName && r.value.definition.typeName == row.typeName
    ensures r.Ok? ==> r.value.definition.length == ExtractColumnLength(row).value
    ensures r.Ok? ==> (r.value.definition.nullable <==> row.isNullable == "1")
    ensures r.Ok? ==> r.value.definition.default == NormalizeDefault(row.columnDefault)
  {
    var length :- ExtractColumnLength(row);
    Ok(Column(row.columnName, Definition(row.typeName, length, row.isNullable == "1", NormalizeDefault(row.columnDefault))))
  }

  /* ---------------------------------------------------------------------- */
  /* Properties                                                             */
  /* ---------------------------------------------------------------------- */

  predicate IsInterval(typeName: string) {
    typeName == TypeIntervalDayToSecond || typeName == TypeIntervalYearToMonth
  }

  /** The text before the first comma of a length and the text after it; None without a comma. */
  function SplitAtComma(l: string): (r: Option<(string, string)>)
    ensures r.None? <==> ',' !in l
    ensures r.Some? ==> l == r.value.0 + "," + r.value.1 && ',' !in r.value.0
  {
    if l == [] then None
    else if l[0] == ',' then
      CommaFirst(l);
      Some(([], l[1..]))
    else
      HeadNotComma(l);
      match SplitAtComma(l[1..])
      case None => None
      case Some(p) =>
        ConsSplit(l, p.0, p.1);
        Some(([l[0]] + p.0, p.1))
  }

  lemma CommaFirst(l: string)
    requires l != [] && l[0] == ','
    ensures l == [] + "," + l[1..]
  {
  }

  lemma HeadNotComma(l: string)
    requires l != [] && l[0] != ','
    ensures ',' in l <==> ',' in l[1..]
  {
    assert l == [l[0]] + l[1..];
  }

  lemma ConsSplit(l: string, x: string, y: string)
    requires l != [] && l[0] != ','
    requires l[1..] == x + "," + y && ',' !in x
    ensures l == [l[0]] + x + "," + y && ',' !in [l[0]] + x
  {
    assert l == [l[0]] + l[1..];
  }

  /** Splitting at the first comma undoes joining with a comma, when the first part has none. */
  lemma {:induction false} SplitJoined(a: string, b: string)
    requires ',' !in a
    ensures SplitAtComma(a + "," + b) == Some((a, b))
  {
    var l := a + "," + b;
    if a != [] {
      SplitJoined(a[1..], b);
      assert l[1..] == a[1..] + "," + b;
      assert [a[0]] + a[1..] == a;
    } else {
      assert l[1..] == b;
    }
  }

  /**
    For a column that is neither interval type and has a precision or a
    scale, the length splits at its first comma back into the two values
    (a null read as empty), provided the precision holds no comma.
  */
  lemma NumericLength(row: CatalogRow)
    requires !IsInterval(row.typeName)
    requires row.numPrecision.Some? || row.numScale.Some?
    requires ',' !in Interpolate(row.numPrecision)
    ensures ExtractColumnLength(row).Ok?
    ensures SplitAtComma(ExtractColumnLength(row).value) == Some((Interpolate(row.numPrecision), Interpolate(row.numScale)))
  {
    SplitJoined(Interpolate(row.numPrecision), Interpolate(row.numScale));
  }

  /** An interval's length `d,s` splits back into its two digits. */
  lemma DaySecondSplits(d: char, s: char)
    requires IsDigit(d) && IsDigit(s)
    ensures SplitAtComma([d] + "," + [s]) == Some(([d], [s]))
  {
    SplitJoined([d], [s]);
  }

  /** Building a column fails exactly when the length would be null. */
  lemma CreateFromDBFailsIff(row: CatalogRow)
    ensures CreateFromDB(row).Err? <==>
      (row.typeName == TypeIntervalYearToMonth && FindFirst(row.columnType, YearMonthAt).None?)
      || (!IsInterval(row.typeName) && row.numPrecision.None? && row.numScale.None? && row.maxSize.None?)
  {
  }

  /** The default is trimmed into a slice that starts and ends with a kept character, or dropped to the empty string. */
  lemma DefaultIsTrimmed(row: CatalogRow)
    requires CreateFromDB(row).Ok?
    requires row.columnDefault.Some?
    ensures var d := CreateFromDB(row).value.definition.default;
      d.Some? && d.value == Trim(row.columnDefault.value)
      && (d.value == [] || (!IsTrimmed(d.value[0]) && !IsTrimmed(d.value[|d.value| - 1])))
  {
    TrimIsCore(row.columnDefault.value);
  }

  lemma NoDefaultStaysNull(row: CatalogRow)
    requires CreateFromDB(row).Ok?
    requires row.columnDefault.None?
    ensures CreateFromDB(row).value.definition.default.None?
  {
  }

  /** `INTERVAL DAY(d) TO SECOND(s)` in the column type, with no earlier match, gives the length `d,s`. */
  lemma DaySecondLength(prefix: string, d: char, s: char, suffix: string, row: CatalogRow)
    requires IsDigit(d) && IsDigit(s)
    requires row.typeName == TypeIntervalDayToSecond
    requires row.columnType == prefix + "INTERVAL DAY(" + [d] + ") TO SECOND(" + [s] + ")" + suffix
    requires forall j :: 0 <= j < |prefix| ==> DaySecondAt(row.columnType[j..]).None?
    ensures ExtractColumnLength(row) == Ok([d] + "," + [s])
  {
    var m := row.columnType[|prefix|..];
    assert m == "INTERVAL DAY(" + [d] + ") TO SECOND(" + [s] + ")" + suffix;
    assert m[..13] == "INTERVAL DAY(";
    assert m[14..26] == ") TO SECOND(";
    assert DaySecondAt(m) == Some((d, s));
  }

  /** `INTERVAL YEAR(d) TO MONTH` in the column type, with no earlier match, gives the length `d`. */
  lemma YearMonthLength(prefix: string, d: char, suffix: string, row: CatalogRow)
    requires IsDigit(d)
    requires row.typeName == TypeIntervalYearToMonth
    requires row.columnType == prefix + "INTERVAL YEAR(" + [d] + ") TO MONTH" + suffix
    requires forall j :: 0 <= j < |prefix| ==> YearMonthAt(row.columnType[j..]).None?
    ensures ExtractColumnLength(row) == Ok([d])
  {
    var m := row.columnType[|prefix|..];
    assert m == "INTERVAL YEAR(" + [d] + ") TO MONTH" + suffix;
    assert m[..14] == "INTERVAL YEAR(";
    assert m[15..25] == ") TO MONTH";
    assert YearMonthAt(m) == Some(d);
  }

  /** A column typed `INTERVAL DAY(2) TO SECOND(3)` has length `2,3`. */
  lemma DaySecondVector(row: CatalogRow)
    requires row.typeName == TypeIntervalDayToSecond
    requires row.columnType == "INTERVAL DAY(" + "2" + ") TO SECOND(" + "3" + ")"
    ensures ExtractColumnLength(row) == Ok("2,3")
  {
    DaySecondVectorSpelling();
    DaySecondLength([], '2', '3', [], row);
  }

  lemma DaySecondVectorSpelling()
    ensures "INTERVAL DAY(" + "2" + ") TO SECOND(" + "3" + ")" == [] + "INTERVAL DAY(" + ['2'] + ") TO SECOND(" + ['3'] + ")" + []
    ensures ['2'] + "," + ['3'] == "2,3"
  {
  }

  /** A column typed `INTERVAL YEAR(5) TO MONTH` has length `5`. */
  lemma YearMonthVector(row: CatalogRow)
    requires row.typeName == TypeIntervalYearToMonth
    requires row.columnType == "INTERVAL YEAR(" + "5" + ") TO MONTH"
    ensures ExtractColumnLength(row) == Ok("5")
  {
    YearMonthVectorSpelling();
    YearMonthLength([], '5', [], row);
  }

  lemma YearMonthVectorSpelling()
    ensures "INTERVAL YEAR(" + "5" + ") TO MONTH" == [] + "INTERVAL YEAR(" + ['5'] + ") TO MONTH" + []
  {
  }

  /** Without the pattern, a day-to-second column reads two missing groups and gets the length `,`. */
  lemma DaySecondWithoutMatch(row: CatalogRow)
    requires row.typeName == TypeIntervalDayToSecond
    requires forall i :: 0 <= i <= |row.columnType| ==> DaySecondAt(row.columnType[i..]).None?
    ensures ExtractColumnLength(row) == Ok(",")
  {
  }
}
