/**
  The BigQuery complex-type tokenizer: it turns a catalog type string such as
  `ARRAY<STRUCT<x NUMERIC(10,10), y ARRAY<NUMERIC(10,10)>>>` into a token tree.

  Leaf tokens carry a kind and the exact lexeme; a nested token carries the
  tokens of an `<...>` region and no lexeme. A region is a list of field
  definitions `[NAME] TYPE [LENGTH | NESTED]` separated by `,` delimiters.

  The parser works on the unconsumed rest of the input: every parsing function
  returns what it produced together with the remaining suffix, so the resume
  offset of a region is `|input| - |remaining|`.
*/
module ComplexTypeTokenizer {
  import opened Results

  datatype Kind = Name | Type | Length | FieldDelimiter

  datatype Token = Leaf(kind: Kind, lexeme: string) | Nested(children: seq<Token>)

  datatype TokenizeError = MalformedType

  /* ---------------------------------------------------------------------- */
  /* Scanner                                                                */
  /* ---------------------------------------------------------------------- */

  predicate IsSpace(c: char) {
    c == ' ' || c == '\t' || c == '\n' || c == '\r'
  }

  /** Characters of identifiers and type keywords. */
  predicate IsWordChar(c: char) {
    ('a' <= c <= 'z') || ('A' <= c <= 'Z') || ('0' <= c <= '9') || c == '_'
  }

  predicate AllWordChars(s: string) {
    s == [] || (IsWordChar(s[0]) && AllWordChars(s[1..]))
  }

  predicate IsWord(w: string) {
    |w| > 0 && AllWordChars(w)
  }

  predicate AllSpaces(s: string) {
    s == [] || (IsSpace(s[0]) && AllSpaces(s[1..]))
  }

  predicate HasNoCloser(s: string) {
    s == [] || (s[0] != ')' && HasNoCloser(s[1..]))
  }

  predicate IsSuffixOf(r: string, s: string) {
    |r| <= |s| && r == s[|s| - |r|..]
  }

  /** Drops the longest prefix of whitespace. */
  function SkipSpaces(s: string): (r: string)
    ensures |r| <= |s|
    ensures r == [] || !IsSpace(r[0])
  {
    if s != [] && IsSpace(s[0]) then SkipSpaces(s[1..]) else s
  }

  /** Splits off the longest prefix of word characters. */
  function ReadWord(s: string): (r: (string, string))
    ensures |r.0| + |r.1| == |s|
    ensures AllWordChars(r.0)
    ensures r.1 == [] || !IsWordChar(r.1[0])
  {
    if s != [] && IsWordChar(s[0]) then
      var (w, rest) := ReadWord(s[1..]);
      ([s[0]] + w, rest)
    else
      ([], s)
  }

  /** Splits `s` at its first `)`: the verbatim interior of a length region and what follows the closer. */
  function ReadUntilCloser(s: string): (r: Option<(string, string)>)
    ensures r.Some? ==> |r.value.1| < |s| && HasNoCloser(r.value.0)
    ensures r.None? ==> HasNoCloser(s)
  {
    if s == [] then None
    else if s[0] == ')' then Some(([], s[1..]))
    else
      match ReadUntilCloser(s[1..])
      case None => None
      case Some((interior, rest)) => Some(([s[0]] + interior, rest))
  }

  /* ---------------------------------------------------------------------- */
  /* Recursive tree builder                                                 */
  /* ---------------------------------------------------------------------- */

  /**
    The head of a field definition, read from input that starts after the
    leading whitespace: an optional NAME and its TYPE. A first word followed
    (after whitespace) by a second word is the name and the second word is the
    type; a lone word is the type. None when no word starts the field.
  */
  function ReadHead(t: string): (r: Option<(seq<Token>, string)>)
    ensures r.Some? ==> |r.value.1| < |t|
    ensures r.Some? ==> IsHead(r.value.0)
    ensures r.None? <==> t == [] || !IsWordChar(t[0])
  {
    var (first, afterFirst) := ReadWord(t);
    if first == [] then None
    else
      var gap := SkipSpaces(afterFirst);
      if gap != [] && IsWordChar(gap[0]) then
        var (second, afterSecond) := ReadWord(gap);
        Some(([Leaf(Name, first), Leaf(Type, second)], afterSecond))
      else
        Some(([Leaf(Type, first)], afterFirst))
  }

  /** One field definition: its head, then at most one of a parenthesised length or an angle-bracketed nested region. */
  function ParseField(s: string): (r: Result<(seq<Token>, string), TokenizeError>)
    decreases |s|, 0
    ensures r.Ok? ==> |r.value.1| < |s|
  {
    match ReadHead(SkipSpaces(s))
    case None => Err(MalformedType)
    case Some((head, afterType)) => ParseArgument(head, SkipSpaces(afterType))
  }

  /**
    What follows a TYPE: `(` opens a length region, `<` a nested region,
    anything else ends the field. A nested region ends at its `>` or, when
    none is left, at the end of the input.
  */
  function ParseArgument(head: seq<Token>, u: string): (r: Result<(seq<Token>, string), TokenizeError>)
    decreases |u|, 2
    ensures r.Ok? ==> |r.value.1| <= |u|
  {
    if u != [] && u[0] == '(' then
      match ReadUntilCloser(u[1..])
      case None => Err(MalformedType)
      case Some((interior, rest)) => Ok((head + [Leaf(Length, interior)], rest))
    else if u != [] && u[0] == '<' then
      var inner :- ParseFields(u[1..]);
      var (children, rest) := inner;
      // The loop stopped at `>` or at the end of the input; the end of the
      // input closes a region that is still open.
      if rest == [] then Ok((head + [Nested(children)], rest))
      else Ok((head + [Nested(children)], rest[1..]))
    else
      Ok((head, u))
  }

  /**
    The field-definition loop of one region. It stops, without consuming it,
    at the `>` that closes the region or at the end of the input.
  */
  function ParseFields(s: string): (r: Result<(seq<Token>, string), TokenizeError>)
    decreases |s|, 1
    ensures r.Ok? ==> |r.value.1| < |s|
    ensures r.Ok? ==> r.value.1 == [] || r.value.1[0] == '>'
  {
    var field :- ParseField(s);
    var (tokens, afterField) := field;
    var u := SkipSpaces(afterField);
    if u != [] && u[0] == ',' then
      var more :- ParseFields(u[1..]);
      Ok((tokens + [Leaf(FieldDelimiter, ",")] + more.0, more.1))
    else if u == [] || u[0] == '>' then
      Ok((tokens, u))
    else
      Err(MalformedType)
  }

  /** `ComplexTypeTokenizer::tokenize`: the whole input is one region. */
  function Tokenize(s: string): Result<seq<Token>, TokenizeError> {
    var region :- ParseFields(s);
    if region.1 == [] then Ok(region.0) else Err(MalformedType)
  }

  /* ---------------------------------------------------------------------- */
  /* Reference grammar and canonical rendering                              */
  /* ---------------------------------------------------------------------- */

  predicate IsKind(t: Token, k: Kind) {
    t.Leaf? && t.kind == k
  }

  /** Tokens that may begin a field definition. */
  predicate Opens(t: Token) {
    IsKind(t, Name) || IsKind(t, Type)
  }

  /** Tokens that may end a field definition. */
  predicate Closes(t: Token) {
    IsKind(t, Type) || IsKind(t, Length) || t.Nested?
  }

  /**
    Which token may directly follow which inside one region. Together with
    `Opens` and `Closes` this is exactly the regular language
    `field (DELIMITER field)*` with `field = [NAME] TYPE [LENGTH | NESTED]`.
  */
  predicate MayFollow(a: Token, b: Token) {
    match a
    case Nested(_) => IsKind(b, FieldDelimiter)
    case Leaf(Name, _) => IsKind(b, Type)
    case Leaf(Type, _) => IsKind(b, Length) || b.Nested? || IsKind(b, FieldDelimiter)
    case Leaf(Length, _) => IsKind(b, FieldDelimiter)
    case Leaf(FieldDelimiter, _) => Opens(b)
  }

  predicate LexemeOk(t: Token) {
    match t
    case Nested(_) => true
    case Leaf(Name, w) => IsWord(w)
    case Leaf(Type, w) => IsWord(w)
    case Leaf(Length, l) => HasNoCloser(l)
    case Leaf(FieldDelimiter, d) => d == ","
  }

  /** A field head: a TYPE word, possibly preceded by a NAME word. */
  predicate IsHead(head: seq<Token>) {
    || (|head| == 1 && IsKind(head[0], Type) && IsWord(head[0].lexeme))
    || (&& |head| == 2
        && IsKind(head[0], Name) && IsWord(head[0].lexeme)
        && IsKind(head[1], Type) && IsWord(head[1].lexeme))
  }

  /** Each token may follow the one before it. */
  predicate Adjacent(ts: seq<Token>) {
    forall i, j :: 0 <= i < |ts| && 0 <= j < |ts| && j == i + 1 ==> MayFollow(ts[i], ts[j])
  }

  predicate LexemesOk(ts: seq<Token>) {
    forall i :: 0 <= i < |ts| ==> LexemeOk(ts[i])
  }

  /** A non-empty, well-formed region whose nested regions are well-formed too. */
  predicate WellFormed(ts: seq<Token>)
    decreases ts, 1
  {
    && |ts| > 0
    && Opens(ts[0])
    && Closes(ts[|ts| - 1])
    && Adjacent(ts)
    && LexemesOk(ts)
    && NestedWellFormed(ts)
  }

  predicate NestedWellFormed(ts: seq<Token>)
    decreases ts, 0
  {
    forall i :: 0 <= i < |ts| ==> ts[i].Nested? ==> WellFormed(ts[i].children)
  }

  /** The canonical spelling of a token: a name is followed by one space, a delimiter by none. */
  function RenderToken(t: Token): string
    decreases t
  {
    match t
    case Leaf(Name, w) => w + " "
    case Leaf(Type, w) => w
    case Leaf(Length, l) => "(" + l + ")"
    case Leaf(FieldDelimiter, d) => d
    case Nested(children) => "<" + Render(children) + ">"
  }

  function Render(ts: seq<Token>): string
    decreases ts
  {
    if ts == [] then [] else RenderToken(ts[0]) + Render(ts[1..])
  }

  /** Number of tokens of kind `k` directly in the region (not inside nested regions). */
  function Count(ts: seq<Token>, k: Kind): nat {
    if ts == [] then 0
    else Count(ts[..|ts| - 1], k) + (if IsKind(ts[|ts| - 1], k) then 1 else 0)
  }

  /** Length of the first field definition of a well-formed region. */
  function FirstFieldLength(ts: seq<Token>): (n: nat)
    requires WellFormed(ts)
    ensures 0 < n <= |ts|
  {
    var h := if IsKind(ts[0], Name) then 2 else 1;
    if h < |ts| && (IsKind(ts[h], Length) || ts[h].Nested?) then h + 1 else h
  }


  /* ---------------------------------------------------------------------- */
  /* Scanner lemmas                                                         */
  /* ---------------------------------------------------------------------- */

  lemma {:induction false} SkipSpacesOf(sp: string, y: string)
    requires AllSpaces(sp)
    requires y == [] || !IsSpace(y[0])
    ensures SkipSpaces(sp + y) == y
  {
    if sp == [] {
      assert sp + y == y;
    } else {
      assert (sp + y)[1..] == sp[1..] + y;
      SkipSpacesOf(sp[1..], y);
    }
  }

  lemma {:induction false} ReadWordOf(w: string, y: string)
    requires AllWordChars(w)
    requires y == [] || !IsWordChar(y[0])
    ensures ReadWord(w + y) == (w, y)
  {
    if w == [] {
      assert w + y == y;
    } else {
      assert (w + y)[1..] == w[1..] + y;
      ReadWordOf(w[1..], y);
      assert [w[0]] + w[1..] == w;
    }
  }

  lemma {:induction false} ReadUntilCloserOf(l: string, y: string)
    requires HasNoCloser(l)
    ensures ReadUntilCloser(l + ")" + y) == Some((l, y))
  {
    if l == [] {
      assert l + ")" + y == [')'] + y;
    } else {
      assert (l + ")" + y)[1..] == l[1..] + ")" + y;
      ReadUntilCloserOf(l[1..], y);
      assert [l[0]] + l[1..] == l;
    }
  }

  /** A word starts with no whitespace, so skipping whitespace leaves it in place. */
  lemma NoSpacesBefore(s: string)
    requires s == [] || !IsSpace(s[0])
    ensures SkipSpaces(s) == s
  {
    SkipSpacesOf([], s);
    assert [] + s == s;
  }

  /* ---------------------------------------------------------------------- */
  /* Field-level behaviour                                                  */
  /* ---------------------------------------------------------------------- */

  lemma HeadOfType(w: string, y: string)
    requires IsWord(w)
    requires y == [] || (!IsSpace(y[0]) && !IsWordChar(y[0]))
    ensures SkipSpaces(w + y) == w + y
    ensures ReadHead(w + y) == Some(([Leaf(Type, w)], y))
  {
    NoSpacesBefore(w + y);
    ReadWordOf(w, y);
    NoSpacesBefore(y);
  }

  lemma HeadOfNamed(n: string, sp: string, w: string, y: string)
    requires IsWord(n) && IsWord(w)
    requires |sp| > 0 && AllSpaces(sp)
    requires y == [] || !IsWordChar(y[0])
    ensures SkipSpaces(n + sp + w + y) == n + sp + w + y
    ensures ReadHead(n + sp + w + y) == Some(([Leaf(Name, n), Leaf(Type, w)], y))
  {
    RegroupNamedHead(n, sp, w, y);
    NamedHeadParts(n, sp, w + y, w, y);
  }

  lemma RegroupNamedHead(n: string, sp: string, w: string, y: string)
    ensures n + sp + w + y == n + (sp + (w + y))
  {
  }

  lemma NamedHeadParts(n: string, sp: string, second: string, w: string, y: string)
    requires IsWord(n) && IsWord(w)
    requires |sp| > 0 && AllSpaces(sp)
    requires y == [] || !IsWordChar(y[0])
    requires second == w + y
    ensures SkipSpaces(n + (sp + second)) == n + (sp + second)
    ensures ReadHead(n + (sp + second)) == Some(([Leaf(Name, n), Leaf(Type, w)], y))
  {
    var rest := sp + second;
    assert (n + rest)[0] == n[0];
    NoSpacesBefore(n + rest);
    assert rest[0] == sp[0];
    ReadWordOf(n, rest);
    assert second[0] == w[0];
    SkipSpacesOf(sp, second);
    ReadWordOf(w, y);
    NamedHead(n + rest, n, rest, w, y);
  }

  /** ReadHead on input whose first word is followed, after whitespace, by a second word. */
  lemma NamedHead(t: string, first: string, afterFirst: string, second: string, afterSecond: string)
    requires ReadWord(t) == (first, afterFirst) && first != []
    requires SkipSpaces(afterFirst) != [] && IsWordChar(SkipSpaces(afterFirst)[0])
    requires ReadWord(SkipSpaces(afterFirst)) == (second, afterSecond)
    ensures ReadHead(t) == Some(([Leaf(Name, first), Leaf(Type, second)], afterSecond))
  {
  }

  lemma FieldFromHead(s: string, head: seq<Token>, afterType: string)
    requires ReadHead(SkipSpaces(s)) == Some((head, afterType))
    ensures ParseField(s) == ParseArgument(head, SkipSpaces(afterType))
  {
  }

  lemma ArgumentLength(head: seq<Token>, l: string, after: string)
    requires HasNoCloser(l)
    ensures ParseArgument(head, "(" + l + ")" + after) == Ok((head + [Leaf(Length, l)], after))
  {
    var u := "(" + l + ")" + after;
    assert u[1..] == l + ")" + after;
    assert u != [] && u[0] == '(';
    ReadUntilCloserOf(l, after);
    assert ReadUntilCloser(u[1..]) == Some((l, after));
  }

  lemma ArgumentNested(head: seq<Token>, body: string, children: seq<Token>, after: string)
    requires ParseFields(body) == Ok((children, ">" + after))
    ensures ParseArgument(head, "<" + body) == Ok((head + [Nested(children)], after))
  {
    var u := "<" + body;
    assert u[1..] == body;
    assert u != [] && u[0] == '<';
    assert ParseFields(u[1..]) == Ok((children, ">" + after));
    assert (">" + after)[1..] == after;
  }

  /** A type word not followed by `(` or `<` yields exactly one TYPE token and nothing after it. */
  lemma PlainTypeField(w: string, after: string)
    requires IsWord(w)
    requires after == [] || (!IsSpace(after[0]) && !IsWordChar(after[0]) && after[0] != '(' && after[0] != '<')
    ensures ParseField(w + after) == Ok(([Leaf(Type, w)], after))
  {
    HeadOfType(w, after);
    NoSpacesBefore(after);
    FieldFromHead(w + after, [Leaf(Type, w)], after);
  }

  /** A type word followed by `(...)` yields TYPE then one LENGTH whose lexeme is the verbatim interior, commas included. */
  lemma LengthField(w: string, l: string, after: string)
    requires IsWord(w)
    requires HasNoCloser(l)
    ensures ParseField(w + "(" + l + ")" + after) == Ok(([Leaf(Type, w), Leaf(Length, l)], after))
  {
    var y := "(" + l + ")" + after;
    assert w + "(" + l + ")" + after == w + y;
    HeadOfType(w, y);
    NoSpacesBefore(y);
    FieldFromHead(w + y, [Leaf(Type, w)], y);
    ArgumentLength([Leaf(Type, w)], l, after);
    assert [Leaf(Type, w)] + [Leaf(Length, l)] == [Leaf(Type, w), Leaf(Length, l)];
  }

  /**
    A type word followed by `<` yields TYPE then exactly one NESTED token whose
    children are the tokenization of the interior; parsing resumes just after
    the `>` that closes the region.
  */
  lemma NestedField(w: string, body: string, children: seq<Token>, after: string)
    requires IsWord(w)
    requires ParseFields(body) == Ok((children, ">" + after))
    ensures ParseField(w + "<" + body) == Ok(([Leaf(Type, w), Nested(children)], after))
  {
    var y := "<" + body;
    calc {
      ParseField(w + "<" + body);
      { assert w + "<" + body == w + y; }
      ParseField(w + y);
      { HeadOfType(w, y); NoSpacesBefore(y); FieldFromHead(w + y, [Leaf(Type, w)], y); }
      ParseArgument([Leaf(Type, w)], y);
      { ArgumentNested([Leaf(Type, w)], body, children, after); }
      Ok(([Leaf(Type, w)] + [Nested(children)], after));
      { assert [Leaf(Type, w)] + [Nested(children)] == [Leaf(Type, w), Nested(children)]; }
      Ok(([Leaf(Type, w), Nested(children)], after));
    }
  }

  /** A nested region still open at the end of the input is closed there. */
  lemma UnclosedNestedField(w: string, body: string, children: seq<Token>)
    requires IsWord(w)
    requires ParseFields(body) == Ok((children, []))
    ensures ParseField(w + "<" + body) == Ok(([Leaf(Type, w), Nested(children)], []))
  {
    var y := "<" + body;
    assert y[1..] == body;
    calc {
      ParseField(w + "<" + body);
      { assert w + "<" + body == w + y; }
      ParseField(w + y);
      { HeadOfType(w, y); NoSpacesBefore(y); FieldFromHead(w + y, [Leaf(Type, w)], y); }
      ParseArgument([Leaf(Type, w)], y);
      Ok(([Leaf(Type, w)] + [Nested(children)], []));
      { assert [Leaf(Type, w)] + [Nested(children)] == [Leaf(Type, w), Nested(children)]; }
      Ok(([Leaf(Type, w), Nested(children)], []));
    }
  }

  /**
    A leading identifier separated by whitespace from a type word becomes a
    NAME token in front of what the type word alone produces.
  */
  lemma NamedField(n: string, sp: string, w: string, y: string, tokens: seq<Token>, after: string)
    requires IsWord(n) && IsWord(w)
    requires |sp| > 0 && AllSpaces(sp)
    requires y == [] || (!IsSpace(y[0]) && !IsWordChar(y[0]))
    requires ParseField(w + y) == Ok((tokens, after))
    ensures |tokens| > 0 && tokens[0] == Leaf(Type, w)
    ensures ParseField(n + sp + w + y) == Ok(([Leaf(Name, n)] + tokens, after))
  {
    NoSpacesBefore(y);
    assert ParseArgument([Leaf(Type, w)], y) == Ok((tokens, after)) by {
      HeadOfType(w, y);
      FieldFromHead(w + y, [Leaf(Type, w)], y);
    }
    calc {
      ParseField(n + sp + w + y);
      { HeadOfNamed(n, sp, w, y); FieldFromHead(n + sp + w + y, [Leaf(Name, n), Leaf(Type, w)], y); }
      ParseArgument([Leaf(Name, n), Leaf(Type, w)], y);
      { assert [Leaf(Name, n), Leaf(Type, w)] == [Leaf(Name, n)] + [Leaf(Type, w)]; }
      ParseArgument([Leaf(Name, n)] + [Leaf(Type, w)], y);
      { ArgumentPrepend(Leaf(Name, n), [Leaf(Type, w)], y, tokens, after); }
      Ok(([Leaf(Name, n)] + tokens, after));
    }
    ArgumentPrepend(Leaf(Name, n), [Leaf(Type, w)], y, tokens, after);
    assert tokens[0] == tokens[..1][0];
  }

  /** The argument parsed after a head does not depend on the tokens already in the head. */
  lemma ArgumentPrepend(x: Token, head: seq<Token>, u: string, tokens: seq<Token>, after: string)
    requires ParseArgument(head, u) == Ok((tokens, after))
    ensures |head| <= |tokens| && tokens[..|head|] == head
    ensures ParseArgument([x] + head, u) == Ok(([x] + tokens, after))
  {
    if u != [] && u[0] == '(' {
      var (l, rest) := ReadUntilCloser(u[1..]).value;
      assert ([x] + head) + [Leaf(Length, l)] == [x] + (head + [Leaf(Length, l)]);
    } else if u != [] && u[0] == '<' {
      var (children, rest) := ParseFields(u[1..]).value;
      assert ([x] + head) + [Nested(children)] == [x] + (head + [Nested(children)]);
    }
  }

  /** Whitespace in front of a region is insignificant, in particular after a delimiter. */
  lemma LeadingSpacesIgnored(sp: string, s: string)
    requires AllSpaces(sp)
    ensures ParseFields(sp + s) == ParseFields(s)
  {
    SkipSpacesPrefix(sp, s);
    SameStartSameFields(sp + s, s);
  }

  lemma {:induction false} SkipSpacesPrefix(sp: string, s: string)
    requires AllSpaces(sp)
    ensures SkipSpaces(sp + s) == SkipSpaces(s)
  {
    if sp != [] {
      assert (sp + s)[1..] == sp[1..] + s;
      SkipSpacesPrefix(sp[1..], s);
    } else {
      assert sp + s == s;
    }
  }

  /** Parsing a region depends only on the input after its leading whitespace. */
  lemma SameStartSameFields(a: string, b: string)
    requires SkipSpaces(a) == SkipSpaces(b)
    ensures ParseFields(a) == ParseFields(b)
  {
    assert ParseField(a) == ParseField(b);
  }

  /** A delimiter after a field continues the same region with the next field. */
  lemma DelimitedFields(s: string, tokens: seq<Token>, b: string, more: seq<Token>, rest: string)
    requires ParseField(s) == Ok((tokens, "," + b))
    requires ParseFields(b) == Ok((more, rest))
    ensures ParseFields(s) == Ok((tokens + [Leaf(FieldDelimiter, ",")] + more, rest))
  {
    NoSpacesBefore("," + b);
    assert ("," + b)[1..] == b;
  }

  /** Whitespace after a delimiter is skipped: the next field starts at the first non-blank character. */
  lemma SpacedDelimitedFields(s: string, tokens: seq<Token>, sp: string, b: string, more: seq<Token>, rest: string)
    requires AllSpaces(sp)
    requires ParseField(s) == Ok((tokens, "," + (sp + b)))
    requires ParseFields(b) == Ok((more, rest))
    ensures ParseFields(s) == Ok((tokens + [Leaf(FieldDelimiter, ",")] + more, rest))
  {
    LeadingSpacesIgnored(sp, b);
    DelimitedFields(s, tokens, sp + b, more, rest);
  }

  /** The last field of a region: the region ends at the `>` or end of input that follows it. */
  lemma LastField(s: string, tokens: seq<Token>, rest: string)
    requires ParseField(s) == Ok((tokens, rest))
    requires rest == [] || rest[0] == '>'
    ensures ParseFields(s) == Ok((tokens, rest))
  {
    NoSpacesBefore(rest);
  }

  /* ---------------------------------------------------------------------- */
  /* Grammar lemmas                                                         */
  /* ---------------------------------------------------------------------- */

  lemma {:induction false} RenderAppend(a: seq<Token>, b: seq<Token>)
    ensures Render(a + b) == Render(a) + Render(b)
    decreases |a|
  {
    if a == [] {
      assert a + b == b;
    } else {
      assert (a + b)[0] == a[0];
      assert (a + b)[1..] == a[1..] + b;
      RenderAppend(a[1..], b);
    }
  }

  lemma RenderSingle(t: Token)
    ensures Render([t]) == RenderToken(t)
  {
    assert [t][1..] == [];
  }

  /** Two well-formed regions joined by a delimiter form one well-formed region. */
  lemma JoinWellFormed(a: seq<Token>, b: seq<Token>)
    requires WellFormed(a) && WellFormed(b)
    ensures WellFormed(a + [Leaf(FieldDelimiter, ",")] + b)
  {
    var d := Leaf(FieldDelimiter, ",");
    var ts := a + [d] + b;
    assert ts[|a|] == d;
    assert Adjacent(ts) by {
      forall i, j | 0 <= i && j == i + 1 && j < |ts|
        ensures MayFollow(ts[i], ts[j])
      {
        if i < |a| - 1 {
          assert ts[i] == a[i] && ts[i + 1] == a[i + 1];
        } else if i == |a| - 1 {
          assert ts[i] == a[|a| - 1];
        } else if i == |a| {
          assert ts[i + 1] == b[0];
        } else {
          assert ts[i] == b[i - |a| - 1] && ts[i + 1] == b[i - |a|];
        }
      }
    }
    assert LexemesOk(ts) && NestedWellFormed(ts) by {
      forall i | 0 <= i < |ts|
        ensures LexemeOk(ts[i]) && (ts[i].Nested? ==> WellFormed(ts[i].children))
      {
        if i < |a| {
          assert ts[i] == a[i];
        } else if i > |a| {
          assert ts[i] == b[i - |a| - 1];
        }
      }
    }
    assert ts[0] == a[0];
    assert ts[|ts| - 1] == b[|b| - 1];
  }

  /** A head, optionally followed by a length or a well-formed nested region, is a well-formed one-field region. */
  lemma FieldWellFormed(head: seq<Token>, arg: seq<Token>)
    requires IsHead(head)
    requires || arg == []
             || (|arg| == 1 && IsKind(arg[0], Length) && HasNoCloser(arg[0].lexeme))
             || (|arg| == 1 && arg[0].Nested? && WellFormed(arg[0].children))
    ensures WellFormed(head + arg)
  {
    var ts := head + arg;
    assert forall i :: 0 <= i < |head| ==> ts[i] == head[i];
    assert forall i :: 0 <= i < |arg| ==> ts[|head| + i] == arg[i];
    assert Adjacent(ts);
    assert LexemesOk(ts);
    assert NestedWellFormed(ts);
  }

  lemma SuffixAdjacent(ts: seq<Token>, k: nat)
    requires Adjacent(ts) && k <= |ts|
    ensures Adjacent(ts[k..])
  {
    var tail := ts[k..];
    forall i, j | 0 <= i && j == i + 1 && j < |tail|
      ensures MayFollow(tail[i], tail[j])
    {
      assert tail[i] == ts[k + i] && tail[j] == ts[k + j];
    }
  }

  lemma SuffixLexemesNested(ts: seq<Token>, k: nat)
    requires LexemesOk(ts) && NestedWellFormed(ts) && k <= |ts|
    ensures LexemesOk(ts[k..]) && NestedWellFormed(ts[k..])
  {
    var tail := ts[k..];
    forall i | 0 <= i < |tail|
      ensures LexemeOk(tail[i]) && (tail[i].Nested? ==> WellFormed(tail[i].children))
    {
      assert tail[i] == ts[k + i];
    }
  }

  /** What follows the delimiter ending a field is again a well-formed region. */
  lemma WellFormedAfterDelimiter(ts: seq<Token>, n: nat)
    requires WellFormed(ts)
    requires n < |ts| && IsKind(ts[n], FieldDelimiter)
    ensures n + 1 < |ts|
    ensures WellFormed(ts[n + 1..])
  {
    DelimiterNotLast(ts, n);
    DelimiterThenOpener(ts, n);
    SuffixAdjacent(ts, n + 1);
    SuffixLexemesNested(ts, n + 1);
    SuffixEnds(ts, n + 1);
    WellFormedOfParts(ts[n + 1..]);
  }

  lemma WellFormedOfParts(ts: seq<Token>)
    requires |ts| > 0 && Opens(ts[0]) && Closes(ts[|ts| - 1])
    requires Adjacent(ts) && LexemesOk(ts) && NestedWellFormed(ts)
    ensures WellFormed(ts)
  {
  }

  lemma DelimiterNotLast(ts: seq<Token>, n: nat)
    requires n < |ts| && IsKind(ts[n], FieldDelimiter) && Closes(ts[|ts| - 1])
    ensures n + 1 < |ts|
  {
  }

  lemma DelimiterThenOpener(ts: seq<Token>, n: nat)
    requires Adjacent(ts) && n + 1 < |ts| && IsKind(ts[n], FieldDelimiter)
    ensures Opens(ts[n + 1])
  {
    assert MayFollow(ts[n], ts[n + 1]);
  }

  lemma SuffixEnds(ts: seq<Token>, k: nat)
    requires k < |ts|
    ensures ts[k..][0] == ts[k] && ts[k..][|ts| - k - 1] == ts[|ts| - 1]
  {
  }

  /** The first field of a well-formed region ends at a delimiter or at the end of the region. */
  lemma FirstFieldShape(ts: seq<Token>)
    requires WellFormed(ts)
    ensures var n := FirstFieldLength(ts);
      && (n == |ts| || IsKind(ts[n], FieldDelimiter))
      && (IsKind(ts[0], Name) ==> |ts| > 2 - 1 && IsKind(ts[1], Type))
  {
    var h := if IsKind(ts[0], Name) then 2 else 1;
    if IsKind(ts[0], Name) {
      assert MayFollow(ts[0], ts[1]);
    }
    if h < |ts| {
      assert MayFollow(ts[h - 1], ts[h]);
      if (IsKind(ts[h], Length) || ts[h].Nested?) && h + 1 < |ts| {
        assert MayFollow(ts[h], ts[h + 1]);
      }
    }
  }

  /* ---------------------------------------------------------------------- */
  /* Round trip: the parser reads back every canonical rendering            */
  /* ---------------------------------------------------------------------- */

  /** An argument of a field: none, one LENGTH, or one NESTED region. */
  predicate IsArgument(arg: seq<Token>) {
    || arg == []
    || (|arg| == 1 && IsKind(arg[0], Length) && HasNoCloser(arg[0].lexeme))
    || (|arg| == 1 && arg[0].Nested?)
  }

  /** The first field of a well-formed region splits into a head and an argument. */
  lemma FirstFieldSplit(ts: seq<Token>)
    requires WellFormed(ts)
    ensures var n := FirstFieldLength(ts);
      var h := if IsKind(ts[0], Name) then 2 else 1;
      && h <= n
      && IsHead(ts[..h])
      && IsArgument(ts[h..n])
      && (ts[h..n] != [] ==> ts[h..n][0].Nested? ==> WellFormed(ts[h..n][0].children))
      && ts[..n] == ts[..h] + ts[h..n]
  {
    var n := FirstFieldLength(ts);
    var h := if IsKind(ts[0], Name) then 2 else 1;
    FirstFieldShape(ts);
    assert LexemeOk(ts[0]);
    assert LexemeOk(ts[h - 1]);
    if h == 2 {
      assert MayFollow(ts[0], ts[1]);
    }
    if n > h {
      assert LexemeOk(ts[h]);
      assert ts[h].Nested? ==> WellFormed(ts[h].children);
      assert ts[h..n] == [ts[h]];
    }
  }

  /** The spelling of an argument: nothing, `(l)` or `<...>`. */
  lemma RenderArgument(arg: seq<Token>)
    requires IsArgument(arg)
    ensures arg == [] ==> Render(arg) == []
    ensures arg != [] && arg[0].Nested? ==> Render(arg) == "<" + Render(arg[0].children) + ">"
    ensures arg != [] && arg[0].Leaf? ==> Render(arg) == "(" + arg[0].lexeme + ")"
  {
    if arg != [] {
      RenderSingle(arg[0]);
    }
  }

  lemma RegroupNested(w: string, inner: string, after: string)
    ensures w + ("<" + inner + ">") + after == w + "<" + (inner + ">" + after)
  {
  }

  /** A TYPE word followed by a canonically spelled argument parses back to those tokens. */
  lemma PlainFieldParses(w: string, arg: seq<Token>, after: string)
    requires IsWord(w)
    requires IsArgument(arg)
    requires after == [] || after[0] == ',' || after[0] == '>'
    requires arg != [] && arg[0].Nested? ==>
      ParseFields(Render(arg[0].children) + ">" + after) == Ok((arg[0].children, ">" + after))
    ensures ParseField(w + Render(arg) + after) == Ok(([Leaf(Type, w)] + arg, after))
  {
    if arg == [] {
      BareFieldParses(w, after);
      assert [Leaf(Type, w)] + arg == [Leaf(Type, w)];
    } else if arg[0].Nested? {
      assert arg == [Nested(arg[0].children)];
      NestedFieldParses(w, arg[0].children, after);
    } else {
      assert arg == [Leaf(Length, arg[0].lexeme)];
      LengthFieldParses(w, arg[0].lexeme, after);
    }
  }

  lemma BareFieldParses(w: string, after: string)
    requires IsWord(w)
    requires after == [] || after[0] == ',' || after[0] == '>'
    ensures ParseField(w + Render([]) + after) == Ok(([Leaf(Type, w)], after))
  {
    assert w + Render([]) + after == w + after;
    PlainTypeField(w, after);
  }

  lemma NestedFieldParses(w: string, c: seq<Token>, after: string)
    requires IsWord(w)
    requires ParseFields(Render(c) + ">" + after) == Ok((c, ">" + after))
    ensures ParseField(w + Render([Nested(c)]) + after) == Ok(([Leaf(Type, w)] + [Nested(c)], after))
  {
    var body := Render(c) + ">" + after;
    calc {
      ParseField(w + Render([Nested(c)]) + after);
      { RenderSingle(Nested(c)); RegroupNested(w, Render(c), after); }
      ParseField(w + "<" + body);
      { NestedField(w, body, c, after); }
      Ok(([Leaf(Type, w), Nested(c)], after));
      { assert [Leaf(Type, w)] + [Nested(c)] == [Leaf(Type, w), Nested(c)]; }
      Ok(([Leaf(Type, w)] + [Nested(c)], after));
    }
  }

  lemma LengthFieldParses(w: string, l: string, after: string)
    requires IsWord(w) && HasNoCloser(l)
    ensures ParseField(w + Render([Leaf(Length, l)]) + after) == Ok(([Leaf(Type, w)] + [Leaf(Length, l)], after))
  {
    calc {
      ParseField(w + Render([Leaf(Length, l)]) + after);
      { RenderSingle(Leaf(Length, l)); RegroupLength(w, l, after); }
      ParseField(w + "(" + l + ")" + after);
      { LengthField(w, l, after); }
      Ok(([Leaf(Type, w), Leaf(Length, l)], after));
      { assert [Leaf(Type, w)] + [Leaf(Length, l)] == [Leaf(Type, w), Leaf(Length, l)]; }
      Ok(([Leaf(Type, w)] + [Leaf(Length, l)], after));
    }
  }

  lemma RegroupLength(w: string, l: string, after: string)
    ensures w + ("(" + l + ")") + after == w + "(" + l + ")" + after
  {
  }

  /** The spelling of a head and its argument. */
  lemma RenderHeadArgument(head: seq<Token>, arg: seq<Token>)
    requires IsHead(head)
    ensures |head| == 1 ==> Render(head + arg) == head[0].lexeme + Render(arg)
    ensures |head| == 2 ==> Render(head + arg) == head[0].lexeme + " " + head[1].lexeme + Render(arg)
  {
    if |head| == 1 {
      assert head + arg == [head[0]] + arg;
      RenderAppend([head[0]], arg);
      RenderSingle(head[0]);
    } else {
      assert head + arg == [head[0]] + ([head[1]] + arg);
      RenderAppend([head[0]], [head[1]] + arg);
      RenderAppend([head[1]], arg);
      RenderSingle(head[0]);
      RenderSingle(head[1]);
    }
  }

  lemma Regroup<T>(a: seq<T>, b: seq<T>, c: seq<T>)
    ensures a + b + c == a + (b + c)
  {
  }

  lemma RegroupNamed(n: string, w: string, a: string, after: string)
    ensures n + " " + w + a + after == n + " " + w + (a + after)
  {
  }

  /** A field head followed by a canonically spelled argument parses back to those tokens. */
  lemma HeadedFieldParses(head: seq<Token>, arg: seq<Token>, after: string)
    requires IsHead(head)
    requires IsArgument(arg)
    requires after == [] || after[0] == ',' || after[0] == '>'
    requires arg != [] && arg[0].Nested? ==>
      ParseFields(Render(arg[0].children) + ">" + after) == Ok((arg[0].children, ">" + after))
    ensures ParseField(Render(head + arg) + after) == Ok((head + arg, after))
  {
    var w := head[|head| - 1].lexeme;
    if |head| == 1 {
      HeadSpelling(head, arg, after);
      PlainFieldParses(w, arg, after);
    } else {
      HeadSpelling(head, arg, after);
      NamedFieldParses(head[0].lexeme, w, arg, after);
    }
  }

  /** How a head and its argument are laid out in the spelling and in the token list. */
  lemma HeadSpelling(head: seq<Token>, arg: seq<Token>, after: string)
    requires IsHead(head)
    ensures var w := head[|head| - 1].lexeme;
      |head| == 1 ==>
        && Render(head + arg) + after == w + Render(arg) + after
        && head + arg == [Leaf(Type, w)] + arg
    ensures var w := head[|head| - 1].lexeme;
      |head| == 2 ==>
        && Render(head + arg) + after == head[0].lexeme + " " + w + (Render(arg) + after)
        && head + arg == [Leaf(Name, head[0].lexeme)] + ([Leaf(Type, w)] + arg)
  {
    var w := head[|head| - 1].lexeme;
    RenderHeadArgument(head, arg);
    if |head| == 1 {
      assert head == [Leaf(Type, w)];
    } else {
      var nm := head[0].lexeme;
      assert head == [Leaf(Name, nm)] + [Leaf(Type, w)];
      Regroup([Leaf(Name, nm)], [Leaf(Type, w)], arg);
      RegroupNamed(nm, w, Render(arg), after);
    }
  }

  lemma NamedFieldParses(nm: string, w: string, arg: seq<Token>, after: string)
    requires IsWord(nm) && IsWord(w)
    requires IsArgument(arg)
    requires after == [] || after[0] == ',' || after[0] == '>'
    requires arg != [] && arg[0].Nested? ==>
      ParseFields(Render(arg[0].children) + ">" + after) == Ok((arg[0].children, ">" + after))
    ensures ParseField(nm + " " + w + (Render(arg) + after))
            == Ok(([Leaf(Name, nm)] + ([Leaf(Type, w)] + arg), after))
  {
    var y := Render(arg) + after;
    assert y == [] || (!IsSpace(y[0]) && !IsWordChar(y[0])) by {
      RenderArgument(arg);
    }
    assert AllSpaces(" ") by { assert " "[1..] == []; }
    assert ParseField(w + y) == Ok(([Leaf(Type, w)] + arg, after)) by {
      PlainFieldParses(w, arg, after);
      Regroup(w, Render(arg), after);
    }
    NamedField(nm, " ", w, y, [Leaf(Type, w)] + arg, after);
  }

  /** The first field of a well-formed region, rendered and followed by a delimiter, a closer or nothing, parses back to itself. */
  lemma RenderedFieldParses(ts: seq<Token>, after: string)
    requires WellFormed(ts)
    requires after == [] || after[0] == ',' || after[0] == '>'
    ensures var n := FirstFieldLength(ts);
      ParseField(Render(ts[..n]) + after) == Ok((ts[..n], after))
    decreases ts, 0
  {
    var n := FirstFieldLength(ts);
    var h := if IsKind(ts[0], Name) then 2 else 1;
    FirstFieldSplit(ts);
    var arg := ts[h..n];
    if arg != [] && arg[0].Nested? {
      RenderedFieldsParse(arg[0].children, ">" + after);
      Regroup(Render(arg[0].children), ">", after);
    }
    HeadedFieldParses(ts[..h], arg, after);
  }

  /** Splitting a region's spelling at a delimiter. */
  lemma RenderAtDelimiter(ts: seq<Token>, n: nat)
    requires n < |ts| && ts[n] == Leaf(FieldDelimiter, ",")
    ensures Render(ts) == Render(ts[..n]) + "," + Render(ts[n + 1..])
  {
    var d := ts[n];
    var head := ts[..n];
    var tail := ts[n + 1..];
    calc {
      Render(ts);
      { assert ts == head + ([d] + tail); }
      Render(head + ([d] + tail));
      { RenderAppend(head, [d] + tail); }
      Render(head) + Render([d] + tail);
      { RenderAppend([d], tail); RenderSingle(d); }
      Render(head) + ("," + Render(tail));
      { Regroup(Render(head), ",", Render(tail)); }
      Render(head) + "," + Render(tail);
    }
  }

  /** A well-formed region, rendered and followed by nothing or by a closer, parses back to itself. */
  lemma RenderedFieldsParse(ts: seq<Token>, rest: string)
    requires WellFormed(ts)
    requires rest == [] || rest[0] == '>'
    ensures ParseFields(Render(ts) + rest) == Ok((ts, rest))
    decreases ts, 1
  {
    var n := FirstFieldLength(ts);
    FirstFieldShape(ts);
    if n == |ts| {
      assert ts[..n] == ts;
      RenderedFieldParses(ts, rest);
      LastField(Render(ts) + rest, ts, rest);
    } else {
      var d := Leaf(FieldDelimiter, ",");
      assert LexemeOk(ts[n]);
      assert ts[n] == d;
      WellFormedAfterDelimiter(ts, n);
      var tail := ts[n + 1..];
      var b := Render(tail) + rest;
      calc {
        ParseFields(Render(ts) + rest);
        { RenderAtDelimiter(ts, n); RegroupDelimiter(Render(ts[..n]), Render(tail), rest); }
        ParseFields(Render(ts[..n]) + ("," + b));
        { RenderedFieldParses(ts, "," + b);
          RenderedFieldsParse(tail, rest);
          DelimitedFields(Render(ts[..n]) + ("," + b), ts[..n], b, tail, rest); }
        Ok((ts[..n] + [d] + tail, rest));
        { assert ts[..n] + [d] + tail == ts; }
        Ok((ts, rest));
      }
    }
  }

  /** A well-formed region, rendered and followed by a delimiter, continues into whatever region follows. */
  lemma {:induction false} RenderedFieldsThen(ts: seq<Token>, b: string, more: seq<Token>, rest: string)
    requires WellFormed(ts)
    requires ParseFields(b) == Ok((more, rest))
    ensures ParseFields(Render(ts) + ("," + b)) == Ok((ts + [Leaf(FieldDelimiter, ",")] + more, rest))
    decreases ts
  {
    var d := Leaf(FieldDelimiter, ",");
    var n := FirstFieldLength(ts);
    FirstFieldShape(ts);
    if n == |ts| {
      assert ts[..n] == ts;
      RenderedFieldParses(ts, "," + b);
      DelimitedFields(Render(ts) + ("," + b), ts, b, more, rest);
    } else {
      assert LexemeOk(ts[n]);
      assert ts[n] == d;
      WellFormedAfterDelimiter(ts, n);
      var tail := ts[n + 1..];
      var b' := Render(tail) + ("," + b);
      RenderedFieldsThen(tail, b, more, rest);
      calc {
        ParseFields(Render(ts) + ("," + b));
        { RenderAtDelimiter(ts, n); RegroupDelimiter(Render(ts[..n]), Render(tail), "," + b); }
        ParseFields(Render(ts[..n]) + ("," + b'));
        { RenderedFieldParses(ts, "," + b');
          DelimitedFields(Render(ts[..n]) + ("," + b'), ts[..n], b', tail + [d] + more, rest); }
        Ok((ts[..n] + [d] + (tail + [d] + more), rest));
        { ReassembleAtDelimiter(ts, n, d, more); }
        Ok((ts + [d] + more, rest));
      }
    }
  }

  lemma ReassembleAtDelimiter(ts: seq<Token>, n: nat, d: Token, more: seq<Token>)
    requires n < |ts| && ts[n] == d
    ensures ts[..n] + [d] + (ts[n + 1..] + [d] + more) == ts + [d] + more
  {
    Regroup(ts[n + 1..], [d], more);
    Regroup(ts[..n] + [d], ts[n + 1..], [d] + more);
    assert ts[..n] + [d] + ts[n + 1..] == ts;
    Regroup(ts, [d], more);
  }

  lemma RegroupDelimiter(f: string, t: string, rest: string)
    ensures f + "," + t + rest == f + ("," + (t + rest))
  {
  }

  /** Round trip: tokenizing the canonical spelling of a well-formed token list gives that list back. */
  lemma TokenizeRender(ts: seq<Token>)
    requires WellFormed(ts)
    ensures Tokenize(Render(ts)) == Ok(ts)
  {
    RenderedFieldsParse(ts, []);
    assert Render(ts) + [] == Render(ts);
  }

  /** Two well-formed token lists with the same spelling are equal. */
  lemma RenderInjective(a: seq<Token>, b: seq<Token>)
    requires WellFormed(a) && WellFormed(b)
    requires Render(a) == Render(b)
    ensures a == b
  {
    TokenizeRender(a);
    TokenizeRender(b);
  }

  /* ---------------------------------------------------------------------- */
  /* Soundness: whatever the parser accepts is well-formed                  */
  /* ---------------------------------------------------------------------- */

  lemma ParsedFieldWellFormed(s: string)
    requires ParseField(s).Ok?
    ensures WellFormed(ParseField(s).value.0)
    decreases |s|, 0
  {
    var t := SkipSpaces(s);
    match ReadHead(t)
    case Some((head, afterType)) =>
      FieldFromHead(s, head, afterType);
      ParsedArgumentWellFormed(head, SkipSpaces(afterType));
  }

  lemma ParsedArgumentWellFormed(head: seq<Token>, u: string)
    requires IsHead(head)
    requires ParseArgument(head, u).Ok?
    ensures WellFormed(ParseArgument(head, u).value.0)
    decreases |u|, 2
  {
    if u != [] && u[0] == '(' {
      match ReadUntilCloser(u[1..])
      case Some((interior, rest)) =>
        FieldWellFormed(head, [Leaf(Length, interior)]);
    } else if u != [] && u[0] == '<' {
      var inner := ParseFields(u[1..]);
      ParsedFieldsWellFormed(u[1..]);
      FieldWellFormed(head, [Nested(inner.value.0)]);
    } else {
      assert head + [] == head;
      FieldWellFormed(head, []);
    }
  }

  lemma ParsedFieldsWellFormed(s: string)
    requires ParseFields(s).Ok?
    ensures WellFormed(ParseFields(s).value.0)
    decreases |s|, 1
  {
    ParsedFieldWellFormed(s);
    var (tokens, afterField) := ParseField(s).value;
    var u := SkipSpaces(afterField);
    if u != [] && u[0] == ',' {
      ParsedFieldsWellFormed(u[1..]);
      JoinWellFormed(tokens, ParseFields(u[1..]).value.0);
    }
  }

  /** Every accepted type string yields a well-formed token list that is the parse of its own canonical spelling. */
  lemma TokenizeWellFormed(s: string)
    requires Tokenize(s).Ok?
    ensures WellFormed(Tokenize(s).value)
    ensures Tokenize(Render(Tokenize(s).value)) == Tokenize(s)
  {
    ParsedFieldsWellFormed(s);
    TokenizeRender(Tokenize(s).value);
  }

  /* ---------------------------------------------------------------------- */
  /* Field counting                                                         */
  /* ---------------------------------------------------------------------- */

  lemma {:induction false} CountPrefix(ts: seq<Token>, j: nat)
    requires WellFormed(ts)
    requires 0 < j <= |ts|
    ensures Count(ts[..j], Type)
            == Count(ts[..j], FieldDelimiter)
               + (if IsKind(ts[j - 1], Name) || IsKind(ts[j - 1], FieldDelimiter) then 0 else 1)
  {
    var p := ts[..j];
    assert p[..j - 1] == ts[..j - 1];
    if j == 1 {
      assert ts[..0] == [];
    } else {
      CountPrefix(ts, j - 1);
      assert MayFollow(ts[j - 2], ts[j - 1]);
    }
  }

  /** A region holds exactly one more field (one TYPE per field) than it has delimiters. */
  lemma DelimitersSeparateFields(ts: seq<Token>)
    requires WellFormed(ts)
    ensures Count(ts, Type) == Count(ts, FieldDelimiter) + 1
  {
    CountPrefix(ts, |ts|);
    assert ts[..|ts|] == ts;
  }
}
