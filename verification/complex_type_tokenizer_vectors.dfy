/**
  The data-driven cases of the tokenizer's test suite
  (tests/Unit/Column/Bigquery/Parser/ComplexTypeTokenizerTest.php), each proved
  about the model.

  Every case is first proved as a shape lemma over arbitrary words (any
  identifiers in place of `col`, `ARRAY`, `STRING`, ...), and then instantiated
  with the words of the test. In the instances the test's input string is
  written as the concatenation of its lexemes, `"col" + " " + "ARRAY" + "<" +
  "STRING" + ">"` for `col ARRAY<STRING>`; it is the same string.
*/
module ComplexTypeTokenizerVectors {
  import opened Results
  import opened ComplexTypeTokenizer

  function Nm(w: string): Token { Leaf(Name, w) }
  function Ty(w: string): Token { Leaf(Type, w) }
  function Len(l: string): Token { Leaf(Length, l) }
  function Delim(): Token { Leaf(FieldDelimiter, ",") }

  /** `ts` is a well-formed token list whose canonical spelling is `def`. */
  predicate Spells(ts: seq<Token>, def: string) {
    WellFormed(ts) && Render(ts) == def
  }

  /** A canonically spelled definition tokenizes to the tokens it spells. */
  lemma Canonical(def: string, ts: seq<Token>)
    requires Spells(ts, def)
    ensures Tokenize(def) == Ok(ts)
  {
    TokenizeRender(ts);
  }

  /* ---------------------------------------------------------------------- */
  /* The array form the test compares                                       */
  /* ---------------------------------------------------------------------- */

  /** A token as the test's `tokenToArray` renders it: `type` plus either `token` or `nested`. */
  datatype TokenArray = Plain(kind: string, token: string) | WithNested(kind: string, nested: seq<TokenArray>)

  function KindName(k: Kind): (r: string)
    ensures |r| > 2 && r[..2] == "T_"
  {
    match k
    case Name => "T_NAME"
    case Type => "T_TYPE"
    case Length => "T_LENGTH"
    case FieldDelimiter => "T_FIELD_DELIMITER"
  }

  function ToArray(t: Token): (r: TokenArray)
    decreases t
    ensures t.Leaf? <==> r.Plain?
    ensures t.Leaf? ==> r.token == t.lexeme
    ensures t.Nested? ==> r.kind == "T_NESTED" && |r.nested| == |t.children|
  {
    match t
    case Leaf(k, w) => Plain(KindName(k), w)
    case Nested(c) => WithNested("T_NESTED", ToArrays(c))
  }

  function ToArrays(ts: seq<Token>): (r: seq<TokenArray>)
    decreases ts
    ensures |r| == |ts|
  {
    if ts == [] then [] else [ToArray(ts[0])] + ToArrays(ts[1..])
  }

  /** Distinct kinds get distinct `type` strings. */
  lemma KindNameInjective(j: Kind, k: Kind)
    requires KindName(j) == KindName(k)
    ensures j == k
  {
  }

  /**
    Comparing the array forms is comparing the tokens: `tokenToArray` loses
    nothing, so the test's expected arrays determine the expected tokens.
  */
  lemma {:induction false} ToArrayInjective(t: Token, u: Token)
    requires ToArray(t) == ToArray(u)
    ensures t == u
    decreases t
  {
    match t
    case Leaf(k, w) =>
      KindNameInjective(k, u.kind);
    case Nested(c) =>
      ToArraysInjective(c, u.children);
  }

  lemma {:induction false} ToArraysInjective(a: seq<Token>, b: seq<Token>)
    requires ToArrays(a) == ToArrays(b)
    ensures a == b
    decreases a
  {
    if a != [] {
      assert ToArrays(a)[0] == ToArray(a[0]) && ToArrays(b)[0] == ToArray(b[0]);
      ToArrayInjective(a[0], b[0]);
      assert ToArrays(a)[1..] == ToArrays(a[1..]) && ToArrays(b)[1..] == ToArrays(b[1..]);
      ToArraysInjective(a[1..], b[1..]);
      assert a == [a[0]] + a[1..] && b == [b[0]] + b[1..];
    }
  }

  /* ---------------------------------------------------------------------- */
  /* Character classes of concrete lexemes                                  */
  /* ---------------------------------------------------------------------- */

  lemma {:induction false} AllWordCharsOf(w: string)
    requires forall i :: 0 <= i < |w| ==> IsWordChar(w[i])
    ensures AllWordChars(w)
  {
    if w != [] {
      assert forall i :: 0 <= i < |w[1..]| ==> w[1..][i] == w[i + 1];
      AllWordCharsOf(w[1..]);
    }
  }

  lemma WordOf(w: string)
    requires |w| > 0
    requires forall i :: 0 <= i < |w| ==> IsWordChar(w[i])
    ensures IsWord(w)
  {
    AllWordCharsOf(w);
  }

  lemma {:induction false} NoCloserOf(l: string)
    requires forall i :: 0 <= i < |l| ==> l[i] != ')'
    ensures HasNoCloser(l)
  {
    if l != [] {
      assert forall i :: 0 <= i < |l[1..]| ==> l[1..][i] == l[i + 1];
      NoCloserOf(l[1..]);
    }
  }

  /* ---------------------------------------------------------------------- */
  /* Building spelled token lists field by field                            */
  /* ---------------------------------------------------------------------- */

  lemma SpellsType(w: string)
    requires IsWord(w)
    ensures Spells([Ty(w)], w)
  {
    FieldWellFormed([Ty(w)], []);
    assert [Ty(w)] + [] == [Ty(w)];
    RenderSingle(Ty(w));
  }

  lemma SpellsLength(w: string, l: string)
    requires IsWord(w) && HasNoCloser(l)
    ensures Spells([Ty(w), Len(l)], w + "(" + l + ")")
  {
    FieldWellFormed([Ty(w)], [Len(l)]);
    assert [Ty(w)] + [Len(l)] == [Ty(w), Len(l)];
    RenderAppend([Ty(w)], [Len(l)]);
    RenderSingle(Ty(w));
    RenderSingle(Len(l));
  }

  lemma SpellsNested(w: string, c: seq<Token>, sc: string)
    requires IsWord(w) && Spells(c, sc)
    ensures Spells([Ty(w), Nested(c)], w + "<" + sc + ">")
  {
    FieldWellFormed([Ty(w)], [Nested(c)]);
    assert [Ty(w)] + [Nested(c)] == [Ty(w), Nested(c)];
    RenderAppend([Ty(w)], [Nested(c)]);
    RenderSingle(Ty(w));
    RenderSingle(Nested(c));
  }

  /** A name in front of an unnamed field: the spelling gains the name and one blank. */
  lemma SpellsNamed(n: string, f: seq<Token>, sf: string)
    requires IsWord(n) && Spells(f, sf)
    requires 1 <= |f| <= 2 && IsKind(f[0], Type)
    ensures Spells([Nm(n)] + f, n + " " + sf)
  {
    var head := [Nm(n), f[0]];
    assert LexemeOk(f[0]);
    assert IsHead(head);
    if |f| == 2 {
      assert MayFollow(f[0], f[1]) && LexemeOk(f[1]);
      assert WellFormed(f) && NestedWellFormed(f);
      assert f[1].Nested? ==> WellFormed(f[1].children);
    }
    FieldWellFormed(head, f[1..]);
    assert head + f[1..] == [Nm(n)] + f;
    RenderAppend([Nm(n)], f);
    RenderSingle(Nm(n));
  }

  lemma SpellsJoin(a: seq<Token>, sa: string, b: seq<Token>, sb: string)
    requires Spells(a, sa) && Spells(b, sb)
    ensures Spells(a + [Delim()] + b, sa + "," + sb)
  {
    JoinWellFormed(a, b);
    RenderAppend(a + [Delim()], b);
    RenderAppend(a, [Delim()]);
    RenderSingle(Delim());
  }

  /** `n w<t>` spells a name, a type and a one-field nested region. */
  lemma SpellsNamedNested(n: string, w: string, c: seq<Token>, sc: string)
    requires IsWord(n) && IsWord(w) && Spells(c, sc)
    ensures Spells([Nm(n), Ty(w), Nested(c)], n + " " + w + "<" + sc + ">")
  {
    SpellsNested(w, c, sc);
    SpellsNamed(n, [Ty(w), Nested(c)], w + "<" + sc + ">");
    assert [Nm(n)] + [Ty(w), Nested(c)] == [Nm(n), Ty(w), Nested(c)];
  }

  /** `n t(l)` */
  lemma SpellsNamedLength(n: string, t: string, l: string)
    requires IsWord(n) && IsWord(t) && HasNoCloser(l)
    ensures Spells([Nm(n), Ty(t), Len(l)], n + " " + t + "(" + l + ")")
  {
    SpellsLength(t, l);
    SpellsNamed(n, [Ty(t), Len(l)], t + "(" + l + ")");
    assert [Nm(n)] + [Ty(t), Len(l)] == [Nm(n), Ty(t), Len(l)];
  }

  /** `n t` */
  lemma SpellsNamedType(n: string, t: string)
    requires IsWord(n) && IsWord(t)
    ensures Spells([Nm(n), Ty(t)], n + " " + t)
  {
    SpellsType(t);
    SpellsNamed(n, [Ty(t)], t);
    assert [Nm(n)] + [Ty(t)] == [Nm(n), Ty(t)];
  }

  /* ---------------------------------------------------------------------- */
  /* The test cases, as shapes over arbitrary words                         */
  /* ---------------------------------------------------------------------- */

  /** Shape of `col ARRAY<STRING>`: a name, a type, and a nested region holding one bare type. */
  lemma NamedNestedTypeShape(n: string, w: string, t: string)
    requires IsWord(n) && IsWord(w) && IsWord(t)
    ensures Tokenize(n + " " + w + "<" + t + ">") == Ok([Nm(n), Ty(w), Nested([Ty(t)])])
  {
    SpellsType(t);
    SpellsNamedNested(n, w, [Ty(t)], t);
    Canonical(n + " " + w + "<" + t + ">", [Nm(n), Ty(w), Nested([Ty(t)])]);
  }

  /** Shape of `col ARRAY<STRING(123245)>`: the nested region holds a type with a length. */
  lemma NamedNestedLengthShape(n: string, w: string, t: string, l: string)
    requires IsWord(n) && IsWord(w) && IsWord(t) && HasNoCloser(l)
    ensures Tokenize(n + " " + w + "<" + t + "(" + l + ")" + ">")
         == Ok([Nm(n), Ty(w), Nested([Ty(t), Len(l)])])
  {
    SpellsLength(t, l);
    SpellsNamedNested(n, w, [Ty(t), Len(l)], t + "(" + l + ")");
    assert n + " " + w + "<" + (t + "(" + l + ")") + ">" == n + " " + w + "<" + t + "(" + l + ")" + ">";
    Canonical(n + " " + w + "<" + t + "(" + l + ")" + ">", [Nm(n), Ty(w), Nested([Ty(t), Len(l)])]);
  }

  /** Shape of `ARRAY<NUMERIC(10,10)>`: no name, and the length keeps its comma. */
  lemma NestedLengthShape(w: string, t: string, l: string)
    requires IsWord(w) && IsWord(t) && HasNoCloser(l)
    ensures Tokenize(w + "<" + t + "(" + l + ")" + ">") == Ok([Ty(w), Nested([Ty(t), Len(l)])])
  {
    SpellsLength(t, l);
    SpellsNested(w, [Ty(t), Len(l)], t + "(" + l + ")");
    assert w + "<" + (t + "(" + l + ")") + ">" == w + "<" + t + "(" + l + ")" + ">";
    Canonical(w + "<" + t + "(" + l + ")" + ">", [Ty(w), Nested([Ty(t), Len(l)])]);
  }

  /** Shape of `ARRAY<STRUCT<x NUMERIC>>`: two levels of nesting closed by `>>`. */
  lemma DoublyNestedTypeShape(a: string, s: string, x: string, t: string)
    requires IsWord(a) && IsWord(s) && IsWord(x) && IsWord(t)
    ensures Tokenize(a + "<" + s + "<" + x + " " + t + ">" + ">")
         == Ok([Ty(a), Nested([Ty(s), Nested([Nm(x), Ty(t)])])])
  {
    SpellsNamedType(x, t);
    SpellsNested(s, [Nm(x), Ty(t)], x + " " + t);
    SpellsNested(a, [Ty(s), Nested([Nm(x), Ty(t)])], s + "<" + (x + " " + t) + ">");
    assert a + "<" + (s + "<" + (x + " " + t) + ">") + ">" == a + "<" + s + "<" + x + " " + t + ">" + ">";
    Canonical(a + "<" + s + "<" + x + " " + t + ">" + ">", [Ty(a), Nested([Ty(s), Nested([Nm(x), Ty(t)])])]);
  }

  /** Shape of `ARRAY<STRUCT<x NUMERIC(10,10)>>` */
  lemma DoublyNestedLengthShape(a: string, s: string, x: string, t: string, l: string)
    requires IsWord(a) && IsWord(s) && IsWord(x) && IsWord(t) && HasNoCloser(l)
    ensures Tokenize(a + "<" + s + "<" + x + " " + t + "(" + l + ")" + ">" + ">")
         == Ok([Ty(a), Nested([Ty(s), Nested([Nm(x), Ty(t), Len(l)])])])
  {
    var f := x + " " + t + "(" + l + ")";
    SpellsNamedLength(x, t, l);
    SpellsNested(s, [Nm(x), Ty(t), Len(l)], f);
    SpellsNested(a, [Ty(s), Nested([Nm(x), Ty(t), Len(l)])], s + "<" + f + ">");
    assert a + "<" + (s + "<" + f + ">") + ">" == a + "<" + s + "<" + x + " " + t + "(" + l + ")" + ">" + ">";
    Canonical(a + "<" + s + "<" + x + " " + t + "(" + l + ")" + ">" + ">",
              [Ty(a), Nested([Ty(s), Nested([Nm(x), Ty(t), Len(l)])])]);
  }

  /** Shape of `STRUCT<t NUMERIC(10,10)>` and `STRUCT<t NUMERIC(10)>` */
  lemma NestedNamedLengthShape(s: string, x: string, t: string, l: string)
    requires IsWord(s) && IsWord(x) && IsWord(t) && HasNoCloser(l)
    ensures Tokenize(s + "<" + x + " " + t + "(" + l + ")" + ">") == Ok([Ty(s), Nested([Nm(x), Ty(t), Len(l)])])
  {
    var f := x + " " + t + "(" + l + ")";
    SpellsNamedLength(x, t, l);
    SpellsNested(s, [Nm(x), Ty(t), Len(l)], f);
    Canonical(s + "<" + x + " " + t + "(" + l + ")" + ">", [Ty(s), Nested([Nm(x), Ty(t), Len(l)])]);
  }

  /** Shape of `col STRUCT<t NUMERIC(10,10)>` */
  lemma NamedNestedNamedLengthShape(n: string, s: string, x: string, t: string, l: string)
    requires IsWord(n) && IsWord(s) && IsWord(x) && IsWord(t) && HasNoCloser(l)
    ensures Tokenize(n + " " + s + "<" + x + " " + t + "(" + l + ")" + ">")
         == Ok([Nm(n), Ty(s), Nested([Nm(x), Ty(t), Len(l)])])
  {
    var f := x + " " + t + "(" + l + ")";
    SpellsNamedLength(x, t, l);
    SpellsNamedNested(n, s, [Nm(x), Ty(t), Len(l)], f);
    Canonical(n + " " + s + "<" + x + " " + t + "(" + l + ")" + ">", [Nm(n), Ty(s), Nested([Nm(x), Ty(t), Len(l)])]);
  }

  /** Shape of `STRUCT<t NUMERIC>`: a named type with neither length nor nested region. */
  lemma NestedNamedTypeShape(s: string, x: string, t: string)
    requires IsWord(s) && IsWord(x) && IsWord(t)
    ensures Tokenize(s + "<" + x + " " + t + ">") == Ok([Ty(s), Nested([Nm(x), Ty(t)])])
  {
    SpellsNamedType(x, t);
    SpellsNested(s, [Nm(x), Ty(t)], x + " " + t);
    Canonical(s + "<" + x + " " + t + ">", [Ty(s), Nested([Nm(x), Ty(t)])]);
  }

  /** Shape of `STRUCT<x STRUCT<y INTEGER,z INTEGER>>`: two fields separated by a delimiter in an inner region. */
  lemma TwoFieldsShape(s: string, x: string, y: string, z: string, t: string)
    requires IsWord(s) && IsWord(x) && IsWord(y) && IsWord(z) && IsWord(t)
    ensures Tokenize(s + "<" + x + " " + s + "<" + y + " " + t + "," + z + " " + t + ">" + ">")
         == Ok([Ty(s), Nested([Nm(x), Ty(s), Nested([Nm(y), Ty(t), Delim(), Nm(z), Ty(t)])])])
  {
    var inner := [Nm(y), Ty(t), Delim(), Nm(z), Ty(t)];
    var si := y + " " + t + "," + (z + " " + t);
    SpellsNamedType(y, t);
    SpellsNamedType(z, t);
    SpellsJoin([Nm(y), Ty(t)], y + " " + t, [Nm(z), Ty(t)], z + " " + t);
    assert [Nm(y), Ty(t)] + [Delim()] + [Nm(z), Ty(t)] == inner;
    SpellsNamedNested(x, s, inner, si);
    SpellsNested(s, [Nm(x), Ty(s), Nested(inner)], x + " " + s + "<" + si + ">");
    assert s + "<" + (x + " " + s + "<" + si + ">") + ">"
        == s + "<" + x + " " + s + "<" + y + " " + t + "," + z + " " + t + ">" + ">";
    Canonical(s + "<" + x + " " + s + "<" + y + " " + t + "," + z + " " + t + ">" + ">",
              [Ty(s), Nested([Nm(x), Ty(s), Nested(inner)])]);
  }

  /** `x n(l),y a<n(l)>`: two fields, the second with a nested region. */
  lemma SpellsLengthThenArray(x: string, y: string, a: string, n: string, l: string)
    requires IsWord(x) && IsWord(y) && IsWord(a) && IsWord(n) && HasNoCloser(l)
    ensures Spells([Nm(x), Ty(n), Len(l), Delim(), Nm(y), Ty(a), Nested([Ty(n), Len(l)])],
                   x + " " + n + "(" + l + ")" + "," + y + " " + a + "<" + n + "(" + l + ")" + ">")
  {
    SpellsNamedLength(x, n, l);
    SpellsLength(n, l);
    SpellsNamedNested(y, a, [Ty(n), Len(l)], n + "(" + l + ")");
    SpellsJoin([Nm(x), Ty(n), Len(l)], x + " " + n + "(" + l + ")",
               [Nm(y), Ty(a), Nested([Ty(n), Len(l)])], y + " " + a + "<" + (n + "(" + l + ")") + ">");
    assert [Nm(x), Ty(n), Len(l)] + [Delim()] + [Nm(y), Ty(a), Nested([Ty(n), Len(l)])]
        == [Nm(x), Ty(n), Len(l), Delim(), Nm(y), Ty(a), Nested([Ty(n), Len(l)])];
    RegroupLengthThenArray(x + " " + n + "(" + l + ")" + ",", y, a, n, l);
  }

  lemma RegroupLengthThenArray(f: string, y: string, a: string, n: string, l: string)
    ensures f + (y + " " + a + "<" + (n + "(" + l + ")") + ">") == f + y + " " + a + "<" + n + "(" + l + ")" + ">"
  {
  }

  /** `P, z s<P>>`: a region, a delimiter with a blank after it, and a last field nesting the same region. */
  lemma SpacedRepeatRegion(p: seq<Token>, sp: string, z: string, s: string)
    requires Spells(p, sp) && IsWord(z) && IsWord(s)
    ensures ParseFields(sp + ("," + (" " + (z + " " + s + "<" + sp + ">" + ">"))))
         == Ok((p + [Delim(), Nm(z), Ty(s), Nested(p)], ">"))
  {
    var q := [Nm(z), Ty(s), Nested(p)];
    var sq := z + " " + s + "<" + sp + ">";
    SpellsNamedNested(z, s, p, sp);
    RenderedFieldsParse(q, ">");
    LeadingSpacesIgnored(" ", sq + ">");
    RenderedFieldsThen(p, " " + (sq + ">"), q, ">");
    AppendDelimited(p, Nm(z), Ty(s), Nested(p));
  }

  lemma AppendDelimited(p: seq<Token>, a: Token, b: Token, c: Token)
    ensures p + [Delim()] + [a, b, c] == p + [Delim(), a, b, c]
  {
  }

  /** `a<s<P, z s<P>>`: the `<` of `a` has no `>` of its own and is closed by the end of the input. */
  lemma UnclosedOuterRegion(p: seq<Token>, sp: string, a: string, s: string, z: string)
    requires Spells(p, sp) && IsWord(a) && IsWord(s) && IsWord(z)
    ensures Tokenize(a + "<" + s + "<" + sp + "," + " " + z + " " + s + "<" + sp + ">" + ">")
         == Ok([Ty(a), Nested([Ty(s), Nested(p + [Delim(), Nm(z), Ty(s), Nested(p)])])])
  {
    var body := sp + ("," + (" " + (z + " " + s + "<" + sp + ">" + ">")));
    var f := p + [Delim(), Nm(z), Ty(s), Nested(p)];
    SpacedRepeatRegion(p, sp, z, s);
    assert ">" + [] == ">";
    NestedField(s, body, f, []);
    LastField(s + "<" + body, [Ty(s), Nested(f)], []);
    UnclosedNestedField(a, s + "<" + body, [Ty(s), Nested(f)]);
    LastField(a + "<" + (s + "<" + body), [Ty(a), Nested([Ty(s), Nested(f)])], []);
    RegroupUnclosed(a, s, sp, z);
  }

  lemma RegroupUnclosed(a: string, s: string, sp: string, z: string)
    ensures a + "<" + (s + "<" + (sp + ("," + (" " + (z + " " + s + "<" + sp + ">" + ">")))))
         == a + "<" + s + "<" + sp + "," + " " + z + " " + s + "<" + sp + ">" + ">"
  {
    var t := z + " " + s + "<" + sp + ">" + ">";
    var p := a + "<" + s + "<" + sp + "," + " ";
    calc {
      a + "<" + (s + "<" + (sp + ("," + (" " + t))));
      a + "<" + s + "<" + (sp + ("," + (" " + t)));
      a + "<" + s + "<" + sp + ("," + (" " + t));
      a + "<" + s + "<" + sp + "," + (" " + t);
      p + t;
      p + (z + " " + s + "<" + sp + ">") + ">";
      p + (z + " " + s + "<" + sp) + ">" + ">";
      p + (z + " " + s + "<") + sp + ">" + ">";
      p + (z + " " + s) + "<" + sp + ">" + ">";
      p + (z + " ") + s + "<" + sp + ">" + ">";
      p + z + " " + s + "<" + sp + ">" + ">";
    }
  }

  /**
    Shape of `ARRAY<STRUCT<x NUMERIC(10,10),y ARRAY<NUMERIC(10,10)>, z STRUCT<x NUMERIC(10,10),y ARRAY<NUMERIC(10,10)>>>`:
    a blank after a delimiter is skipped, and the outermost region, which has
    no `>` of its own, is closed by the end of the input.
  */
  lemma UnbalancedStructShape(a: string, s: string, x: string, y: string, z: string, n: string, l: string)
    requires IsWord(a) && IsWord(s) && IsWord(x) && IsWord(y) && IsWord(z) && IsWord(n) && HasNoCloser(l)
    ensures var sp := x + " " + n + "(" + l + ")" + "," + y + " " + a + "<" + n + "(" + l + ")" + ">";
      var p := [Nm(x), Ty(n), Len(l), Delim(), Nm(y), Ty(a), Nested([Ty(n), Len(l)])];
      Tokenize(a + "<" + s + "<" + sp + "," + " " + z + " " + s + "<" + sp + ">" + ">")
      == Ok([Ty(a), Nested([Ty(s), Nested(p + [Delim(), Nm(z), Ty(s), Nested(p)])])])
  {
    SpellsLengthThenArray(x, y, a, n, l);
    UnclosedOuterRegion([Nm(x), Ty(n), Len(l), Delim(), Nm(y), Ty(a), Nested([Ty(n), Len(l)])],
                        x + " " + n + "(" + l + ")" + "," + y + " " + a + "<" + n + "(" + l + ")" + ">", a, s, z);
  }

  /** The words of the test cases. */
  lemma TestWords()
    ensures IsWord("col") && IsWord("ARRAY") && IsWord("STRING") && IsWord("NUMERIC") && IsWord("INTEGER")
    ensures IsWord("STRUCT") && IsWord("x") && IsWord("y") && IsWord("z") && IsWord("t")
  {
    WordCol(); WordArray(); WordString(); WordNumeric(); WordInteger();
    WordStruct(); WordX(); WordY(); WordZ(); WordT();
  }

  lemma WordCol() ensures IsWord("col") { WordOf("col"); }
  lemma WordArray() ensures IsWord("ARRAY") { WordOf("ARRAY"); }
  lemma WordString() ensures IsWord("STRING") { WordOf("STRING"); }
  lemma WordNumeric() ensures IsWord("NUMERIC") { WordOf("NUMERIC"); }
  lemma WordInteger() ensures IsWord("INTEGER") { WordOf("INTEGER"); }
  lemma WordStruct() ensures IsWord("STRUCT") { WordOf("STRUCT"); }
  lemma WordX() ensures IsWord("x") { WordOf("x"); }
  lemma WordY() ensures IsWord("y") { WordOf("y"); }
  lemma WordZ() ensures IsWord("z") { WordOf("z"); }
  lemma WordT() ensures IsWord("t") { WordOf("t"); }

  /** The lengths of the test cases. */
  lemma TestLengths()
    ensures HasNoCloser("123245") && HasNoCloser("10,10") && HasNoCloser("10")
  {
    LengthOfString(); LengthOfNumeric(); PrecisionOfNumeric();
  }

  lemma LengthOfString() ensures HasNoCloser("123245") { NoCloserOf("123245"); }
  lemma LengthOfNumeric() ensures HasNoCloser("10,10") { NoCloserOf("10,10"); }
  lemma PrecisionOfNumeric() ensures HasNoCloser("10") { NoCloserOf("10"); }

  /* ---------------------------------------------------------------------- */
  /* The test cases with the test's own words                               */
  /* ---------------------------------------------------------------------- */

  /** `col ARRAY<STRING>` */
  lemma ArrayOfString()
    ensures Tokenize("col" + " " + "ARRAY" + "<" + "STRING" + ">")
         == Ok([Nm("col"), Ty("ARRAY"), Nested([Ty("STRING")])])
  {
    TestWords();
    NamedNestedTypeShape("col", "ARRAY", "STRING");
  }

  /** `col ARRAY<STRING(123245)>` */
  lemma ArrayOfStringWithLength()
    ensures Tokenize("col" + " " + "ARRAY" + "<" + "STRING" + "(" + "123245" + ")" + ">")
         == Ok([Nm("col"), Ty("ARRAY"), Nested([Ty("STRING"), Len("123245")])])
  {
    TestWords(); TestLengths();
    NamedNestedLengthShape("col", "ARRAY", "STRING", "123245");
  }

  /** `ARRAY<NUMERIC(10,10)>` */
  lemma ArrayOfNumeric()
    ensures Tokenize("ARRAY" + "<" + "NUMERIC" + "(" + "10,10" + ")" + ">")
         == Ok([Ty("ARRAY"), Nested([Ty("NUMERIC"), Len("10,10")])])
  {
    TestWords(); TestLengths();
    NestedLengthShape("ARRAY", "NUMERIC", "10,10");
  }

  /** `ARRAY<STRUCT<x NUMERIC>>` */
  lemma ArrayOfStruct()
    ensures Tokenize("ARRAY" + "<" + "STRUCT" + "<" + "x" + " " + "NUMERIC" + ">" + ">")
         == Ok([Ty("ARRAY"), Nested([Ty("STRUCT"), Nested([Nm("x"), Ty("NUMERIC")])])])
  {
    TestWords();
    DoublyNestedTypeShape("ARRAY", "STRUCT", "x", "NUMERIC");
  }

  /** `ARRAY<STRUCT<x NUMERIC(10,10)>>` */
  lemma ArrayOfStructWithLength()
    ensures Tokenize("ARRAY" + "<" + "STRUCT" + "<" + "x" + " " + "NUMERIC" + "(" + "10,10" + ")" + ">" + ">")
         == Ok([Ty("ARRAY"), Nested([Ty("STRUCT"), Nested([Nm("x"), Ty("NUMERIC"), Len("10,10")])])])
  {
    TestWords(); TestLengths();
    DoublyNestedLengthShape("ARRAY", "STRUCT", "x", "NUMERIC", "10,10");
  }

  /**
    `ARRAY<STRUCT<x NUMERIC(10,10),y ARRAY<NUMERIC(10,10)>, z STRUCT<x NUMERIC(10,10),y ARRAY<NUMERIC(10,10)>>>`;
    the field list `x NUMERIC(10,10),y ARRAY<NUMERIC(10,10)>` occurs twice and is named `sp`.
  */
  lemma UnbalancedArrayOfStruct()
    ensures var sp := "x" + " " + "NUMERIC" + "(" + "10,10" + ")" + "," + "y" + " " + "ARRAY" + "<" + "NUMERIC" + "(" + "10,10" + ")" + ">";
      var p := [Nm("x"), Ty("NUMERIC"), Len("10,10"), Delim(), Nm("y"), Ty("ARRAY"), Nested([Ty("NUMERIC"), Len("10,10")])];
      Tokenize("ARRAY" + "<" + "STRUCT" + "<" + sp + "," + " " + "z" + " " + "STRUCT" + "<" + sp + ">" + ">")
      == Ok([Ty("ARRAY"), Nested([Ty("STRUCT"), Nested(p + [Delim(), Nm("z"), Ty("STRUCT"), Nested(p)])])])
  {
    TestWords(); TestLengths();
    UnbalancedStructShape("ARRAY", "STRUCT", "x", "y", "z", "NUMERIC", "10,10");
  }

  /** `STRUCT<t NUMERIC(10,10)>` */
  lemma StructWithLength()
    ensures Tokenize("STRUCT" + "<" + "t" + " " + "NUMERIC" + "(" + "10,10" + ")" + ">")
         == Ok([Ty("STRUCT"), Nested([Nm("t"), Ty("NUMERIC"), Len("10,10")])])
  {
    TestWords(); TestLengths();
    NestedNamedLengthShape("STRUCT", "t", "NUMERIC", "10,10");
  }

  /** `col STRUCT<t NUMERIC(10,10)>` */
  lemma NamedStructWithLength()
    ensures Tokenize("col" + " " + "STRUCT" + "<" + "t" + " " + "NUMERIC" + "(" + "10,10" + ")" + ">")
         == Ok([Nm("col"), Ty("STRUCT"), Nested([Nm("t"), Ty("NUMERIC"), Len("10,10")])])
  {
    TestWords(); TestLengths();
    NamedNestedNamedLengthShape("col", "STRUCT", "t", "NUMERIC", "10,10");
  }

  /** `STRUCT<t NUMERIC(10)>` */
  lemma StructWithPrecision()
    ensures Tokenize("STRUCT" + "<" + "t" + " " + "NUMERIC" + "(" + "10" + ")" + ">")
         == Ok([Ty("STRUCT"), Nested([Nm("t"), Ty("NUMERIC"), Len("10")])])
  {
    TestWords(); TestLengths();
    NestedNamedLengthShape("STRUCT", "t", "NUMERIC", "10");
  }

  /** `STRUCT<t NUMERIC>` */
  lemma StructOfType()
    ensures Tokenize("STRUCT" + "<" + "t" + " " + "NUMERIC" + ">")
         == Ok([Ty("STRUCT"), Nested([Nm("t"), Ty("NUMERIC")])])
  {
    TestWords();
    NestedNamedTypeShape("STRUCT", "t", "NUMERIC");
  }

  /** `STRUCT<x STRUCT<y INTEGER,z INTEGER>>` */
  lemma StructOfStruct()
    ensures Tokenize("STRUCT" + "<" + "x" + " " + "STRUCT" + "<" + "y" + " " + "INTEGER" + "," + "z" + " " + "INTEGER" + ">" + ">")
         == Ok([Ty("STRUCT"), Nested([Nm("x"), Ty("STRUCT"), Nested([Nm("y"), Ty("INTEGER"), Delim(), Nm("z"), Ty("INTEGER")])])])
  {
    TestWords();
    TwoFieldsShape("STRUCT", "x", "y", "z", "INTEGER");
  }
}
