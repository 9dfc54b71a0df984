/**
  `BigqueryQuote`: quoting a value as a BigQuery string literal and a name as
  a BigQuery identifier.

  The quoting class itself is not part of this model; its behaviour is the one
  its unit test fixes. A literal is wrapped in single quotes with every single
  quote escaped by a backslash; an identifier is wrapped in backticks, with any
  other character, a backslash or a double quote included, kept as it is. The
  test says nothing about a backslash in a literal or a backtick in an
  identifier, so those inputs are outside the domain here.
*/
module BigqueryQuote {
  import opened Results

  const SingleQuote := '\''
  const Backslash := '\\'
  const Backtick := '`'

  predicate HasNo(s: string, c: char) {
    forall i :: 0 <= i < |s| ==> s[i] != c
  }

  /** The number of single quotes in `s`. */
  function QuoteCount(s: string): nat {
    if s == [] then 0 else (if s[0] == SingleQuote then 1 else 0) + QuoteCount(s[1..])
  }

  /** Every single quote preceded by a backslash. */
  function Escape(s: string): (r: string)
    ensures |r| == |s| + QuoteCount(s)
  {
    if s == [] then []
    else (if s[0] == SingleQuote then [Backslash, SingleQuote] else [s[0]]) + Escape(s[1..])
  }

  /**
    An escaped interior: every single quote sits directly after a backslash and
    every backslash directly before a single quote, so the literal cannot end
    early.
  */
  predicate WellEscaped(r: string) {
    (forall i :: 0 <= i < |r| && r[i] == SingleQuote ==> i > 0 && r[i - 1] == Backslash)
    && (forall i :: 0 <= i < |r| && r[i] == Backslash ==> i + 1 < |r| && r[i + 1] == SingleQuote)
  }

  /** `BigqueryQuote::quote` on the inputs its test covers: no backslash. */
  function Quote(value: string): (r: string)
    requires HasNo(value, Backslash)
    ensures |r| == |value| + QuoteCount(value) + 2
    ensures r[0] == SingleQuote && r[|r| - 1] == SingleQuote
    ensures WellEscaped(r[1..|r| - 1])
  {
    EscapeWellEscaped(value);
    var r := [SingleQuote] + Escape(value) + [SingleQuote];
    assert r[1..|r| - 1] == Escape(value);
    r
  }

  /** `BigqueryQuote::quoteSingleIdentifier` on the inputs its test covers: no backtick. */
  function QuoteIdentifier(name: string): (r: string)
    requires HasNo(name, Backtick)
    ensures |r| == |name| + 2 && r[0] == Backtick && r[|r| - 1] == Backtick
    ensures r[1..|r| - 1] == name
  {
    [Backtick] + name + [Backtick]
  }

  /* ---------------------------------------------------------------------- */
  /* Decoding                                                               */
  /* ---------------------------------------------------------------------- */

  /** Reads an escaped interior back; a lone quote or a backslash not before a quote is rejected. */
  function Unescape(r: string): (s: Option<string>)
    decreases |r|
  {
    if r == [] then Some([])
    else if r[0] == Backslash then
      if |r| >= 2 && r[1] == SingleQuote then
        match Unescape(r[2..])
        case Some(t) => Some([SingleQuote] + t)
        case None => None
      else None
    else if r[0] == SingleQuote then None
    else
      match Unescape(r[1..])
      case Some(t) => Some([r[0]] + t)
      case None => None
  }

  /** Reads a quoted literal back. */
  function Unquote(r: string): (s: Option<string>) {
    if |r| >= 2 && r[0] == SingleQuote && r[|r| - 1] == SingleQuote then Unescape(r[1..|r| - 1]) else None
  }

  function UnquoteIdentifier(r: string): (s: Option<string>) {
    if |r| >= 2 && r[0] == Backtick && r[|r| - 1] == Backtick && HasNo(r[1..|r| - 1], Backtick)
    then Some(r[1..|r| - 1])
    else None
  }

  /* ---------------------------------------------------------------------- */
  /* Properties                                                             */
  /* ---------------------------------------------------------------------- */

  lemma {:induction false} EscapeAppend(a: string, b: string)
    ensures Escape(a + b) == Escape(a) + Escape(b)
    ensures QuoteCount(a + b) == QuoteCount(a) + QuoteCount(b)
  {
    if a != [] {
      var head := if a[0] == SingleQuote then [Backslash, SingleQuote] else [a[0]];
      assert (a + b)[0] == a[0];
      assert (a + b)[1..] == a[1..] + b;
      EscapeAppend(a[1..], b);
      assert Escape(a + b) == head + (Escape(a[1..]) + Escape(b));
    } else {
      assert a + b == b;
    }
  }

  /** Without single quotes, escaping changes nothing. */
  lemma {:induction false} EscapeWithoutQuotes(s: string)
    requires HasNo(s, SingleQuote)
    ensures Escape(s) == s
  {
    if s != [] {
      EscapeWithoutQuotes(s[1..]);
    }
  }

  lemma {:induction false} EscapeWellEscaped(s: string)
    requires HasNo(s, Backslash)
    ensures WellEscaped(Escape(s))
  {
    if s != [] {
      EscapeWellEscaped(s[1..]);
      var head := if s[0] == SingleQuote then [Backslash, SingleQuote] else [s[0]];
      var t := Escape(s[1..]);
      assert Escape(s) == head + t;
      forall i | 0 <= i < |head + t| && (head + t)[i] == SingleQuote
        ensures i > 0 && (head + t)[i - 1] == Backslash
      {
        if i >= |head| {
          assert (head + t)[i] == t[i - |head|];
          if i - |head| > 0 {
            assert (head + t)[i - 1] == t[i - |head| - 1];
          }
        }
      }
      forall i | 0 <= i < |head + t| && (head + t)[i] == Backslash
        ensures i + 1 < |head + t| && (head + t)[i + 1] == SingleQuote
      {
        if i >= |head| {
          assert (head + t)[i] == t[i - |head|];
          assert (head + t)[i + 1] == t[i + 1 - |head|];
        }
      }
    }
  }

  /** Decoding an escaped string gives the string back. */
  lemma {:induction false} UnescapeEscape(s: string)
    requires HasNo(s, Backslash)
    ensures Unescape(Escape(s)) == Some(s)
  {
    if s != [] {
      UnescapeEscape(s[1..]);
      var t := Escape(s[1..]);
      if s[0] == SingleQuote {
        assert Escape(s) == [Backslash, SingleQuote] + t;
        assert (Escape(s))[2..] == t;
      } else {
        assert Escape(s) == [s[0]] + t;
        assert (Escape(s))[1..] == t;
      }
      assert s == [s[0]] + s[1..];
    }
  }

  /** Whatever decodes was produced by escaping what it decodes to. */
  lemma {:induction false} EscapeUnescape(r: string)
    requires Unescape(r).Some?
    ensures HasNo(Unescape(r).value, Backslash)
    ensures Escape(Unescape(r).value) == r
    decreases |r|
  {
    if r != [] {
      var s := Unescape(r).value;
      if r[0] == Backslash {
        EscapeUnescape(r[2..]);
        assert s == [SingleQuote] + Unescape(r[2..]).value;
        assert s[1..] == Unescape(r[2..]).value;
        assert r == [Backslash, SingleQuote] + r[2..];
      } else {
        EscapeUnescape(r[1..]);
        assert s == [r[0]] + Unescape(r[1..]).value;
        assert s[1..] == Unescape(r[1..]).value;
        assert r == [r[0]] + r[1..];
      }
    }
  }

  /** A quoted literal reads back as the value. */
  lemma UnquoteQuote(value: string)
    requires HasNo(value, Backslash)
    ensures Unquote(Quote(value)) == Some(value)
  {
    var r := Quote(value);
    assert r[1..|r| - 1] == Escape(value);
    UnescapeEscape(value);
  }

  /** A string that reads back as a value is exactly that value's quoted literal. */
  lemma QuoteUnquote(r: string)
    requires Unquote(r).Some?
    ensures HasNo(Unquote(r).value, Backslash)
    ensures Quote(Unquote(r).value) == r
  {
    var m := r[1..|r| - 1];
    EscapeUnescape(m);
    var value := Unquote(r).value;
    assert Escape(value) == m;
    assert Quote(value) == [SingleQuote] + m + [SingleQuote];
    assert r == [SingleQuote] + m + [SingleQuote];
  }

  /** Distinct values get distinct literals. */
  lemma QuoteInjective(a: string, b: string)
    requires HasNo(a, Backslash) && HasNo(b, Backslash)
    requires Quote(a) == Quote(b)
    ensures a == b
  {
    UnquoteQuote(a);
    UnquoteQuote(b);
  }

  lemma UnquoteIdentifierQuote(name: string)
    requires HasNo(name, Backtick)
    ensures UnquoteIdentifier(QuoteIdentifier(name)) == Some(name)
  {
  }

  /** A backtick-quoted identifier reads back, and quoting the result gives the same text. */
  lemma QuoteIdentifierUnquote(r: string)
    requires UnquoteIdentifier(r).Some?
    ensures QuoteIdentifier(UnquoteIdentifier(r).value) == r
  {
    assert r == [Backtick] + r[1..|r| - 1] + [Backtick];
  }

  /* ---------------------------------------------------------------------- */
  /* Test cases of tests/Unit/Escaping/BigqueryQuoteTest.php                */
  /* ---------------------------------------------------------------------- */

  lemma EscapeQuote()
    ensures Escape("'") == "\\'"
  {
  }

  /** A value without single quotes is only wrapped. */
  lemma NoQuotesShape(value: string)
    requires HasNo(value, SingleQuote) && HasNo(value, Backslash)
    ensures Quote(value) == "'" + value + "'"
  {
    EscapeWithoutQuotes(value);
  }

  /** A single quote after quote-free text is escaped; the rest is escaped on its own. */
  lemma EscapeAfterPlain(x: string, y: string)
    requires HasNo(x, SingleQuote)
    ensures Escape(x + "'" + y) == x + "\\'" + Escape(y)
  {
    EscapeWithoutQuotes(x);
    EscapeQuote();
    EscapeAppend(x, "'" + y);
    EscapeAppend("'", y);
    assert x + "'" + y == x + ("'" + y);
  }

  lemma RegroupTwoQuotes(a: string, b: string, c: string, q: string)
    ensures a + q + b + q + c == a + q + (b + q + c)
    ensures "'" + (a + "\\'" + (b + "\\'" + c)) + "'" == "'" + a + "\\'" + b + "\\'" + c + "'"
  {
  }

  /** A value with two single quotes: each is escaped, nothing else changes. */
  lemma TwoQuotesShape(a: string, b: string, c: string)
    requires HasNo(a, SingleQuote) && HasNo(b, SingleQuote) && HasNo(c, SingleQuote)
    requires HasNo(a + "'" + b + "'" + c, Backslash)
    ensures Quote(a + "'" + b + "'" + c) == "'" + a + "\\'" + b + "\\'" + c + "'"
  {
    RegroupTwoQuotes(a, b, c, "'");
    EscapeAfterPlain(a, b + "'" + c);
    EscapeAfterPlain(b, c);
    EscapeWithoutQuotes(c);
  }

  /** `valueToQuote` becomes `'valueToQuote'`. */
  lemma QuoteSimpleVector()
    ensures Quote("valueToQuote") == "'" + "valueToQuote" + "'"
  {
    NoQuotesShape("valueToQuote");
  }

  /** `value'To'Quote` becomes `'value\'To\'Quote'`. */
  lemma QuoteEscapingVector()
    ensures Quote("value" + "'" + "To" + "'" + "Quote") == "'" + "value" + "\\'" + "To" + "\\'" + "Quote" + "'"
  {
    TwoQuotesShape("value", "To", "Quote");
  }

  /** `va[l.u]e']To'[Q][uo.t[]e` becomes `'va[l.u]e\']To\'[Q][uo.t[]e'`: brackets and dots are not special. */
  lemma QuoteComplexVector()
    ensures Quote("va[l.u]e" + "'" + "]To" + "'" + "[Q][uo.t[]e") == "'" + "va[l.u]e" + "\\'" + "]To" + "\\'" + "[Q][uo.t[]e" + "'"
  {
    TwoQuotesShape("va[l.u]e", "]To", "[Q][uo.t[]e");
  }

  /** `valueToQuote` becomes `` `valueToQuote` ``. */
  lemma QuoteIdentifierSimpleVector()
    ensures QuoteIdentifier("valueToQuote") == "`valueToQuote`"
  {
  }

  /** A double quote inside an identifier is kept: `abc"def` becomes `` `abc"def` ``. */
  lemma QuoteIdentifierDoubleQuoteVector()
    ensures QuoteIdentifier("abc\"def") == "`abc\"def`"
  {
  }

  /** A backslash inside an identifier is kept too: `value\"ToQuote` becomes `` `value\"ToQuote` ``. */
  lemma QuoteIdentifierBackslashVector()
    ensures QuoteIdentifier("value\\\"ToQuote") == "`value\\\"ToQuote`"
  {
  }
}
