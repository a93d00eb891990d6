/** The outcomes that the unit tests of the tokenizer pin down, derived from
    the general lemmas: each test line is matched with a general shape, and
    the trimmed literals are worked out separately. */
module BasicInputParseExamples {
  import opened Trimming
  import opened CommaSplit
  import opened BasicInputParse

  /** A quote-free line with exactly two pieces, the second non-empty. */
  lemma QuoteFreeTwoPieces(s: string, a: string, b: string)
    requires '"' !in s && Split(s) == [a, b] && b != []
    ensures ParseSpec(s) == [Trim(a), Trim(b)]
  {
    QuoteFreeIsSplitTrim(s);
    assert TrimAll([a]) == [Trim(a)];
  }

  /** Two comma-free, quote-free pieces around one comma. */
  lemma TwoPieces(a: string, b: string)
    requires ',' !in a && ',' !in b && '"' !in a && '"' !in b && b != []
    ensures ParseSpec(a + [','] + b) == [Trim(a), Trim(b)]
  {
    SplitAtFirstComma(a, b);
    SplitNoComma(b);
    QuoteFreeTwoPieces(a + [','] + b, a, b);
  }

  /** A quoted field opened in the second piece of `p`. */
  lemma QuotedInSecondPiece(p: string, a: string, b: string, q: string, t: string)
    requires '"' !in p && '"' !in q && '"' !in t && Split(p) == [a, b] && DropComma(t) != []
    ensures ParseSpec(p + ['"'] + q + ['"'] + t) == [Trim(a), Trim(b + q), Trim(DropComma(t))]
  {
    QuotedField(p, q, t);
    var pieces := Split(p);
    assert pieces[..|pieces| - 1] == [a] && pieces[|pieces| - 1] == b;
    assert TrimAll([a]) == [Trim(a)];
  }

  /** A first piece, then a quoted field opened after a comma and closed
      just before another comma, then a tail. */
  lemma QuotedAfterComma(a: string, b: string, q: string, t: string)
    requires ',' !in a && ',' !in b
    requires '"' !in a && '"' !in b && '"' !in q && '"' !in t && t != []
    ensures ParseSpec(a + [','] + b + ['"'] + q + ['"'] + ([','] + t)) == [Trim(a), Trim(b + q), Trim(t)]
  {
    SplitAtFirstComma(a, b);
    SplitNoComma(b);
    assert DropComma([','] + t) == t;
    QuotedInSecondPiece(a + [','] + b, a, b, q, [','] + t);
  }

  /** An unclosed quote opened in the second piece of `p`. */
  lemma UnterminatedInSecondPiece(p: string, a: string, b: string, t: string)
    requires '"' !in p && '"' !in t && Split(p) == [a, b] && b + t != []
    ensures ParseSpec(p + ['"'] + t) == [Trim(a), Trim(b + t)]
  {
    UnterminatedQuote(p, t);
    var pieces := Split(p);
    assert pieces[..|pieces| - 1] == [a] && pieces[|pieces| - 1] == b;
    assert TrimAll([a]) == [Trim(a)];
  }

  /** A first piece, then a quote opened after a comma and never closed. */
  lemma UnterminatedAfterComma(a: string, b: string, t: string)
    requires ',' !in a && ',' !in b && '"' !in a && '"' !in b && '"' !in t && t != []
    ensures ParseSpec(a + [','] + b + ['"'] + t) == [Trim(a), Trim(b + t)]
  {
    SplitAtFirstComma(a, b);
    SplitNoComma(b);
    UnterminatedInSecondPiece(a + [','] + b, a, b, t);
  }

  lemma TwoValuesTrimmed()
    ensures Trim("123") == "123" && Trim(" 456") == "456"
  {
    assert IsTrimmed("123");
    assert IsTrimmed("456");
    TrimLeadingSpace("456");
    assert [' '] + "456" == " 456";
  }

  lemma QuotedValueTrimmed()
    ensures Trim(" " + "456,789") == "456,789" && Trim(" 10") == "10"
  {
    assert IsTrimmed("456,789");
    TrimLeadingSpace("456,789");
    assert IsTrimmed("10");
    TrimLeadingSpace("10");
    assert [' '] + "10" == " 10";
  }

  lemma MissingClosingQuoteTrimmed()
    ensures Trim(" " + "456,789, 10") == "456,789, 10"
  {
    assert IsTrimmed("456,789, 10");
    TrimLeadingSpace("456,789, 10");
  }

  /** A single value is a single field. */
  lemma SingleValue()
    ensures ParseSpec("123") == ["123"]
  {
    QuoteFreeIsSplitTrim("123");
    SplitNoComma("123");
    assert IsTrimmed("123");
  }

  /** Two comma-separated values; the space after the comma is trimmed. */
  lemma TwoValues()
    ensures ParseSpec("123, 456") == ["123", "456"]
  {
    assert "123, 456" == "123" + [','] + " 456";
    TwoPieces("123", " 456");
    TwoValuesTrimmed();
  }

  /** A comma inside quotes stays in its field. */
  lemma QuotedValue()
    ensures ParseSpec("123, \"456,789\", 10") == ["123", "456,789", "10"]
  {
    assert "123, \"456,789\", 10" == "123" + [','] + " " + ['"'] + "456,789" + ['"'] + ([','] + " 10");
    QuotedAfterComma("123", " ", "456,789", " 10");
    TwoValuesTrimmed();
    QuotedValueTrimmed();
  }

  /** Without a closing quote, the rest of the line is one field. */
  lemma MissingClosingQuote()
    ensures ParseSpec("123, \"456,789, 10") == ["123", "456,789, 10"]
  {
    assert "123, \"456,789, 10" == "123" + [','] + " " + ['"'] + "456,789, 10";
    UnterminatedAfterComma("123", " ", "456,789, 10");
    TwoValuesTrimmed();
    MissingClosingQuoteTrimmed();
  }

  /** A line that is a lone quote gives no field at all. */
  lemma LoneQuote()
    ensures ParseSpec("\"") == []
  {
    UnterminatedQuote("", "");
    assert "" + ['"'] + "" == "\"";
  }

  /** Text in front of an opening quote is not cleared: it joins the quoted text. */
  lemma TextBeforeQuoteKept()
    ensures ParseSpec("ab\"cd") == ["abcd"]
  {
    assert "ab\"cd" == "ab" + ['"'] + "cd";
    UnterminatedQuote("ab", "cd");
    SplitNoComma("ab");
    assert "ab" + "cd" == "abcd";
    assert IsTrimmed("abcd");
  }

  /** After a closed quote, `,"x"` emits an empty field and then `x`. */
  lemma ReopenAfterClosedQuote(s: string, fields: seq<string>, x: char)
    requires Run(s) == Scan(fields, [], true, true) && x != ',' && x != '"'
    ensures ParseSpec(s + [','] + ['"'] + [x] + ['"']) == fields + [Trim([]), Trim([x])]
  {
    RunSnoc(s, ',');
    RunSnoc(s + [','], '"');
    RunSnoc(s + [','] + ['"'], x);
    RunSnoc(s + [','] + ['"'] + [x], '"');
    assert [] + [x] == [x];
  }

  /** A quoted `a` on its own is emitted as a field, with a comma pending. */
  lemma QuotedA()
    ensures Run([] + ['"'] + "a" + ['"']) == Scan(["a"], [], true, true)
  {
    ClosedQuoteRun([], "a");
    SplitNoComma([]);
    assert [] + "a" == "a" && IsTrimmed("a");
  }

  /** Because the quote flag is never lowered, the opening quote of a second
      quoted value closes an empty field. */
  lemma SecondQuotedValue()
    ensures ParseSpec("\"a\",\"b\"") == ["a", "", "b"]
  {
    var closed := [] + ['"'] + "a" + ['"'];
    QuotedA();
    ReopenAfterClosedQuote(closed, ["a"], 'b');
    assert IsTrimmed([]) && IsTrimmed("b");
    assert "\"a\",\"b\"" == closed + [','] + ['"'] + ['b'] + ['"'];
  }

  /** The comma a closing quote leaves pending is dropped: it appears in no field. */
  lemma PendingCommaDropped()
    ensures ParseSpec("\"a\",b") == ["a", "b"]
  {
    var closed := [] + ['"'] + "a" + ['"'];
    QuotedA();
    RunSnoc(closed, ',');
    RunSnoc(closed + [','], 'b');
    assert [] + "b" == "b" && IsTrimmed("b");
    assert "\"a\",b" == closed + [','] + ['b'];
  }
}
