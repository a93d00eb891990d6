/** The `INPUT` line tokenizer of the shared `basic_input` crate: a response
    line is cut into fields at commas, double quotes group text so that its
    commas are kept, the quote characters themselves are dropped and every
    field is trimmed. */
module BasicInputParse {
  import opened Trimming
  import opened CommaSplit

  /** The variables of the scanning loop: the fields emitted so far, the
      field being accumulated, and the two flags. */
  datatype Scan = Scan(result: seq<string>, current: string, inQuote: bool, needComma: bool)

  /** The loop's state before the first character. */
  const Start: Scan := Scan([], [], false, false)

  /** One iteration of the loop: the five arms of the `match (ch, in_quote)`. */
  function Step(st: Scan, ch: char): Scan {
    if ch == ',' && !st.inQuote then
      // an unquoted comma ends the field
      st.(result := st.result + [Trim(st.current)], current := [])
    else if ch == '"' && st.inQuote then
      // a quote while quoting ends the field and swallows the next comma
      st.(result := st.result + [Trim(st.current)], current := [], needComma := true)
    else if ch == '"' then
      // the first quote only raises the flag; it is never lowered again
      st.(inQuote := true)
    else if ch == ',' && st.needComma then
      st.(needComma := false)
    else
      st.(current := st.current + [ch])
  }

  /** The loop's state after the characters of `s`. */
  function Run(s: string): Scan
    decreases |s|
  {
    if s == [] then Start else Step(Run(s[..|s| - 1]), s[|s| - 1])
  }

  /** After the loop: a non-empty (untrimmed) accumulator becomes the last field. */
  function Finish(st: Scan): seq<string> {
    if st.current != [] then st.result + [Trim(st.current)] else st.result
  }

  /** The loop consumes the characters in order. */
  lemma RunSnoc(s: string, c: char)
    ensures Run(s + [c]) == Step(Run(s), c)
  {
    assert (s + [c])[..|s|] == s;
  }

  /** What `parse` returns for `s`. */
  function ParseSpec(s: string): seq<string> {
    Finish(Run(s))
  }

  /** Every field is trimmed and holds no `"`. */
  predicate CleanFields(fields: seq<string>) {
    forall i :: 0 <= i < |fields| ==> IsTrimmed(fields[i]) && '"' !in fields[i]
  }

  /** Trims every piece. */
  function TrimAll(pieces: seq<string>): (r: seq<string>)
    ensures |r| == |pieces|
    decreases |pieces|
  {
    if pieces == [] then [] else TrimAll(pieces[..|pieces| - 1]) + [Trim(pieces[|pieces| - 1])]
  }

  /** Trimming one more piece appends one more field. */
  lemma TrimAllSnoc(pieces: seq<string>, piece: string)
    ensures TrimAll(pieces + [piece]) == TrimAll(pieces) + [Trim(piece)]
  {
    assert (pieces + [piece])[..|pieces|] == pieces;
  }

  /** Reference behaviour on a line without quotes: split at every comma and
      trim every piece, leaving out the last piece only when it is empty. */
  function SplitTrim(s: string): seq<string> {
    var p := Split(s);
    TrimAll(p[..|p| - 1]) + (if p[|p| - 1] == [] then [] else [Trim(p[|p| - 1])])
  }

  /** The tokenizer, as a loop over the characters of `buffer`. */
  method Parse(buffer: string) returns (result: seq<string>)
    ensures result == ParseSpec(buffer)
    ensures CleanFields(result)
    ensures |result| <= Count(buffer, ',') + Count(buffer, '"') + 1
    ensures buffer == [] ==> result == []
    ensures buffer != [] && buffer[|buffer| - 1] != ',' && buffer[|buffer| - 1] != '"' ==> result != []
    ensures '"' !in buffer ==> result == SplitTrim(buffer)
  {
    result := [];
    var inQuote, needComma := false, false;
    var current: string := [];
    for i := 0 to |buffer|
      invariant Run(buffer[..i]) == Scan(result, current, inQuote, needComma)
    {
      var ch := buffer[i];
      if ch == ',' && !inQuote {
        result := result + [Trim(current)];
        current := [];
      } else if ch == '"' && inQuote {
        needComma := true;
        result := result + [Trim(current)];
        current := [];
      } else if ch == '"' {
        inQuote := true;
      } else if ch == ',' && needComma {
        needComma := false;
      } else {
        current := current + [ch];
      }
      assert buffer[..i + 1][..i] == buffer[..i];
    }
    assert buffer[..|buffer|] == buffer;
    if current != [] {
      result := result + [Trim(current)];
    }
    FieldsAreClean(buffer);
    LengthBound(buffer);
    if buffer != [] && buffer[|buffer| - 1] != ',' && buffer[|buffer| - 1] != '"' {
      assert buffer == buffer[..|buffer| - 1] + [buffer[|buffer| - 1]];
      TextLastKeepsField(buffer[..|buffer| - 1], buffer[|buffer| - 1]);
    }
    if '"' !in buffer {
      QuoteFreeIsSplitTrim(buffer);
    }
  }

  // ---------------------------------------------------------------------
  // Invariants of the scan

  /** What holds after any prefix: emitted fields are trimmed and quote-free,
      the accumulator never holds a quote, the quote flag is up exactly when a
      quote has been seen, and a pending comma only arises while quoting. */
  lemma {:induction false} RunInvariant(s: string)
    ensures CleanFields(Run(s).result)
    ensures '"' !in Run(s).current
    ensures Run(s).inQuote <==> '"' in s
    ensures Run(s).needComma ==> Run(s).inQuote
    decreases |s|
  {
    if s != [] {
      var init := s[..|s| - 1];
      RunInvariant(init);
      assert s == init + [s[|s| - 1]];
      TrimKeepsAbsent(Run(init).current, '"');
    }
  }

  /** Every field `parse` returns is trimmed and contains no `"`. */
  lemma FieldsAreClean(s: string)
    ensures CleanFields(ParseSpec(s))
  {
    RunInvariant(s);
    TrimKeepsAbsent(Run(s).current, '"');
  }

  /** Each character emits at most one field, and only a `,` or a `"` does. */
  lemma {:induction false} RunResultBound(s: string)
    ensures |Run(s).result| <= Count(s, ',') + Count(s, '"')
    decreases |s|
  {
    if s != [] {
      var init := s[..|s| - 1];
      RunResultBound(init);
      assert s == init + [s[|s| - 1]];
    }
  }

  /** At most one field more than there are commas and quotes. */
  lemma LengthBound(s: string)
    ensures |ParseSpec(s)| <= Count(s, ',') + Count(s, '"') + 1
  {
    RunResultBound(s);
  }

  /** A line ending in a character other than `,` and `"` keeps a last
      field, so the result is never empty. */
  lemma TextLastKeepsField(s: string, c: char)
    requires c != ',' && c != '"'
    ensures Run(s + [c]).current != []
    ensures ParseSpec(s + [c]) == Run(s + [c]).result + [Trim(Run(s + [c]).current)]
    ensures ParseSpec(s + [c]) != []
  {
    assert (s + [c])[..|s|] == s;
  }

  // ---------------------------------------------------------------------
  // Lines without quotes

  /** On a quote-free prefix the emitted fields are the trimmed pieces before
      the last comma, and the accumulator is the untrimmed piece after it. */
  lemma {:induction false} QuoteFreeRun(s: string)
    requires '"' !in s
    ensures var p := Split(s);
      Run(s) == Scan(TrimAll(p[..|p| - 1]), p[|p| - 1], false, false)
    decreases |s|
  {
    if s != [] {
      var init, c := s[..|s| - 1], s[|s| - 1];
      assert s == init + [c];
      QuoteFreeRun(init);
      var p := Split(init);
      RunSnoc(init, c);
      if c == ',' {
        SplitSnocComma(init);
        assert (p + [[]])[..|p|] == p;
        TrimAllSnoc(p[..|p| - 1], p[|p| - 1]);
        assert p[..|p| - 1] + [p[|p| - 1]] == p;
      } else {
        SplitSnocOther(init, c);
        var q := p[..|p| - 1] + [p[|p| - 1] + [c]];
        assert q[..|q| - 1] == p[..|p| - 1];
      }
    }
  }

  /** Without quotes, `parse` is splitting at every comma and trimming each
      piece, the last piece being left out exactly when it is empty. */
  lemma QuoteFreeIsSplitTrim(s: string)
    requires '"' !in s
    ensures ParseSpec(s) == SplitTrim(s)
  {
    QuoteFreeRun(s);
  }

  /** Without quotes, there are exactly as many fields before the final one as
      there are commas. */
  lemma QuoteFreeFieldCount(s: string)
    requires '"' !in s
    ensures |Run(s).result| == Count(s, ',')
    ensures |ParseSpec(s)| == Count(s, ',') + (if Run(s).current == [] then 0 else 1)
  {
    QuoteFreeRun(s);
    SplitCount(s);
  }

  // ---------------------------------------------------------------------
  // After the first quote

  /** Once a quote has been seen the flag stays up, and from then on only
      quotes emit fields: every later comma is either swallowed or kept as
      text. */
  lemma {:induction false} InQuoteCount(s: string, t: string)
    requires Run(s).inQuote
    ensures Run(s + t).inQuote
    ensures |Run(s + t).result| == |Run(s).result| + Count(t, '"')
    decreases |t|
  {
    if t == [] {
      assert s + t == s;
    } else {
      var init, c := t[..|t| - 1], t[|t| - 1];
      assert t == init + [c];
      assert s + t == (s + init) + [c];
      InQuoteCount(s, init);
    }
  }

  /** While quoting, a character other than `"` goes into the accumulator,
      except a `,` that is pending, which is swallowed. */
  lemma InQuoteStep(st: Scan, c: char)
    requires st.inQuote && c != '"'
    ensures Step(st, c) ==
      if st.needComma && c == ',' then st.(needComma := false)
      else st.(current := st.current + [c])
  {
  }

  /** While quoting, a quote-free stretch `t` goes into the accumulator
      unchanged, except that a pending comma swallows the first `,` of `t`. */
  lemma {:induction false} InQuoteRun(s: string, t: string)
    requires Run(s).inQuote && '"' !in t
    ensures var st := Run(s);
      Run(s + t) == Scan(st.result, st.current + (if st.needComma then DropComma(t) else t),
                         true, st.needComma && ',' !in t)
    decreases |t|
  {
    var st := Run(s);
    if t == [] {
      assert s + t == s;
    } else {
      var init, c := t[..|t| - 1], t[|t| - 1];
      assert t == init + [c];
      assert s + t == (s + init) + [c];
      InQuoteRun(s, init);
      RunSnoc(s + init, c);
      InQuoteStep(Run(s + init), c);
      if st.needComma {
        DropCommaSnoc(init, c);
      }
    }
  }

  /** The number of fields emitted after a first quote is the number of later
      quotes; the commas before it each emit one, those after it none. */
  lemma FieldCountWithQuote(p: string, t: string)
    requires '"' !in p
    ensures |Run(p + ['"'] + t).result| == Count(p, ',') + Count(t, '"')
  {
    QuoteFreeFieldCount(p);
    QuoteFreeRun(p);
    var open := p + ['"'];
    assert open[..|p|] == p;
    assert Run(open) == Run(p).(inQuote := true);
    InQuoteCount(open, t);
  }

  /** An unterminated quote absorbs the rest of the line, commas included,
      into the field it opened; text before the quote is kept in that field. */
  lemma UnterminatedQuote(p: string, t: string)
    requires '"' !in p && '"' !in t
    ensures var pieces := Split(p);
      var last := pieces[|pieces| - 1] + t;
      ParseSpec(p + ['"'] + t) ==
        TrimAll(pieces[..|pieces| - 1]) + (if last == [] then [] else [Trim(last)])
  {
    QuoteFreeRun(p);
    assert (p + ['"'])[..|p|] == p;
    InQuoteRun(p + ['"'], t);
  }

  /** After a quote-free `p`, a quote, a quote-free `q` and a closing quote,
      the field opened in the last piece of `p` has been emitted with `q`, and
      a comma is pending. */
  lemma ClosedQuoteRun(p: string, q: string)
    requires '"' !in p && '"' !in q
    ensures var pieces := Split(p);
      Run(p + ['"'] + q + ['"']) ==
        Scan(TrimAll(pieces[..|pieces| - 1]) + [Trim(pieces[|pieces| - 1] + q)], [], true, true)
  {
    var open := p + ['"'];
    QuoteFreeRun(p);
    RunSnoc(p, '"');
    InQuoteRun(open, q);
    RunSnoc(open + q, '"');
  }

  /** A closing quote emits the quoted field (with any text before the opening
      quote); the next comma is swallowed and every later comma is text, so
      whatever follows becomes a single last field. */
  lemma QuotedField(p: string, q: string, t: string)
    requires '"' !in p && '"' !in q && '"' !in t
    ensures var pieces := Split(p);
      var rest := DropComma(t);
      ParseSpec(p + ['"'] + q + ['"'] + t) ==
        TrimAll(pieces[..|pieces| - 1]) + [Trim(pieces[|pieces| - 1] + q)]
          + (if rest == [] then [] else [Trim(rest)])
  {
    var closed := p + ['"'] + q + ['"'];
    var pieces := Split(p);
    var fields := TrimAll(pieces[..|pieces| - 1]) + [Trim(pieces[|pieces| - 1] + q)];
    ClosedQuoteRun(p, q);
    assert Run(closed) == Scan(fields, [], true, true);
    InQuoteRun(closed, t);
    assert Run(closed + t) == Scan(fields, DropComma(t), true, ',' !in t);
    FinishAfter(closed + t, Run(closed + t));
  }

  /** `parse` returns the fields of the final loop state plus the trimmed
      accumulator when that is not empty. */
  lemma FinishAfter(s: string, st: Scan)
    requires Run(s) == st
    ensures ParseSpec(s) == st.result + (if st.current == [] then [] else [Trim(st.current)])
  {
  }
}
