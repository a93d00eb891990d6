# basic_input line tokenizer, in Dafny

This project models `parse` in `00_Common/rust/crates/basic_input/src/parse.rs`. It is the tokenizer that the shared
`basic_input` crate runs on every response line to a BASIC-style `INPUT`
prompt. The function walks the characters of the line once. It keeps two
flags: `in_quote`, set by the first `"`, and `need_comma`, set by a closing
`"`. It also keeps an accumulator `current` and the output list `result`:
- An unquoted `,` pushes the trimmed accumulator and clears it.
- A `"` while quoting pushes the trimmed accumulator, clears it and marks a
  comma as pending.
- The first `"` only raises `in_quote`.
- A pending comma is swallowed.
- Any other character, including a `,` while quoting, is appended to the
  accumulator.

At the end, an accumulator that is non-empty (checked before trimming) becomes
the last field.

The model has three modules:

- `Trimming` (`trim.dfy`): Rust's `str::trim`, which `parse` applies to every
  field. It strips characters with the Unicode White_Space property, the set
  `char::is_whitespace` tests, written out as its 25 code points.
- `CommaSplit` (`split.dfy`): reference definitions that state what `parse`
  does. `Split` cuts a string at every comma; `DropComma` removes the first
  comma of a string.
- `BasicInputParse` (`parse.dfy`): the tokenizer itself.
  - `Parse` is a method with the source's loop, flags and accumulator.
  - `Step` is the body of that loop, one arm per arm of the `match`, as a
    function on a `Scan` state.
  - `Run` folds `Step` over a prefix; `ParseSpec` is what `parse` returns.
  - `Parse` is proved to compute `ParseSpec`, and the lemmas state what
    `ParseSpec` does.
- `BasicInputParseExamples` (`parse_examples.dfy`) derives the outcomes of
  the unit tests in `parse.rs`. It also shows two consequences of the code as
  written: text in front of an opening quote stays in the field, and since
  `in_quote` is never lowered, `"a","b"` gives `a`, an empty field, then `b`.

The model follows the code as written. In particular, `in_quote` stays set
after the first quote. Every later quote ends a field. Every later comma is kept
as text, except the one a closing quote left pending, which is dropped: `"a",b`
gives `a` and `b`, and that comma appears in no field.

The caller `get_single_value` in
`00_Common/rust/crates/basic_input/src/input.rs` (lines 42-43) indexes
`values[0]`. `TextLastKeepsField` and `Parse` show that this index exists for a
line ending in a character other than `,` and `"`, such as the newline
`read_line` leaves.

## Model

The `Trimming` rows cite lines 10-29. That span holds the three
`current.trim()` calls (lines 10, 15 and 29), and all three use the same
function.

| member | source | states |
|---|---|---|
| BasicInputParse.Parse | 00_Common/rust/crates/basic_input/src/parse.rs:1-33 | The loop returns `ParseSpec(buffer)`. Every field is trimmed and quote-free. There are at most (commas + quotes + 1) fields. The empty line gives none. A line ending in a character other than `,` and `"` gives at least one. A quote-free line gives the split-and-trim reference result. |
| BasicInputParse.RunInvariant | 00_Common/rust/crates/basic_input/src/parse.rs:7-26 | After any prefix, the emitted fields are trimmed and quote-free, and the accumulator holds no `"`. `in_quote` is set exactly when a `"` has been seen, so it is never reset. `need_comma` is only set while quoting. |
| BasicInputParse.FieldsAreClean | 00_Common/rust/crates/basic_input/src/parse.rs:9-30 | Every field `parse` returns has no whitespace at either end and contains no `"`. |
| BasicInputParse.RunResultBound | 00_Common/rust/crates/basic_input/src/parse.rs:9-17 | The loop emits at most one field per `,` or `"` and none for other characters. |
| BasicInputParse.LengthBound | 00_Common/rust/crates/basic_input/src/parse.rs:9-30 | The result has at most (number of `,` + number of `"` + 1) fields. |
| BasicInputParse.TextLastKeepsField | 00_Common/rust/crates/basic_input/src/parse.rs:25-30 | When the last character is neither `,` nor `"`, the accumulator is non-empty at the end. The result is then the emitted fields plus the trimmed accumulator, so it is non-empty. |
| BasicInputParse.QuoteFreeRun | 00_Common/rust/crates/basic_input/src/parse.rs:9-12 | On a quote-free prefix, the emitted fields are the trimmed pieces before the last comma. The accumulator is the untrimmed piece after it, and both flags are down. |
| BasicInputParse.QuoteFreeIsSplitTrim | 00_Common/rust/crates/basic_input/src/parse.rs:28-30 | Without quotes, `parse` equals splitting at every `,` and trimming each piece. The last piece is left out exactly when it is empty before trimming. |
| BasicInputParse.QuoteFreeFieldCount | 00_Common/rust/crates/basic_input/src/parse.rs:9-12 | Without quotes, exactly one field is emitted per comma. A last field is added exactly when the accumulator is non-empty. |
| BasicInputParse.InQuoteCount | 00_Common/rust/crates/basic_input/src/parse.rs:13-23 | Once quoting, the flag stays up, and only quotes emit fields: exactly one field per later `"`. |
| BasicInputParse.InQuoteRun | 00_Common/rust/crates/basic_input/src/parse.rs:18-25 | While quoting, a quote-free stretch is appended to the accumulator unchanged. The exception is that a pending comma swallows the first `,` of the stretch. |
| BasicInputParse.FieldCountWithQuote | 00_Common/rust/crates/basic_input/src/parse.rs:9-23 | For a line with a first quote, the loop emits one field per comma before that quote and one per quote after it. Commas after it never split. |
| BasicInputParse.UnterminatedQuote | 00_Common/rust/crates/basic_input/src/parse.rs:18-20 | An unclosed quote absorbs the rest of the line, commas included, into one field. Text before the quote, back to the previous comma, is kept in that field. |
| BasicInputParse.ClosedQuoteRun | 00_Common/rust/crates/basic_input/src/parse.rs:13-17 | A closing quote emits the quoted text, joined to the text in front of the opening quote, and leaves a comma pending. |
| BasicInputParse.QuotedField | 00_Common/rust/crates/basic_input/src/parse.rs:13-23 | After a quoted field, the next comma is swallowed. Everything that follows without another quote becomes one last field. |
| BasicInputParseExamples.SingleValue | 00_Common/rust/crates/basic_input/src/parse.rs:39-44 | `123` gives `["123"]`. |
| BasicInputParseExamples.TwoValues | 00_Common/rust/crates/basic_input/src/parse.rs:46-52 | `123, 456` gives `["123", "456"]`. |
| BasicInputParseExamples.QuotedValue | 00_Common/rust/crates/basic_input/src/parse.rs:54-61 | `123, "456,789", 10` gives `["123", "456,789", "10"]`. |
| BasicInputParseExamples.MissingClosingQuote | 00_Common/rust/crates/basic_input/src/parse.rs:63-69 | `123, "456,789, 10` gives `["123", "456,789, 10"]`. |
| BasicInputParseExamples.LoneQuote | 00_Common/rust/crates/basic_input/src/parse.rs:18-30 | A line that is only `"` gives no field. |
| BasicInputParseExamples.TextBeforeQuoteKept | 00_Common/rust/crates/basic_input/src/parse.rs:18-25 | `ab"cd` gives `["abcd"]`: the text before the quote is not cleared. |
| BasicInputParseExamples.SecondQuotedValue | 00_Common/rust/crates/basic_input/src/parse.rs:13-22 | `"a","b"` gives `["a", "", "b"]`, because the quote flag stays set. |
| BasicInputParseExamples.PendingCommaDropped | 00_Common/rust/crates/basic_input/src/parse.rs:13-23 | `"a",b` gives `["a", "b"]`: the comma after the closing quote is dropped, not kept as text. |
| Trimming.Trim | 00_Common/rust/crates/basic_input/src/parse.rs:10-29 | `str::trim`: the result has no whitespace at either end, and a string with none there is returned unchanged. |
| Trimming.TrimStartSpec | 00_Common/rust/crates/basic_input/src/parse.rs:10-29 | `trim_start` keeps a suffix that starts with non-whitespace (or is empty) and cuts off only whitespace. |
| Trimming.TrimEndSpec | 00_Common/rust/crates/basic_input/src/parse.rs:10-29 | `trim_end` keeps a prefix that ends with non-whitespace (or is empty) and cuts off only whitespace. |
| Trimming.TrimIsSlice | 00_Common/rust/crates/basic_input/src/parse.rs:10-29 | The trimmed field is a contiguous slice of the accumulator, so interior characters are kept in place. |
| Trimming.TrimCutsOnlyWhitespace | 00_Common/rust/crates/basic_input/src/parse.rs:10-29 | Only whitespace is cut off, at either end. |
| Trimming.TrimKeepsAbsent | 00_Common/rust/crates/basic_input/src/parse.rs:10-29 | Trimming introduces no character. |
| CommaSplit.Split | 00_Common/rust/crates/basic_input/src/parse.rs:9-12 | The comma-splitting reference: no piece contains a `,`, and there is always at least one piece. |
| CommaSplit.SplitCount | 00_Common/rust/crates/basic_input/src/parse.rs:9-11 | There is exactly one more piece than there are commas. |
| CommaSplit.JoinSplit | 00_Common/rust/crates/basic_input/src/parse.rs:9-11 | Splitting loses nothing: joining the pieces with `,` gives the line back. |
| CommaSplit.SplitSnocComma | 00_Common/rust/crates/basic_input/src/parse.rs:9-11 | Appending `,` opens a new empty last piece. |
| CommaSplit.SplitSnocOther | 00_Common/rust/crates/basic_input/src/parse.rs:25 | Appending another character extends the last piece. |
| CommaSplit.DropComma | 00_Common/rust/crates/basic_input/src/parse.rs:22 | Removing the first comma leaves a comma-free string unchanged and shortens any other string by exactly one. |
| CommaSplit.DropCommaSnoc | 00_Common/rust/crates/basic_input/src/parse.rs:22-23 | After the first comma is dropped, later characters are kept. Appending the first comma drops it. |

## Left out

- `00_Common/rust/crates/basic_input/src/input.rs` is not part of this model.
  It is stdin/stdout plumbing: `IoLayer`, unbounded re-prompt loops, and
  conversion through the foreign `FromStr` implementations.
- `59_Lunar_LEM_Rocket/rust/lunar/src/main.rs` is not part of this model. It is
  an `f32` simulation built on `powf` and `sqrt`, with loops whose termination
  depends on floating-point behaviour, interleaved with console I/O.
- `parse` takes any `AsRef<str>` and returns owned `String`s in a `Vec`. The
  model works on `string` (a sequence of Unicode scalar values, the values
  `chars()` yields) and returns `seq<string>`. Allocation and ownership are
  not modelled.
