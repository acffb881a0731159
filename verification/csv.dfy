/** The client's CSV decoder (`parseCsv` in src/client.ts): line-break
    normalisation, line splitting, header zipping and numeric coercion of
    cell values, on top of the row lexer in `CsvRow`. */
module Csv {
  import opened Wrappers
  import opened Text
  import opened Seqs
  import opened CsvRow

  // ---------------------------------------------------------------------
  // Line breaks
  // ---------------------------------------------------------------------

  /** `replace(/\r\n/g, "\n")`: left to right, non-overlapping. */
  function ReplaceCrLf(s: string): (r: string)
    ensures '\r' !in s ==> r == s
  {
    if |s| >= 2 && s[0] == '\r' && s[1] == '\n' then "\n" + ReplaceCrLf(s[2..])
    else if |s| == 0 then ""
    else
      assert '\r' !in s ==> '\r' !in s[1..];
      [s[0]] + ReplaceCrLf(s[1..])
  }

  /** `replace(/\r/g, "\n")`. */
  function ReplaceCr(s: string): (r: string)
    ensures |r| == |s| && '\r' !in r
    ensures forall k :: 0 <= k < |s| && s[k] != '\r' ==> r[k] == s[k]
  {
    seq(|s|, k requires 0 <= k < |s| => if s[k] == '\r' then '\n' else s[k])
  }

  /** The two replacements `parseCsv` applies before splitting into lines. */
  function Normalize(text: string): (r: string)
    ensures '\r' !in r
    ensures '\r' !in text ==> r == text
  {
    ReplaceCr(ReplaceCrLf(text))
  }

  /** `ReplaceCrLf` works piecewise unless the cut separates a `\r` from the
      `\n` after it. */
  lemma {:induction false} ReplaceCrLfSplit(a: string, b: string)
    requires !(|a| > 0 && a[|a| - 1] == '\r' && |b| > 0 && b[0] == '\n')
    ensures ReplaceCrLf(a + b) == ReplaceCrLf(a) + ReplaceCrLf(b)
    decreases |a|, 1
  {
    if |a| == 0 {
      assert a + b == b;
    } else if |a| >= 2 && a[0] == '\r' && a[1] == '\n' {
      assert (a + b)[2..] == a[2..] + b;
      ReplaceCrLfSplit(a[2..], b);
    } else {
      ReplaceCrLfSplitOne(a, b);
    }
  }

  /** The step of `ReplaceCrLfSplit` past a character that does not start a
      `\r\n` in `a`. */
  lemma {:induction false} ReplaceCrLfSplitOne(a: string, b: string)
    requires |a| > 0 && !(|a| >= 2 && a[0] == '\r' && a[1] == '\n')
    requires !(a[|a| - 1] == '\r' && |b| > 0 && b[0] == '\n')
    ensures ReplaceCrLf(a + b) == ReplaceCrLf(a) + ReplaceCrLf(b)
    decreases |a|, 0
  {
    assert (a + b)[1..] == a[1..] + b;
    ReplaceCrLfSplit(a[1..], b);
  }

  lemma ReplaceCrConcat(a: string, b: string)
    ensures ReplaceCr(a + b) == ReplaceCr(a) + ReplaceCr(b)
  {
  }

  lemma NormalizeSplit(a: string, b: string)
    requires !(|a| > 0 && a[|a| - 1] == '\r' && |b| > 0 && b[0] == '\n')
    ensures Normalize(a + b) == Normalize(a) + Normalize(b)
  {
    ReplaceCrLfSplit(a, b);
    ReplaceCrConcat(ReplaceCrLf(a), ReplaceCrLf(b));
  }

  /** `\r\n`, a lone `\r` and `\n` all normalise to one `\n` between the
      normalised text on either side. */
  lemma NormalizeCrLf(a: string, b: string)
    ensures Normalize(a + "\r\n" + b) == Normalize(a) + "\n" + Normalize(b)
  {
    var t := "\r\n" + b;
    assert a + "\r\n" + b == a + t;
    NormalizeSplit(a, t);
    assert t[2..] == b;
    assert ReplaceCrLf(t) == "\n" + ReplaceCrLf(b);
    ReplaceCrConcat("\n", ReplaceCrLf(b));
  }

  lemma NormalizeCr(a: string, b: string)
    requires |b| == 0 || b[0] != '\n'
    ensures Normalize(a + "\r" + b) == Normalize(a) + "\n" + Normalize(b)
  {
    assert a + "\r" + b == a + ("\r" + b);
    NormalizeSplit(a, "\r" + b);
    NormalizeSplit("\r", b);
  }

  lemma NormalizeLf(a: string, b: string)
    requires |a| == 0 || a[|a| - 1] != '\r'
    ensures Normalize(a + "\n" + b) == Normalize(a) + "\n" + Normalize(b)
  {
    var t := "\n" + b;
    calc {
      Normalize(a + "\n" + b);
      { assert a + "\n" + b == a + t; }
      Normalize(a + t);
      { NormalizeSplit(a, t); }
      Normalize(a) + Normalize(t);
      { NormalizeSplit("\n", b); NormalizeNewline(); }
      Normalize(a) + ("\n" + Normalize(b));
    }
  }

  lemma NormalizeNewline()
    ensures Normalize("\n") == "\n"
  {
  }

  /** The lines `parseCsv` works on. */
  function Lines(text: string): seq<string> {
    SplitOn(Normalize(text), '\n')
  }

  // ---------------------------------------------------------------------
  // Cell values
  // ---------------------------------------------------------------------

  /** A decoded cell: the raw string, or the number it was coerced to
      together with the text it came from. */
  datatype Scalar = Text(text: string) | Number(value: real, source: string)

  predicate IsDigit(c: char) {
    '0' <= c <= '9'
  }

  predicate AllDigits(s: string) {
    forall k :: 0 <= k < |s| ==> IsDigit(s[k])
  }

  function DigitsValue(ds: string): nat
    requires AllDigits(ds)
  {
    if |ds| == 0 then 0
    else DigitsValue(ds[..|ds| - 1]) * 10 + (ds[|ds| - 1] as int - '0' as int)
  }

  function Pow10(n: nat): (r: nat)
    ensures r >= 1
  {
    if n == 0 then 1 else 10 * Pow10(n - 1)
  }

  /** An unsigned decimal literal: digits, optionally a point and more
      digits, at least one digit in all. */
  function UnsignedDecimal(body: string): Option<real> {
    match IndexOf(body, '.')
    case None =>
      if |body| >= 1 && AllDigits(body) then Some(DigitsValue(body) as real) else None
    case Some(d) =>
      var whole := body[..d];
      var frac := body[d + 1..];
      if AllDigits(whole) && AllDigits(frac) && |whole| + |frac| >= 1 then
        Some(DigitsValue(whole) as real + DigitsValue(frac) as real / Pow10(|frac|) as real)
      else None
  }

  /** `Number(raw)` restricted to decimal notation: surrounding whitespace is
      ignored, a whitespace-only string is 0, a signed decimal literal is its
      value, and everything else is `None` (JavaScript's NaN). */
  function ToNumber(raw: string): (r: Option<real>)
    ensures AllSpace(raw) ==> r == Some(0.0)
  {
    var t := Trim(raw);
    if t == [] then Some(0.0)
    else if t[0] == '-' then
      match UnsignedDecimal(t[1..])
      case Some(v) => Some(-v)
      case None => None
    else if t[0] == '+' then UnsignedDecimal(t[1..])
    else UnsignedDecimal(t)
  }

  /** The coercion `parseCsv` applies to each cell. */
  function Coerce(raw: string): (v: Scalar)
    ensures v.Text? ==> v.text == raw
    ensures v.Number? ==> v.source == raw && raw != "" && ToNumber(raw) == Some(v.value)
    ensures raw == "" ==> v == Text("")
    ensures raw != "" && ToNumber(raw).Some? ==> v == Number(ToNumber(raw).value, raw)
  {
    if raw != "" && ToNumber(raw).Some? then Number(ToNumber(raw).value, raw) else Text(raw)
  }

  /** The decimal digits of a natural number, most significant first. */
  function Decimal(n: nat): (r: string)
    ensures |r| >= 1 && AllDigits(r)
  {
    if n < 10 then [('0' as int + n) as char]
    else Decimal(n / 10) + [('0' as int + n % 10) as char]
  }

  lemma {:induction false} DecimalValue(n: nat)
    ensures DigitsValue(Decimal(n)) == n
  {
    if n >= 10 {
      DecimalValue(n / 10);
      assert Decimal(n)[..|Decimal(n)| - 1] == Decimal(n / 10);
    }
  }

  /** A cell holding the decimal digits of `n` (an identifier as the server
      writes it) is coerced to the number `n`. */
  lemma DecimalCoerces(n: nat)
    ensures Coerce(Decimal(n)) == Number(n as real, Decimal(n))
  {
    DecimalValue(n);
    DigitsNumber(Decimal(n));
  }

  /** A non-empty run of digits is the number it spells. */
  lemma DigitsNumber(s: string)
    requires |s| > 0 && AllDigits(s)
    ensures ToNumber(s) == Some(DigitsValue(s) as real)
  {
    assert IsDigit(s[0]) && IsDigit(s[|s| - 1]);
    TrimUnpadded(s);
    DigitsUnsigned(s);
  }

  lemma DigitsUnsigned(s: string)
    requires |s| > 0 && AllDigits(s)
    ensures UnsignedDecimal(s) == Some(DigitsValue(s) as real)
  {
    forall k | 0 <= k < |s| ensures s[k] != '.' {
      assert IsDigit(s[k]);
    }
  }

  // ---------------------------------------------------------------------
  // Rows (parseCsv)
  // ---------------------------------------------------------------------

  /** A decoded record: header field name to cell value. */
  type Row = map<string, Scalar>

  /** `values[j] ?? ""`: a missing position reads as the empty string. */
  function Cell(values: seq<string>, j: nat): string {
    if j < |values| then values[j] else ""
  }

  ghost predicate ValidScalar(v: Scalar) {
    v.Number? ==> v.source != "" && ToNumber(v.source) == Some(v.value)
  }

  /** Position `j` holds the last occurrence of its key. */
  ghost predicate IsLast(keys: seq<string>, j: int) {
    0 <= j < |keys| && forall i :: j < i < |keys| ==> keys[i] != keys[j]
  }

  /** The last position of `h` in `keys`. */
  function LastIndex(keys: seq<string>, h: string): (j: nat)
    requires h in keys
    ensures j < |keys| && keys[j] == h
    ensures forall i :: j < i < |keys| ==> keys[i] != h
  {
    if keys[|keys| - 1] == h then |keys| - 1 else LastIndex(keys[..|keys| - 1], h)
  }

  /** Assigns `vals[j]` to `keys[j]` left to right, as repeated
      `row[key] = value` statements do: a repeated key keeps the value of
      its last position. */
  function Assign<V>(keys: seq<string>, vals: seq<V>): (m: map<string, V>)
    requires |keys| == |vals|
    ensures forall h :: h in m <==> h in keys
    ensures forall j :: IsLast(keys, j) ==> keys[j] in m && m[keys[j]] == vals[j]
    ensures forall h :: h in m ==> m[h] in vals
  {
    var m := map h | h in keys :: vals[LastIndex(keys, h)];
    assert forall j :: IsLast(keys, j) ==> LastIndex(keys, keys[j]) == j;
    m
  }

  /** The coerced cells of one line, one per header position. */
  function Cells(headers: seq<string>, values: seq<string>): (cells: seq<Scalar>)
    ensures |cells| == |headers|
    ensures forall j :: 0 <= j < |cells| ==> cells[j] == Coerce(Cell(values, j))
  {
    seq(|headers|, j requires 0 <= j < |headers| => Coerce(Cell(values, j)))
  }

  /** Zips header fields with the coerced values of one line. */
  function MakeRow(headers: seq<string>, values: seq<string>): (row: Row)
    ensures forall h :: h in row <==> h in headers
    ensures forall j :: IsLast(headers, j) ==> headers[j] in row && row[headers[j]] == Coerce(Cell(values, j))
    ensures forall h :: h in row ==> ValidScalar(row[h])
  {
    Assign(headers, Cells(headers, values))
  }

  /** Values past the last header are ignored. */
  lemma SurplusValuesIgnored(headers: seq<string>, values: seq<string>)
    requires |values| >= |headers|
    ensures MakeRow(headers, values) == MakeRow(headers, values[..|headers|])
  {
    assert Cells(headers, values) == Cells(headers, values[..|headers|]);
  }

  /** A line that is not blank once trimmed. */
  predicate NonBlank(line: string) {
    Trim(line) != []
  }

  /** One data line decoded against the header fields. */
  function DecodeLine(headers: seq<string>, line: string): Row {
    MakeRow(headers, ParseFields(Trim(line)))
  }

  /** The data-line loop of `parseCsv`: blank lines are skipped, every other
      line yields one row, in order. */
  function DecodeRows(headers: seq<string>, lines: seq<string>): (rows: seq<Row>)
    ensures |rows| == |Filter(lines, NonBlank)|
    ensures forall k :: 0 <= k < |rows| ==> rows[k] == DecodeLine(headers, Filter(lines, NonBlank)[k])
  {
    FilterMap(lines, NonBlank, line => DecodeLine(headers, line))
  }

  /** `parseCsv(text)`. */
  function ParseCsv(text: string): (rows: seq<Row>)
    ensures |Lines(text)| < 2 ==> rows == []
    ensures |Lines(text)| >= 2 ==> |rows| == |Filter(Lines(text)[1..], NonBlank)|
    ensures forall k :: 0 <= k < |rows| ==>
              rows[k].Keys == set h | h in ParseFields(Lines(text)[0])
    ensures forall k, h :: 0 <= k < |rows| && h in rows[k] ==> ValidScalar(rows[k][h])
  {
    var lines := Lines(text);
    if |lines| < 2 then [] else DecodeRows(ParseFields(lines[0]), lines[1..])
  }

  /** Text without any line break decodes to no rows: a header alone is
      not enough. */
  lemma SingleLineIsEmpty(text: string)
    requires '\n' !in text && '\r' !in text
    ensures ParseCsv(text) == []
  {
    SplitOnNoSep(text, '\n');
  }

  /** A document written as lines joined by `\n` decodes line by line: the
      first line gives the header fields, and every later line that is not
      blank gives one row, in order. */
  lemma ParseCsvJoined(header: string, lines: seq<string>)
    requires |lines| >= 1
    requires '\n' !in header && '\r' !in header
    requires forall k :: 0 <= k < |lines| ==> '\n' !in lines[k] && '\r' !in lines[k]
    ensures ParseCsv(Join([header] + lines, '\n')) == DecodeRows(ParseFields(header), lines)
  {
    var all := [header] + lines;
    forall k | 0 <= k < |all| ensures '\n' !in all[k] && '\r' !in all[k] {
      if k > 0 {
        assert all[k] == lines[k - 1];
      }
    }
    JoinAvoids(all, '\n', '\r');
    SplitJoin(all, '\n');
    assert all[1..] == lines;
  }

  /** `\r\n` and a lone `\r` decode exactly like `\n`. */
  lemma LineBreaksAgree(a: string, b: string)
    requires |a| == 0 || a[|a| - 1] != '\r'
    ensures ParseCsv(a + "\r\n" + b) == ParseCsv(a + "\n" + b)
    ensures (|b| == 0 || b[0] != '\n') ==> ParseCsv(a + "\r" + b) == ParseCsv(a + "\n" + b)
  {
    NormalizeCrLf(a, b);
    NormalizeLf(a, b);
    if |b| == 0 || b[0] != '\n' {
      NormalizeCr(a, b);
    }
  }
}
