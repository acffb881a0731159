/** The row lexer of the client's CSV decoder (`parseCsvRow` in
    src/client.ts): one index that moves forward through the line, a quoted
    field read with `""` as an escaped quote, an unquoted field read up to
    the next comma. */
module CsvRow {
  import opened Wrappers
  import opened Text

  /** The body of a quoted field starting at position `i`, just after its
      opening quote: `""` stands for one `"`, and the first lone `"` closes
      the field. An unterminated field runs to the end of the line. */
  function QuotedText(line: string, i: nat): string
    requires i <= |line|
    decreases |line| - i
  {
    if i == |line| then ""
    else if line[i] == '"' && i + 1 < |line| && line[i + 1] == '"' then "\"" + QuotedText(line, i + 2)
    else if line[i] == '"' then ""
    else [line[i]] + QuotedText(line, i + 1)
  }

  /** The position after the closing quote of the field `QuotedText` reads,
      or the end of the line. */
  function QuotedEnd(line: string, i: nat): (j: nat)
    requires i <= |line|
    ensures i <= j <= |line|
    decreases |line| - i
  {
    if i == |line| then i
    else if line[i] == '"' && i + 1 < |line| && line[i + 1] == '"' then QuotedEnd(line, i + 2)
    else if line[i] == '"' then i + 1
    else QuotedEnd(line, i + 1)
  }

  /** The comma after a quoted field is optional: `if (line[i] === ",") i++`. */
  function SkipComma(line: string, j: nat): (k: nat)
    requires j <= |line|
    ensures j <= k <= |line|
  {
    if j < |line| && line[j] == ',' then j + 1 else j
  }

  /** The fields of `line` from position `i` on. A quoted field is followed
      by an optional comma; an unquoted field runs to the next comma, or to
      the end of the line when there is none. */
  function FieldsFrom(line: string, i: nat): seq<string>
    requires i <= |line|
    decreases |line| - i
  {
    if i == |line| then []
    else if line[i] == '"' then
      [QuotedText(line, i + 1)] + FieldsFrom(line, SkipComma(line, QuotedEnd(line, i + 1)))
    else
      var e := NextComma(line, i);
      if e == |line| then [line[i..]] else [line[i..e]] + FieldsFrom(line, e + 1)
  }

  /** Where the unquoted field at `i` ends: the first comma at or after
      `i`, or the end of the line. */
  function NextComma(line: string, i: nat): (e: nat)
    requires i <= |line|
    ensures i <= e <= |line|
    ensures e < |line| ==> line[e] == ','
    decreases |line| - i
  {
    if i == |line| || line[i] == ',' then i else NextComma(line, i + 1)
  }

  /** `NextComma` is `line.indexOf(",", i)`, with the end of the line for
      JavaScript's -1, and no comma lies before it. */
  lemma {:induction false} NextCommaIsIndexOf(line: string, i: nat)
    requires i <= |line|
    ensures NextComma(line, i) == |line| <==> IndexOfFrom(line, ',', i).None?
    ensures NextComma(line, i) < |line| ==> IndexOfFrom(line, ',', i) == Some(NextComma(line, i))
    ensures forall k :: i <= k < NextComma(line, i) ==> line[k] != ','
    decreases |line| - i
  {
    if i < |line| && line[i] != ',' {
      NextCommaIsIndexOf(line, i + 1);
    }
  }

  lemma FieldsFromQuoted(line: string, i: nat, text: string, end: nat)
    requires i < |line| && line[i] == '"'
    requires QuotedText(line, i + 1) == text && QuotedEnd(line, i + 1) == end
    ensures end <= |line|
    ensures FieldsFrom(line, i) == [text] + FieldsFrom(line, SkipComma(line, end))
  {
  }

  lemma FieldsFromLast(line: string, i: nat)
    requires i < |line| && line[i] != '"' && NextComma(line, i) == |line|
    ensures FieldsFrom(line, i) == [line[i..]]
  {
  }

  lemma FieldsFromComma(line: string, i: nat, e: nat) returns (j: nat)
    requires i < |line| && line[i] != '"' && NextComma(line, i) == e < |line|
    ensures j == e + 1 <= |line|
    ensures FieldsFrom(line, i) == [line[i..e]] + FieldsFrom(line, j)
  {
    j := e + 1;
  }

  /** The fields of one CSV line. */
  function ParseFields(line: string): seq<string> {
    FieldsFrom(line, 0)
  }

  /** The inner loop of `parseCsvRow`: reads a quoted field from position
      `i`, just after its opening quote, and returns the field and the
      position after the closing quote. */
  method ReadQuoted(line: string, i: nat) returns (field: string, j: nat)
    requires i <= |line|
    ensures field == QuotedText(line, i) && j == QuotedEnd(line, i)
  {
    field := "";
    j := i;
    var closed := false;
    while j < |line| && !closed
      invariant i <= j <= |line|
      invariant !closed ==> QuotedText(line, i) == field + QuotedText(line, j)
      invariant !closed ==> QuotedEnd(line, i) == QuotedEnd(line, j)
      invariant closed ==> QuotedText(line, i) == field && QuotedEnd(line, i) == j
      decreases |line| - j, if closed then 0 else 1
    {
      if line[j] == '"' && j + 1 < |line| && line[j + 1] == '"' {
        field := field + "\"";
        j := j + 2;
      } else if line[j] == '"' {
        j := j + 1;
        closed := true;
      } else {
        field := field + [line[j]];
        j := j + 1;
      }
    }
  }

  /** `parseCsvRow` as written: the index only moves forward, quoted fields
      are read by the inner loop, unquoted ones with `indexOf(",", i)`. It
      computes exactly the fields `ParseFields` describes. */
  method ParseCsvRow(line: string) returns (fields: seq<string>)
    ensures fields == ParseFields(line)
  {
    fields := [];
    var i := 0;
    while i < |line|
      invariant 0 <= i <= |line|
      invariant fields + FieldsFrom(line, i) == ParseFields(line)
      decreases |line| - i
    {
      var field, next, last := ReadField(line, i);
      assert fields + FieldsFrom(line, i) == (fields + [field]) + FieldsFrom(line, next);
      fields := fields + [field];
      i := next;
      if last {
        break;
      }
    }
  }

  /** One step of the outer loop of `parseCsvRow`: the field at position
      `i`, the position where the next field begins, and whether the line
      ends after this field. */
  method ReadField(line: string, i: nat) returns (field: string, next: nat, last: bool)
    requires i < |line|
    ensures i < next <= |line|
    ensures FieldsFrom(line, i) == [field] + FieldsFrom(line, next)
    ensures last ==> FieldsFrom(line, next) == []
  {
    last := false;
    if line[i] == '"' {
      var j;
      field, j := ReadQuoted(line, i + 1);
      next := SkipComma(line, j);
    } else {
      NextCommaIsIndexOf(line, i);
      match IndexOfFrom(line, ',', i)
      case None =>
        FieldsFromLast(line, i);
        field, next, last := line[i..], |line|, true;
      case Some(e) =>
        ghost var j := FieldsFromComma(line, i, e);
        field, next := line[i..e], e + 1;
    }
  }

  // ---------------------------------------------------------------------
  // Lines without quotes
  // ---------------------------------------------------------------------

  /** The comma-separated pieces, less an empty last piece. */
  function DropTrailingEmpty(pieces: seq<string>): seq<string>
    requires |pieces| >= 1
  {
    if pieces[|pieces| - 1] == "" then pieces[..|pieces| - 1] else pieces
  }

  lemma DropTrailingEmptyCons(a: string, pieces: seq<string>)
    requires |pieces| >= 1
    ensures DropTrailingEmpty([a] + pieces) == [a] + DropTrailingEmpty(pieces)
  {
    assert ([a] + pieces)[..|pieces|] == [a] + pieces[..|pieces| - 1];
  }

  lemma {:induction false} UnquotedFrom(line: string, i: nat)
    requires i <= |line|
    requires forall k :: i <= k < |line| ==> line[k] != '"'
    ensures FieldsFrom(line, i) == DropTrailingEmpty(SplitOn(line[i..], ','))
    decreases |line| - i, 1
  {
    if i == |line| {
      assert line[i..] == [];
    } else if NextComma(line, i) == |line| {
      NextCommaIsIndexOf(line, i);
      FieldsFromLast(line, i);
      SplitOnNoSep(line[i..], ',');
    } else {
      UnquotedComma(line, i, NextComma(line, i));
    }
  }

  /** The step of `UnquotedFrom` past one comma. */
  lemma {:induction false} UnquotedComma(line: string, i: nat, e: nat)
    requires i < |line| && NextComma(line, i) == e < |line|
    requires forall k :: i <= k < |line| ==> line[k] != '"'
    ensures FieldsFrom(line, i) == DropTrailingEmpty(SplitOn(line[i..], ','))
    decreases |line| - i, 0
  {
    var j := FieldsFromComma(line, i, e);
    UnquotedFrom(line, j);
    SplitAtComma(line, i, e, j);
  }

  /** The comma-separated pieces of `line[i..]`, split at its first comma `e`. */
  lemma SplitAtComma(line: string, i: nat, e: nat, j: nat)
    requires i < |line| && NextComma(line, i) == e < |line| && j == e + 1
    ensures DropTrailingEmpty(SplitOn(line[i..], ','))
            == [line[i..e]] + DropTrailingEmpty(SplitOn(line[j..], ','))
  {
    NextCommaIsIndexOf(line, i);
    assert line[i..] == line[i..e] + [','] + line[j..];
    SplitOnConcat(line[i..e], ',', line[j..]);
    DropTrailingEmptyCons(line[i..e], SplitOn(line[j..], ','));
  }

  /** A line without any `"` lexes to its comma-separated pieces in order,
      except that the empty piece after a final comma is dropped (so the
      empty line has no fields at all). */
  lemma UnquotedFields(line: string)
    requires '"' !in line
    ensures ParseFields(line) == DropTrailingEmpty(SplitOn(line, ','))
  {
    UnquotedFrom(line, 0);
    assert line[0..] == line;
  }

  // ---------------------------------------------------------------------
  // Quoting: the writer side that the lexer inverts
  // ---------------------------------------------------------------------

  /** Doubles every `"` of a value. */
  function Escape(v: string): (r: string)
    ensures |r| >= |v|
  {
    if |v| == 0 then ""
    else if v[0] == '"' then "\"\"" + Escape(v[1..])
    else [v[0]] + Escape(v[1..])
  }

  /** A value written as a quoted CSV field. */
  function Quote(v: string): string {
    "\"" + Escape(v) + "\""
  }

  /** Fields written as one CSV line, every field quoted. */
  function EncodeRow(fields: seq<string>): string {
    if |fields| == 0 then ""
    else if |fields| == 1 then Quote(fields[0])
    else Quote(fields[0]) + "," + EncodeRow(fields[1..])
  }

  /** The quoted-field reader undoes `Escape` and stops at the first lone
      quote, keeping commas literally. */
  lemma {:induction false} QuotedEscape(line: string, i: nat, v: string)
    requires i <= |line|
    requires Escape(v) + "\"" <= line[i..]
    requires i + |Escape(v)| + 1 == |line| || line[i + |Escape(v)| + 1] != '"'
    ensures QuotedText(line, i) == v && QuotedEnd(line, i) == i + |Escape(v)| + 1
    decreases |v|
  {
    var rest := Escape(v) + "\"";
    assert line[i] == rest[0];
    if |v| > 0 {
      if v[0] == '"' {
        assert rest == "\"\"" + (Escape(v[1..]) + "\"");
        assert line[i + 1] == rest[1];
        assert Escape(v[1..]) + "\"" <= line[i + 2..] by {
          assert line[i + 2..] == line[i..][2..];
        }
        QuotedEscape(line, i + 2, v[1..]);
        assert v == "\"" + v[1..];
      } else {
        assert rest == [v[0]] + (Escape(v[1..]) + "\"");
        assert Escape(v[1..]) + "\"" <= line[i + 1..] by {
          assert line[i + 1..] == line[i..][1..];
        }
        QuotedEscape(line, i + 1, v[1..]);
        assert v == [v[0]] + v[1..];
      }
    }
  }

  /** Where a quoted value starts a line at `i`: the opening quote, the
      escaped value with its closing quote, and what follows. */
  lemma QuotedPrefix(line: string, i: nat, v: string, rest: string)
    requires i <= |line| && line[i..] == Quote(v) + rest
    ensures i + |Escape(v)| + 2 <= |line|
    ensures line[i] == '"'
    ensures Escape(v) + "\"" <= line[i + 1..]
    ensures line[i + |Escape(v)| + 2..] == rest
    ensures |line| == i + |Escape(v)| + 2 + |rest|
    ensures |rest| > 0 ==> line[i + |Escape(v)| + 2] == rest[0]
  {
    var n := |Escape(v)|;
    assert line[i..] == "\"" + (Escape(v) + "\"") + rest;
    assert line[i + 1..] == line[i..][1..];
    assert line[i + n + 2..] == line[i..][n + 2..];
  }

  /** A quoted value that is not followed by another `"` is read back;
      `e` is the position after its closing quote. */
  lemma QuotedField(line: string, i: nat, v: string, rest: string) returns (e: nat)
    requires i <= |line| && line[i..] == Quote(v) + rest
    requires |rest| == 0 || rest[0] != '"'
    ensures e == i + |Escape(v)| + 2 <= |line| && line[e..] == rest
    ensures FieldsFrom(line, i) == [v] + FieldsFrom(line, SkipComma(line, e))
  {
    QuotedPrefix(line, i, v, rest);
    e := i + |Escape(v)| + 2;
    QuotedFieldAt(line, i, v, e);
  }

  lemma QuotedFieldAt(line: string, i: nat, v: string, e: nat)
    requires e == i + |Escape(v)| + 2 <= |line|
    requires line[i] == '"' && Escape(v) + "\"" <= line[i + 1..]
    requires e == |line| || line[e] != '"'
    ensures FieldsFrom(line, i) == [v] + FieldsFrom(line, SkipComma(line, e))
  {
    QuotedEscape(line, i + 1, v);
    FieldsFromQuoted(line, i, v, e);
  }

  lemma {:induction false} EncodedFrom(line: string, i: nat, fields: seq<string>)
    requires i <= |line|
    requires line[i..] == EncodeRow(fields)
    ensures FieldsFrom(line, i) == fields
    decreases |fields|, 1
  {
    if |fields| == 1 {
      assert line[i..] == Quote(fields[0]) + "";
      var e := QuotedField(line, i, fields[0], "");
    } else if |fields| > 1 {
      assert fields == [fields[0]] + fields[1..];
      EncodedMore(line, i, fields[0], fields[1..]);
    }
  }

  /** The step of `EncodedFrom` past one quoted field and its comma. */
  lemma {:induction false} EncodedMore(line: string, i: nat, v: string, more: seq<string>)
    requires i <= |line| && |more| > 0
    requires line[i..] == Quote(v) + ("," + EncodeRow(more))
    ensures FieldsFrom(line, i) == [v] + more
    decreases |more| + 1, 0
  {
    var k := QuotedThenComma(line, i, v, EncodeRow(more));
    EncodedFrom(line, k, more);
  }

  /** A quoted value followed by a comma is read back, and the next field
      starts at `k`, after the comma. */
  lemma QuotedThenComma(line: string, i: nat, v: string, tail: string) returns (k: nat)
    requires i <= |line| && line[i..] == Quote(v) + ("," + tail)
    ensures k <= |line| && line[k..] == tail
    ensures FieldsFrom(line, i) == [v] + FieldsFrom(line, k)
  {
    var e := QuotedField(line, i, v, "," + tail);
    k := SkipComma(line, e);
    assert line[e] == ',' && k == e + 1;
    assert line[k..] == line[e..][1..];
  }

  /** Round trip: lexing a line of quoted fields gives back the fields,
      with commas and doubled quotes inside them restored literally. */
  lemma EncodeRowRoundTrip(fields: seq<string>)
    ensures ParseFields(EncodeRow(fields)) == fields
  {
    var line := EncodeRow(fields);
    assert line[0..] == line;
    EncodedFrom(line, 0, fields);
  }

  /** A single quoted value lexes back to the value itself. */
  lemma QuotedAlone(v: string)
    ensures ParseFields(Quote(v)) == [v]
  {
    EncodeRowRoundTrip([v]);
  }
}
