/**
 * rime-mod/metadata_to_csv.mjs: `csvEscape` and `metadataToCSV`. The export takes the rows
 * of `getMetadata` with the readable name and value of each entry as text, so the model works
 * over a list of such rows.
 *
 * A field is enclosed in double quotes when it holds CR LF, a comma or a double quote, as in
 * section 2 of RFC 4180; but the source doubles only the first double quote of the field
 * (`String.prototype.replace` with a string pattern), whereas rule 7 of that section doubles
 * every one. `QuirkNotRfc4180` shows a field this makes unreadable.
 */
module MetadataToCsv {
  import opened Wrappers
  import JsText

  /** The name and the value text of one metadata row. */
  datatype CsvRow = CsvRow(name: string, value: string)

  const HEADER: string := "No.,Name,Value"
  const CRLF: string := "\r\n"

  /** `text.replace(pattern, replacement)` with a string pattern: the first occurrence only. */
  function ReplaceFirst(text: string, pattern: string, replacement: string): (r: string)
    ensures (forall k :: !JsText.OccursAt(text, pattern, k)) ==> r == text
    ensures forall i :: JsText.OccursAt(text, pattern, i) && (forall k :: 0 <= k < i ==> !JsText.OccursAt(text, pattern, k)) ==>
      r == text[..i] + replacement + text[i + |pattern|..]
  {
    var i := JsText.IndexOf(text, pattern);
    if i == -1 then text else text[..i] + replacement + text[i + |pattern|..]
  }

  /**
   * `csvEscape(text)`: a text that needs quotes comes back enclosed in double quotes, with its
   * first double quote doubled; any other text comes back as it is.
   */
  function CsvEscape(text: string): (r: string)
    ensures !NeedsQuotes(text) ==> r == text
    ensures NeedsQuotes(text) ==> |r| >= 2 && r[0] == '"' && r[|r| - 1] == '"' && r[1..|r| - 1] == ReplaceFirst(text, "\"", "\"\"")
  {
    IndexOfCrLf(text);
    IndexOfChar(text, ',');
    IndexOfChar(text, '"');
    var enclose := JsText.IndexOf(text, CRLF) != -1 || JsText.IndexOf(text, ",") != -1 || JsText.IndexOf(text, "\"") != -1;
    if enclose then "\"" + ReplaceFirst(text, "\"", "\"\"") + "\"" else text
  }

  /** The text holds CR immediately followed by LF. */
  predicate HasCrLf(text: string)
  {
    exists k :: 0 <= k < |text| - 1 && text[k] == '\r' && text[k + 1] == '\n'
  }

  /** When a field is quoted: it holds CR LF, a comma or a double quote. A lone CR or LF does not count. */
  predicate NeedsQuotes(text: string)
  {
    HasCrLf(text) || ',' in text || '"' in text
  }

  lemma IndexOfChar(text: string, c: char)
    ensures JsText.IndexOf(text, [c]) != -1 <==> c in text
  {
    var r := JsText.IndexOf(text, [c]);
    if c in text {
      var k :| 0 <= k < |text| && text[k] == c;
      assert JsText.OccursAt(text, [c], k);
    }
    if r != -1 {
      assert text[r..r + 1] == [c];
      assert text[r] == c;
    }
  }

  lemma IndexOfCrLf(text: string)
    ensures JsText.IndexOf(text, CRLF) != -1 <==> HasCrLf(text)
  {
    var r := JsText.IndexOf(text, CRLF);
    if HasCrLf(text) {
      var k :| 0 <= k < |text| - 1 && text[k] == '\r' && text[k + 1] == '\n';
      assert text[k..k + 2] == CRLF;
      assert JsText.OccursAt(text, CRLF, k);
    }
    if r != -1 {
      assert text[r..r + 2] == CRLF;
      assert text[r] == '\r' && text[r + 1] == '\n';
    }
  }

  /**
   * A field is enclosed in double quotes exactly when it needs quotes; otherwise it is
   * returned as it is.
   */
  lemma CsvEscapeQuotes(text: string)
    ensures var r := CsvEscape(text);
            && (!NeedsQuotes(text) ==> r == text)
            && (NeedsQuotes(text) ==> |r| == |text| + 2 + (if '"' in text then 1 else 0) && r[0] == '"' && r[|r| - 1] == '"')
  {
    IndexOfCrLf(text);
    IndexOfChar(text, ',');
    IndexOfChar(text, '"');
  }

  /** A lone CR or a lone LF leaves a field unquoted: only the pair CR LF causes quoting. */
  lemma LoneBreaksUnquoted()
    ensures CsvEscape("a\rb") == "a\rb" && CsvEscape("a\nb") == "a\nb"
  {
    var cr, lf := "a\rb", "a\nb";
    assert cr[2] != '\n' && lf[1] != '\r' && lf[0] != '\r';
    assert !NeedsQuotes(cr) && !NeedsQuotes(lf);
  }

  // Reading a quoted field back, as section 2 of RFC 4180 defines it

  /** The content of a quoted field: `""` stands for one `"`, and a lone `"` is malformed. */
  function Unquote(s: string): Option<string>
  {
    if s == [] then Some([])
    else if s[0] != '"' then
      match Unquote(s[1..])
      case Some(rest) => Some([s[0]] + rest)
      case None => None
    else if |s| >= 2 && s[1] == '"' then
      match Unquote(s[2..])
      case Some(rest) => Some(['"'] + rest)
      case None => None
    else None
  }

  /** A field as RFC 4180 reads it: an enclosed field is unquoted, any other is taken as it is. */
  function ReadField(field: string): Option<string>
  {
    if |field| >= 2 && field[0] == '"' && field[|field| - 1] == '"' then Unquote(field[1..|field| - 1]) else Some(field)
  }

  lemma {:induction false} UnquotePlain(a: string, b: string)
    requires '"' !in a
    ensures Unquote(a + b) == (match Unquote(b) case Some(rest) => Some(a + rest) case None => None)
  {
    if a != [] {
      assert (a + b)[1..] == a[1..] + b;
      UnquotePlain(a[1..], b);
      if Unquote(b).Some? {
        assert [a[0]] + (a[1..] + Unquote(b).value) == a + Unquote(b).value;
      }
    } else {
      assert a + b == b;
      if Unquote(b).Some? {
        assert a + Unquote(b).value == Unquote(b).value;
      }
    }
  }

  /** A field with at most one double quote reads back as the text it was made from. */
  lemma CsvRoundTrip(text: string)
    requires multiset(text)['"'] <= 1
    ensures ReadField(CsvEscape(text)) == Some(text)
  {
    CsvEscapeQuotes(text);
    if !NeedsQuotes(text) {
      assert |text| >= 2 && text[0] == '"' ==> '"' in text;
    } else if '"' !in text {
      RoundTripNoQuote(text);
    } else {
      RoundTripOneQuote(text);
    }
  }

  lemma RoundTripNoQuote(text: string)
    requires NeedsQuotes(text) && '"' !in text
    ensures ReadField(CsvEscape(text)) == Some(text)
  {
    CsvEscapeQuotes(text);
    IndexOfChar(text, '"');
    var r := CsvEscape(text);
    assert r == "\"" + text + "\"";
    assert r[1..|r| - 1] == text;
    UnquotePlain(text, []);
    assert text + [] == text;
  }

  lemma RoundTripOneQuote(text: string)
    requires multiset(text)['"'] <= 1 && '"' in text
    ensures ReadField(CsvEscape(text)) == Some(text)
  {
    IndexOfChar(text, '"');
    var i := JsText.IndexOf(text, "\"");
    var a, b := text[..i], text[i + 1..];
    assert text[i..i + 1] == "\"";
    QuoteFreeBefore(text, i);
    QuoteFreeAfter(text, i);
    EscapeFirstQuote(text, i);
    UnquoteDoubled(a, b);
    var r := CsvEscape(text);
    assert ReadField(r) == Unquote(r[1..|r| - 1]) == Unquote(a + ("\"\"" + b));
    SplitAt(text, i);
  }

  lemma SplitAt<T>(s: seq<T>, i: int)
    requires 0 <= i < |s|
    ensures s == s[..i] + [s[i]] + s[i + 1..]
  {
  }

  /** No double quote comes before the first one. */
  lemma QuoteFreeBefore(text: string, i: int)
    requires 0 <= i < |text| && JsText.IndexOf(text, "\"") == i
    ensures '"' !in text[..i]
  {
    var a := text[..i];
    forall k | 0 <= k < |a| ensures a[k] != '"' {
      assert !JsText.OccursAt(text, "\"", k);
      assert text[k..k + 1] == [a[k]];
    }
  }

  /** In a text with one double quote, none comes after it. */
  lemma QuoteFreeAfter(text: string, i: int)
    requires multiset(text)['"'] <= 1 && 0 <= i < |text| && text[i] == '"'
    ensures '"' !in text[i + 1..]
  {
    SplitAt(text, i);
    assert multiset(text) == multiset(text[..i]) + multiset{'"'} + multiset(text[i + 1..]);
  }

  /** The field made from a text whose first double quote is at `i`: that quote doubled, then enclosed. */
  lemma EscapeFirstQuote(text: string, i: int)
    requires 0 <= i < |text| && JsText.IndexOf(text, "\"") == i
    ensures var r := CsvEscape(text);
            |r| >= 2 && r[0] == '"' && r[|r| - 1] == '"' && r[1..|r| - 1] == text[..i] + ("\"\"" + text[i + 1..])
  {
    assert text[i..i + 1] == "\"";
    assert text[i] == '"';
    assert NeedsQuotes(text);
    assert ReplaceFirst(text, "\"", "\"\"") == text[..i] + "\"\"" + text[i + 1..];
    JsText.ConcatAssoc(text[..i], "\"\"", text[i + 1..]);
  }

  lemma UnquoteDoubled(a: string, b: string)
    requires '"' !in a && '"' !in b
    ensures Unquote(a + ("\"\"" + b)) == Some(a + ['"'] + b)
  {
    var q := "\"\"" + b;
    UnquotePlain(b, []);
    assert b + [] == b;
    assert q[0] == '"' && q[1] == '"' && q[2..] == b;
    assert Unquote(q) == Some(['"'] + b);
    UnquotePlain(a, q);
    assert a + (['"'] + b) == a + ['"'] + b;
  }

  /** A field with two double quotes comes out as an enclosed field with a lone double quote, which RFC 4180 does not allow. */
  lemma QuirkNotRfc4180()
    ensures CsvEscape("a\"b\"") == "\"a\"\"b\"\""
    ensures ReadField(CsvEscape("a\"b\"")) == None
  {
    var text := "a\"b\"";
    assert text[..1] == "a";
    assert text[1..][..1] == "\"";
    assert JsText.IndexOf(text, "\"") == 1;
    assert ReplaceFirst(text, "\"", "\"\"") == "a\"\"b\"";
    var field := "\"a\"\"b\"\"";
    assert CsvEscape(text) == field;
    var inner := "a\"\"b\"";
    assert field[1..|field| - 1] == inner;
    assert inner[1..] == "\"\"b\"";
    assert inner[1..][2..] == "b\"";
    assert inner[1..][2..][1..] == "\"";
  }

  // metadataToCSV

  /** The line of the `k`-th row (counting from 1). */
  function RowLine(k: nat, row: CsvRow): string
  {
    JsText.NatToString(k) + "," + CsvEscape(row.name) + "," + CsvEscape(row.value)
  }

  /** The header line, then one line per row in input order. */
  function Lines(rows: seq<CsvRow>): (r: seq<string>)
    ensures |r| == |rows| + 1 && r[0] == HEADER
  {
    if rows == [] then [HEADER] else Lines(rows[..|rows| - 1]) + [RowLine(|rows|, rows[|rows| - 1])]
  }

  /** What `metadataToCSV` returns: the lines joined by CR LF, with no line break at the end. */
  function CsvText(rows: seq<CsvRow>): string
  {
    JsText.Join(Lines(rows), CRLF)
  }

  lemma Snoc<T>(s: seq<T>, x: T)
    ensures (s + [x])[..|s|] == s && (s + [x])[|s|] == x && |s + [x]| == |s| + 1
  {
  }

  /** Line `k + 1` is the line of row `k`, numbered `k + 1`: the rows keep their order. */
  lemma {:induction false} LinesAt(rows: seq<CsvRow>, k: nat)
    requires k < |rows|
    ensures Lines(rows)[k + 1] == RowLine(k + 1, rows[k])
  {
    var init := rows[..|rows| - 1];
    if k < |rows| - 1 {
      LinesAt(init, k);
      assert Lines(rows)[k + 1] == Lines(init)[k + 1];
    }
  }

  lemma LinesAppend(rows: seq<CsvRow>, row: CsvRow)
    ensures Lines(rows + [row]) == Lines(rows) + [RowLine(|rows| + 1, row)]
  {
    Snoc(rows, row);
  }

  /** A row added at the end adds CR LF and its line, numbered after the rows before it. */
  lemma CsvAppend(rows: seq<CsvRow>, row: CsvRow)
    ensures CsvText(rows + [row]) == CsvText(rows) + CRLF + RowLine(|rows| + 1, row)
  {
    LinesAppend(rows, row);
    Snoc(Lines(rows), RowLine(|rows| + 1, row));
  }

  lemma CsvPrefixStep(rows: seq<CsvRow>, k: nat)
    requires k < |rows|
    ensures CsvText(rows[..k + 1]) == CsvText(rows[..k]) + CRLF + RowLine(k + 1, rows[k])
  {
    assert rows[..k + 1] == rows[..k] + [rows[k]];
    CsvAppend(rows[..k], rows[k]);
  }

  /** No rows: the header alone, without a line break. */
  lemma CsvEmpty()
    ensures CsvText([]) == HEADER
  {
  }

  /** For each row in order, CR LF and the row's numbered line. */
  function RowPieces(rows: seq<CsvRow>): (r: seq<string>)
    ensures |r| == |rows|
  {
    if rows == [] then [] else RowPieces(rows[..|rows| - 1]) + [CRLF + RowLine(|rows|, rows[|rows| - 1])]
  }

  /** The pieces of all rows: the pieces of all but the last, then the last row's. */
  lemma RowPiecesLast(rows: seq<CsvRow>)
    requires rows != []
    ensures JsText.Flatten(RowPieces(rows)) == JsText.Flatten(RowPieces(rows[..|rows| - 1])) + CRLF + RowLine(|rows|, rows[|rows| - 1])
  {
    var init, x := rows[..|rows| - 1], CRLF + RowLine(|rows|, rows[|rows| - 1]);
    var p := RowPieces(rows);
    assert p == RowPieces(init) + [x];
    Snoc(RowPieces(init), x);
    var before := JsText.Flatten(RowPieces(init));
    assert JsText.Flatten(p) == before + x;
    JsText.ConcatAssoc(before, CRLF, RowLine(|rows|, rows[|rows| - 1]));
  }

  /** The text of all rows: the text of all but the last, then CR LF and the last row's line. */
  lemma CsvLast(rows: seq<CsvRow>)
    requires rows != []
    ensures CsvText(rows) == CsvText(rows[..|rows| - 1]) + CRLF + RowLine(|rows|, rows[|rows| - 1])
  {
    CsvPrefixStep(rows, |rows| - 1);
    assert rows[..|rows|] == rows;
  }

  lemma Associative<T>(a: seq<T>, b: seq<T>, c: seq<T>, d: seq<T>)
    ensures a + b + c + d == a + (b + c + d)
  {
  }

  /** The text is the header followed, for each row in order, by CR LF and the row's numbered line. */
  lemma {:induction false} CsvLayout(rows: seq<CsvRow>)
    ensures CsvText(rows) == HEADER + JsText.Flatten(RowPieces(rows))
  {
    if rows != [] {
      var init := rows[..|rows| - 1];
      CsvLast(rows);
      CsvLayout(init);
      RowPiecesLast(rows);
      Associative(HEADER, JsText.Flatten(RowPieces(init)), CRLF, RowLine(|rows|, rows[|rows| - 1]));
    } else {
      CsvEmpty();
    }
  }

  /** `metadataToCSV` over the rows of `getMetadata`. */
  method MetadataToCsvText(rows: seq<CsvRow>) returns (csv: string)
    ensures csv == CsvText(rows)
  {
    var result := HEADER + CRLF;
    var i := 1;
    CsvEmpty();
    for k := 0 to |rows|
      invariant i == k + 1
      invariant result == CsvText(rows[..k]) + CRLF
    {
      CsvPrefixStep(rows, k);
      result := result + RowLine(i, rows[k]) + CRLF;
      i := i + 1;
    }
    assert rows[..|rows|] == rows;
    csv := result[..|result| - 2];
  }
}
