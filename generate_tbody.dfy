/**
 * generate_tbody.mjs: `escapeHtml` and the classification of a metadata row into selected,
 * disabled or neither. Reading the image, loading its metadata and printing the rows are
 * input and output and are not part of this model.
 */
module GenerateTbody {
  import JsText

  const METADATA_ID_PREFIX: string := "metadata__"
  const DEFAULT_SELECTED_LEVEL: int := 2

  /** The characters `matchHtmlRegExp` finds: `"`, `&`, `'`, `<` and `>`. */
  predicate IsSpecial(c: char)
  {
    c == '"' || c == '&' || c == '\'' || c == '<' || c == '>'
  }

  /** What `escapeHtml` writes for one character: a special character's entity, any other character itself. */
  function Entity(c: char): string
  {
    match c
    case '"' => "&quot;"
    case '&' => "&amp;"
    case '\'' => "&#39;"
    case '<' => "&lt;"
    case '>' => "&gt;"
    case _ => [c]
  }

  /** The text holds no special character. */
  predicate Plain(s: string)
  {
    forall j :: 0 <= j < |s| ==> !IsSpecial(s[j])
  }

  /** The escaped text: each character replaced by `Entity`, in order. */
  function Escaped(s: string): (r: string)
    ensures |s| <= |r| <= 6 * |s|
  {
    if s == [] then [] else Entity(s[0]) + Escaped(s[1..])
  }

  /** Escaping keeps the length of a text exactly when the text holds no special character. */
  lemma {:induction false} EscapedLength(s: string)
    ensures |Escaped(s)| == |s| <==> Plain(s)
  {
    if s != [] {
      var t := s[1..];
      EscapedLength(t);
      assert Escaped(s) == Entity(s[0]) + Escaped(t);
      assert |Entity(s[0])| == 1 <==> !IsSpecial(s[0]);
      if Plain(t) && !IsSpecial(s[0]) {
        forall j | 0 <= j < |s|
          ensures !IsSpecial(s[j])
        {
          if j > 0 {
            assert s[j] == t[j - 1];
          }
        }
      }
      if Plain(s) {
        forall j | 0 <= j < |t|
          ensures !IsSpecial(t[j])
        {
          assert t[j] == s[j + 1];
        }
      }
    }
  }

  /** `matchHtmlRegExp.exec(str)`: the position of the first special character, or -1 when there is none. */
  function FirstSpecial(s: string): (r: int)
    ensures -1 <= r < |s|
    ensures r == -1 ==> forall j :: 0 <= j < |s| ==> !IsSpecial(s[j])
    ensures r >= 0 ==> IsSpecial(s[r]) && forall j :: 0 <= j < r ==> !IsSpecial(s[j])
  {
    if s == [] then -1
    else if IsSpecial(s[0]) then 0
    else
      var r := FirstSpecial(s[1..]);
      assert forall j :: 1 <= j < |s| ==> s[j] == s[1..][j - 1];
      if r == -1 then -1 else r + 1
  }

  /** A text without special characters is returned unchanged. */
  lemma {:induction false} EscapedPlain(s: string)
    requires forall j :: 0 <= j < |s| ==> !IsSpecial(s[j])
    ensures Escaped(s) == s
  {
    if s != [] {
      assert forall j :: 0 <= j < |s| - 1 ==> s[1..][j] == s[j + 1];
      EscapedPlain(s[1..]);
      assert [s[0]] + s[1..] == s;
    }
  }

  /** Escaping works character by character: the escape of a concatenation is the concatenation of the escapes. */
  lemma {:induction false} EscapedAppend(a: string, b: string)
    ensures Escaped(a + b) == Escaped(a) + Escaped(b)
  {
    if a == [] {
      assert a + b == b;
    } else {
      assert (a + b)[0] == a[0];
      assert (a + b)[1..] == a[1..] + b;
      EscapedAppend(a[1..], b);
    }
  }

  lemma EscapedOne(c: char)
    ensures Escaped([c]) == Entity(c)
  {
    assert [c][1..] == [];
  }

  /**
   * One escape of the loop: the copied run of plain characters from `lastIndex`, then the
   * entity at `index`, extend the escape of the text before `lastIndex` to the text up to
   * and including `index`.
   */
  lemma EscapeStep(s: string, lastIndex: nat, index: nat)
    requires lastIndex <= index < |s|
    requires forall j :: lastIndex <= j < index ==> !IsSpecial(s[j])
    ensures Escaped(s[..lastIndex]) + s[lastIndex..index] + Entity(s[index]) == Escaped(s[..index + 1])
  {
    var run := s[lastIndex..index];
    assert s[..index + 1] == s[..lastIndex] + run + [s[index]];
    forall j | 0 <= j < |run|
      ensures !IsSpecial(run[j])
    {
      assert run[j] == s[lastIndex + j];
    }
    EscapedAppend(s[..lastIndex] + run, [s[index]]);
    EscapedAppend(s[..lastIndex], run);
    EscapedPlain(run);
    EscapedOne(s[index]);
  }

  /** The plain characters after the last entity complete the escape of the whole text. */
  lemma EscapeTail(s: string, lastIndex: nat)
    requires lastIndex <= |s|
    requires forall j :: lastIndex <= j < |s| ==> !IsSpecial(s[j])
    ensures Escaped(s[..lastIndex]) + s[lastIndex..] == Escaped(s)
  {
    var pre, run := s[..lastIndex], s[lastIndex..];
    forall j | 0 <= j < |run|
      ensures !IsSpecial(run[j])
    {
      assert run[j] == s[lastIndex + j];
    }
    calc {
      Escaped(s);
      { JsText.TakeDrop(s, lastIndex); }
      Escaped(pre + run);
      { EscapedAppend(pre, run); }
      Escaped(pre) + Escaped(run);
      { EscapedPlain(run); }
      Escaped(pre) + run;
    }
  }

  /** `escapeHtml(str)`. */
  method EscapeHtml(str: string) returns (r: string)
    ensures r == Escaped(str)
  {
    var m := FirstSpecial(str);
    if m == -1 {
      EscapedPlain(str);
      return str;
    }
    var html := "";
    var index := m;
    var lastIndex := 0;
    while index < |str|
      invariant 0 <= lastIndex <= index <= |str|
      invariant html == Escaped(str[..lastIndex])
      invariant forall j :: lastIndex <= j < index ==> !IsSpecial(str[j])
    {
      var escape: string;
      match str[index] {
        case '"' => escape := "&quot;";
        case '&' => escape := "&amp;";
        case '\'' => escape := "&#39;";
        case '<' => escape := "&lt;";
        case '>' => escape := "&gt;";
        case _ =>
          index := index + 1;
          continue;
      }
      assert escape == Entity(str[index]);
      EscapeStep(str, lastIndex, index);
      ghost var run := str[lastIndex..index];
      if lastIndex != index {
        html := html + str[lastIndex..index];
      } else {
        AppendEmpty(html, run);
      }
      lastIndex := index + 1;
      html := html + escape;
      index := index + 1;
    }
    EscapeTail(str, lastIndex);
    assert str[lastIndex..index] == str[lastIndex..];
    if lastIndex != index {
      r := html + str[lastIndex..index];
    } else {
      AppendEmpty(html, str[lastIndex..]);
      r := html;
    }
  }

  lemma AppendEmpty<T>(s: seq<T>, empty: seq<T>)
    requires |empty| == 0
    ensures s + empty == s
  {
  }

  /** The escaped text holds no `"`, `'`, `<` or `>`: each became an entity, and entities are made of other characters. */
  lemma {:induction false} EscapedIsInert(s: string)
    ensures forall j :: 0 <= j < |Escaped(s)| ==> Escaped(s)[j] != '"' && Escaped(s)[j] != '\'' && Escaped(s)[j] != '<' && Escaped(s)[j] != '>'
  {
    if s != [] {
      EscapedIsInert(s[1..]);
      var e, rest := Entity(s[0]), Escaped(s[1..]);
      assert forall j :: 0 <= j < |e| ==> e[j] != '"' && e[j] != '\'' && e[j] != '<' && e[j] != '>';
      assert forall j :: |e| <= j < |e| + |rest| ==> (e + rest)[j] == rest[j - |e|];
    }
  }

  /** Reads HTML text back: each of the five entities becomes its character, every other character stays. */
  function Unescape(s: string): string
  {
    if s == [] then []
    else if |s| >= 6 && s[..6] == "&quot;" then "\"" + Unescape(s[6..])
    else if |s| >= 5 && s[..5] == "&amp;" then "&" + Unescape(s[5..])
    else if |s| >= 5 && s[..5] == "&#39;" then "'" + Unescape(s[5..])
    else if |s| >= 4 && s[..4] == "&lt;" then "<" + Unescape(s[4..])
    else if |s| >= 4 && s[..4] == "&gt;" then ">" + Unescape(s[4..])
    else [s[0]] + Unescape(s[1..])
  }

  lemma UnescapeEntity(c: char, rest: string)
    ensures Unescape(Entity(c) + rest) == [c] + Unescape(rest)
  {
    match c {
      case '"' => UnescapeQuot(rest);
      case '&' => UnescapeAmp(rest);
      case '\'' => UnescapeApos(rest);
      case '<' => UnescapeLt(rest);
      case '>' => UnescapeGt(rest);
      case _ => UnescapeOther(c, rest);
    }
  }

  lemma UnescapeOther(c: char, rest: string)
    requires c != '&'
    ensures Unescape([c] + rest) == [c] + Unescape(rest)
  {
    var s := [c] + rest;
    assert s[0] == c && s[1..] == rest;
    assert |s| >= 4 ==> s[..4][0] != '&' && s[..4] != "&lt;" && s[..4] != "&gt;";
    assert |s| >= 5 ==> s[..5][0] != '&' && s[..5] != "&amp;" && s[..5] != "&#39;";
    assert |s| >= 6 ==> s[..6][0] != '&' && s[..6] != "&quot;";
  }

  lemma UnescapeQuot(rest: string)
    ensures Unescape("&quot;" + rest) == "\"" + Unescape(rest)
  {
    var s := "&quot;" + rest;
    assert s[..6] == "&quot;" && s[6..] == rest;
  }

  lemma UnescapeAmp(rest: string)
    ensures Unescape("&amp;" + rest) == "&" + Unescape(rest)
  {
    var s := "&amp;" + rest;
    assert s[1] == 'a' && s[..5] == "&amp;" && s[5..] == rest;
  }

  lemma UnescapeApos(rest: string)
    ensures Unescape("&#39;" + rest) == "'" + Unescape(rest)
  {
    var s := "&#39;" + rest;
    assert s[1] == '#' && s[..5] == "&#39;" && s[5..] == rest;
  }

  lemma UnescapeLt(rest: string)
    ensures Unescape("&lt;" + rest) == "<" + Unescape(rest)
  {
    var s := "&lt;" + rest;
    assert s[1] == 'l' && s[..4] == "&lt;" && s[4..] == rest;
  }

  lemma UnescapeGt(rest: string)
    ensures Unescape("&gt;" + rest) == ">" + Unescape(rest)
  {
    var s := "&gt;" + rest;
    assert s[1] == 'g' && s[..4] == "&gt;" && s[4..] == rest;
  }

  /** Unescaping the escaped text gives the original text back: no two texts escape alike. */
  lemma {:induction false} EscapeRoundTrip(s: string)
    ensures Unescape(Escaped(s)) == s
  {
    if s != [] {
      UnescapeEntity(s[0], Escaped(s[1..]));
      EscapeRoundTrip(s[1..]);
      assert [s[0]] + s[1..] == s;
    }
  }

  // The classes of one row

  /** The parts of a row's markup that depend on the metadata entry. */
  datatype RowMarkup = RowMarkup(rowId: string, selected: bool, trClasses: seq<string>, div1Classes: seq<string>, inputAttr: string)

  /**
   * The classification in the loop over `getMetadata()`: a row is selected when its level is
   * at least 2, which ticks its checkbox; otherwise it is disabled when its level is 0; rows
   * of level 1 (or below 0, other than 0) are neither.
   */
  method ClassifyRow(id: string, level: int) returns (row: RowMarkup)
    ensures row.rowId == METADATA_ID_PREFIX + id
    ensures row.selected <==> level >= DEFAULT_SELECTED_LEVEL
    ensures |row.trClasses| >= 1 && row.trClasses[0] == "mdc-data-table__row"
    ensures "mdc-data-table__row--selected" in row.trClasses <==> level >= DEFAULT_SELECTED_LEVEL
    ensures "rime_select_disabled" in row.trClasses <==> level == 0
    ensures "mdc-checkbox--selected" in row.div1Classes <==> level >= DEFAULT_SELECTED_LEVEL
    ensures row.inputAttr == " checked" <==> level >= DEFAULT_SELECTED_LEVEL
    ensures row.inputAttr == " disabled" <==> level == 0
    ensures row.inputAttr == "" <==> level < DEFAULT_SELECTED_LEVEL && level != 0
  {
    var selected := level >= DEFAULT_SELECTED_LEVEL;
    var disabled := level == 0;
    var metadataId := METADATA_ID_PREFIX + id;
    var trClasses := ["mdc-data-table__row"];
    var div1Classes := ["mdc-checkbox", "mdc-data-table__row-checkbox"];
    var inputAttr := "";
    if selected {
      trClasses := trClasses + ["mdc-data-table__row--selected"];
      div1Classes := div1Classes + ["mdc-checkbox--selected"];
      inputAttr := " checked";
    } else if disabled {
      trClasses := trClasses + ["rime_select_disabled"];
      inputAttr := " disabled";
    }
    row := RowMarkup(metadataId, selected, trClasses, div1Classes, inputAttr);
  }
}
