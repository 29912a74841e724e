/** `OlapController::parseXmlaResponse`: the SOAP Fault check with its own messages,
    then one record per row from the row's first data cell, named after the cell's
    decoded element name. */
module FirstCell {
  import opened Wrappers
  import Text
  import opened Xmla

  const ErrorPrefix := "MDX Execution Error: "
  const UnknownError := "Unknown MDX Error (SOAP Fault detected)"

  /** The three `_xHHHH_` escapes of XML names (ISO/IEC 9075-14) the decoder knows. */
  const OpenEscape := "_x005b_"
  const CloseEscape := "_x005d_"
  const SpaceEscape := "_x0020_"

  const MeasuresPrefix := "[Measures]."

  /** None of the three escapes occurs in `s`. */
  ghost predicate Unescaped(s: string)
  {
    Text.Free(s, OpenEscape) && Text.Free(s, CloseEscape) && Text.Free(s, SpaceEscape)
  }

  /** `str_replace` with arrays: one whole-string pass per escape, in array order. */
  function DecodeName(name: string): (r: string)
    ensures Unescaped(r)
  {
    var r1 := Text.ReplaceAll(name, OpenEscape, '[');
    var r2 := Text.ReplaceAll(r1, CloseEscape, ']');
    var r3 := Text.ReplaceAll(r2, SpaceEscape, ' ');
    Text.ReplaceRemoves(name, OpenEscape, '[');
    Text.ReplaceRemoves(r1, CloseEscape, ']');
    Text.ReplaceRemoves(r2, SpaceEscape, ' ');
    Text.ReplaceKeepsFree(r1, CloseEscape, ']', OpenEscape);
    Text.ReplaceKeepsFree(r2, SpaceEscape, ' ', OpenEscape);
    Text.ReplaceKeepsFree(r2, SpaceEscape, ' ', CloseEscape);
    r3
  }

  /** A name without the escapes is left as it is. */
  lemma DecodeUnescaped(s: string)
    requires Unescaped(s)
    ensures DecodeName(s) == s
  {
    Text.ReplaceAbsent(s, OpenEscape, '[');
    Text.ReplaceAbsent(s, CloseEscape, ']');
    Text.ReplaceAbsent(s, SpaceEscape, ' ');
  }

  /** The names decoding leaves unchanged are exactly those without the escapes. */
  lemma DecodeFixedPoints(s: string)
    ensures DecodeName(s) == s <==> Unescaped(s)
  {
    if Unescaped(s) {
      DecodeUnescaped(s);
    }
  }

  /** Decoding never produces a new escape, so decoding twice is decoding once. */
  lemma DecodeIdempotent(s: string)
    ensures DecodeName(DecodeName(s)) == DecodeName(s)
  {
    DecodeUnescaped(DecodeName(s));
  }

  /** A name without `_` has no escapes. */
  lemma NoUnderscoreUnescaped(s: string)
    requires '_' !in s
    ensures Unescaped(s)
  {
    assert OpenEscape[0] == '_' && CloseEscape[0] == '_' && SpaceEscape[0] == '_';
    forall i ensures !Text.OccursAt(s, OpenEscape, i) && !Text.OccursAt(s, CloseEscape, i)
                     && !Text.OccursAt(s, SpaceEscape, i) {
      if 0 <= i && i + 7 <= |s| {
        assert s[i..i + 7][0] == s[i];
      }
    }
  }

  /** The escape of `[`, `]` or space. */
  function EscapeOf(c: char): string
  {
    if c == '[' then OpenEscape else if c == ']' then CloseEscape else SpaceEscape
  }

  predicate IsEscape(q: string)
  {
    q == OpenEscape || q == CloseEscape || q == SpaceEscape
  }

  /** The characters still escaped after `stage` decoding passes. */
  predicate EscapedAt(c: char, stage: nat)
  {
    || (stage == 0 && c == '[')
    || (stage <= 1 && c == ']')
    || (stage <= 2 && c == ' ')
  }

  /** The name of `s` as XMLA writes it, with the characters of the first `stage`
      passes already decoded. `EncodeAt(s, 0)` escapes all three characters. */
  function EncodeAt(s: string, stage: nat): string
  {
    if |s| == 0 then ""
    else (if EscapedAt(s[0], stage) then EscapeOf(s[0]) else [s[0]]) + EncodeAt(s[1..], stage)
  }

  /** The names whose escaping the decoder inverts: no `_`, and no `[`, `]` or space
      directly followed by `x`, which would let an escape's closing `_` start another. */
  predicate Encodable(s: string)
  {
    '_' !in s && forall k :: 0 <= k < |s| - 1 && EscapedAt(s[k], 0) ==> s[k + 1] != 'x'
  }

  lemma EncodableTail(s: string)
    requires |s| > 0 && Encodable(s)
    ensures Encodable(s[1..])
  {
    assert forall c :: c in s[1..] ==> c in s;
    forall k | 0 <= k < |s[1..]| - 1 && EscapedAt(s[1..][k], 0) ensures s[1..][k + 1] != 'x' {
      assert s[1..][k] == s[k + 1] && s[1..][k + 1] == s[k + 2];
    }
  }

  /** Two encodable names joined where no escaped character meets an `x`. */
  lemma EncodableAppend(a: string, b: string)
    requires Encodable(a) && Encodable(b)
    requires |a| > 0 && |b| > 0 && EscapedAt(a[|a| - 1], 0) ==> b[0] != 'x'
    ensures Encodable(a + b)
  {
    var s := a + b;
    assert forall c :: c in s ==> c in a || c in b;
    forall k | 0 <= k < |s| - 1 && EscapedAt(s[k], 0) ensures s[k + 1] != 'x' {
      if k < |a| - 1 {
        assert s[k] == a[k] && s[k + 1] == a[k + 1];
      } else if k == |a| - 1 {
        assert s[k] == a[k] && s[k + 1] == b[0];
      } else {
        assert s[k] == b[k - |a|] && s[k + 1] == b[k - |a| + 1];
      }
    }
  }

  /** A name without `[`, `]`, space or `_` is encodable, `x` or not. */
  lemma PlainEncodable(a: string)
    requires '[' !in a && ']' !in a && ' ' !in a && '_' !in a
    ensures Encodable(a)
  {
    forall k | 0 <= k < |a| ensures !EscapedAt(a[k], 0) {
      assert a[k] in a;
    }
  }

  /** The XML-name escaping of `[`, `]` and space. */
  function Encode(s: string): string
  {
    EncodeAt(s, 0)
  }

  /** The pattern and replacement of pass `stage`, in the order of the source's arrays. */
  function PassPattern(stage: nat): string
  {
    if stage == 0 then OpenEscape else if stage == 1 then CloseEscape else SpaceEscape
  }

  function PassChar(stage: nat): char
  {
    if stage == 0 then '[' else if stage == 1 then ']' else ' '
  }

  /** Text without `_` passes through a pass unchanged. */
  lemma {:induction false} SkipPlain(x: string, t: string, pat: string, c: char)
    requires |pat| > 0 && pat[0] == '_' && '_' !in x
    ensures Text.ReplaceAll(x + t, pat, c) == x + Text.ReplaceAll(t, pat, c)
    decreases |x|
  {
    if |x| > 0 {
      var s := x + t;
      if |s| >= |pat| {
        assert s[..|pat|][0] == x[0];
      }
      assert s[1..] == x[1..] + t;
      SkipPlain(x[1..], t, pat, c);
      assert s == [x[0]] + (x[1..] + t);
    } else {
      assert x + t == t;
    }
  }

  /** The pattern itself is replaced. */
  lemma AtPattern(t: string, pat: string, c: char)
    requires |pat| > 0
    ensures Text.ReplaceAll(pat + t, pat, c) == [c] + Text.ReplaceAll(t, pat, c)
  {
    assert (pat + t)[..|pat|] == pat;
    assert (pat + t)[|pat|..] == t;
  }

  /** Every escape is `_x`, four characters without `_`, and `_`. */
  lemma EscapeShape(q: string)
    requires IsEscape(q)
    ensures |q| == 7 && q[0] == '_' && q[1] == 'x' && q[6] == '_' && '_' !in q[1..6]
  {
    assert q[1..6] == [q[1], q[2], q[3], q[4], q[5]];
  }

  /** A different escape passes unchanged when the text after it cannot continue its
      closing `_` into another escape. */
  lemma OtherEscape(q: string, t: string, pat: string, c: char)
    requires IsEscape(q) && IsEscape(pat) && q != pat
    requires |t| == 0 || t[0] != 'x'
    ensures Text.ReplaceAll(q + t, pat, c) == q + Text.ReplaceAll(t, pat, c)
  {
    var s := q + t;
    EscapeShape(q);
    EscapeShape(pat);
    assert s[..7] == q;
    assert q[1..] == q[1..6] + "_";
    assert s[1..] == q[1..] + t;
    assert s[1..] == q[1..6] + ("_" + t);
    SkipPlain(q[1..6], "_" + t, pat, c);
    var u := "_" + t;
    if |u| >= 7 {
      assert u[..7][1] != pat[1];
      assert u[1..] == t;
    } else {
      assert Text.ReplaceAll(t, pat, c) == t;
    }
    assert q == [q[0]] + q[1..6] + "_";
  }

  /** One decoding pass undoes its own escape and keeps the others, on encodable names. */
  lemma {:induction false} PassStage(s: string, stage: nat)
    requires stage < 3 && Encodable(s)
    ensures Text.ReplaceAll(EncodeAt(s, stage), PassPattern(stage), PassChar(stage)) == EncodeAt(s, stage + 1)
    decreases |s|
  {
    var pat, c := PassPattern(stage), PassChar(stage);
    if |s| > 0 {
      var t := EncodeAt(s[1..], stage);
      EncodableTail(s);
      PassStage(s[1..], stage);
      if s[0] == c {
        AtPattern(t, pat, c);
      } else if EscapedAt(s[0], stage) {
        if |s[1..]| > 0 {
          assert s[1..][0] == s[1] && s[1] != 'x';
          assert t[0] == '_' || t[0] == s[1];
        }
        OtherEscape(EscapeOf(s[0]), t, pat, c);
      } else {
        assert s[0] in s;
        SkipPlain([s[0]], t, pat, c);
      }
    }
  }

  /** Decoding inverts the escaping on encodable names, such as the measure and level
      names of the cubes. */
  lemma DecodeEncode(s: string)
    requires Encodable(s)
    ensures DecodeName(Encode(s)) == s
  {
    PassStage(s, 0);
    PassStage(s, 1);
    PassStage(s, 2);
    UnescapedAtEnd(s);
  }

  lemma {:induction false} UnescapedAtEnd(s: string)
    ensures EncodeAt(s, 3) == s
    decreases |s|
  {
    if |s| > 0 {
      UnescapedAtEnd(s[1..]);
    }
  }

  /** The passes in another order: `_x005d_` first. */
  function DecodeCloseFirst(name: string): string
  {
    Text.ReplaceAll(Text.ReplaceAll(Text.ReplaceAll(name, CloseEscape, ']'), OpenEscape, '['), SpaceEscape, ' ')
  }

  /** `preg_replace('/^\[Measures\]\./', '', s)`. */
  function StripMeasures(s: string): (r: string)
    ensures |s| >= |MeasuresPrefix| && s[..|MeasuresPrefix|] == MeasuresPrefix ==> s == MeasuresPrefix + r
    ensures !(|s| >= |MeasuresPrefix| && s[..|MeasuresPrefix|] == MeasuresPrefix) ==> r == s
  {
    if |s| >= |MeasuresPrefix| && s[..|MeasuresPrefix|] == MeasuresPrefix then s[|MeasuresPrefix|..] else s
  }

  /** The prefix is removed once, not repeatedly. */
  lemma StripOnce(x: string)
    ensures StripMeasures(MeasuresPrefix + x) == x
    ensures StripMeasures(MeasuresPrefix + MeasuresPrefix + x) == MeasuresPrefix + x
  {
    assert (MeasuresPrefix + x)[..|MeasuresPrefix|] == MeasuresPrefix;
    assert (MeasuresPrefix + MeasuresPrefix + x)[..|MeasuresPrefix|] == MeasuresPrefix;
    assert MeasuresPrefix + MeasuresPrefix + x == MeasuresPrefix + (MeasuresPrefix + x);
  }

  /** The `measure` of a record: the decoded name without a leading `[Measures].`. */
  function MeasureName(localName: string): (r: string)
    ensures Unescaped(r)
  {
    var d := DecodeName(localName);
    StripKeepsUnescaped(d);
    StripMeasures(d)
  }

  lemma StripKeepsUnescaped(d: string)
    requires Unescaped(d)
    ensures Unescaped(StripMeasures(d))
  {
    if |d| >= |MeasuresPrefix| && d[..|MeasuresPrefix|] == MeasuresPrefix {
      Text.FreeSuffix(d, OpenEscape, |MeasuresPrefix|);
      Text.FreeSuffix(d, CloseEscape, |MeasuresPrefix|);
      Text.FreeSuffix(d, SpaceEscape, |MeasuresPrefix|);
    }
  }

  /** The record a row contributes: its first data cell, if it has one. */
  function RowRecord(row: seq<Cell>): Option<Record>
  {
    var cells := DataCells(row);
    if |cells| == 0 then None
    else Some(Record(MeasureName(cells[0].localName), Coerce(cells[0].text)))
  }

  /** What each row contributes. */
  function Outcomes(rows: seq<seq<Cell>>): (r: seq<Option<Record>>)
    ensures |r| == |rows|
    ensures forall i :: 0 <= i < |rows| ==> r[i] == RowRecord(rows[i])
  {
    seq(|rows|, i requires 0 <= i < |rows| => RowRecord(rows[i]))
  }

  /** The returned array, or the message of the exception a Fault raises. */
  function ParseResponse(doc: Doc): (r: Result<seq<Record>, string>)
    ensures HasFault(doc) ==> r == Failure(ErrorPrefix + if |doc.descs| > 0 then doc.descs[0] else UnknownError)
    ensures !HasFault(doc) ==> r.Success? && |r.value| <= |Rows(doc)|
    ensures doc.Unparsed? ==> r == Success([])
  {
    if HasFault(doc) then Failure(ErrorPrefix + FaultMessage(doc, UnknownError))
    else Success(Somes(Outcomes(Rows(doc))))
  }

  /** A row gives a record exactly when it has a cell not named `schemaLocation`, and the
      record is built from the first such cell; the cells after it are not read. */
  lemma RowRecordIsFirstData(row: seq<Cell>)
    ensures RowRecord(row).Some? <==> exists j :: 0 <= j < |row| && row[j].localName != SchemaLocation
    ensures RowRecord(row).Some? ==>
              var i := FirstData(row).value;
              RowRecord(row).value == Record(MeasureName(row[i].localName), Coerce(row[i].text))
  {
    FirstDataCell(row);
    if exists j :: 0 <= j < |row| && row[j].localName != SchemaLocation {
      assert FirstData(row).Some?;
    }
  }

  /** One record per row that has a data cell, in document order. */
  lemma CellsInRowOrder(rows: seq<seq<Cell>>)
    ensures var r := Somes(Outcomes(rows));
            var idx := Present(Outcomes(rows));
            && |r| == |idx|
            && (forall k :: 0 <= k < |idx| ==> idx[k] < |rows| && FirstData(rows[idx[k]]).Some?)
            && (forall k :: 0 <= k < |idx| ==> r[k] == RowRecord(rows[idx[k]]).value)
            && (forall k, l :: 0 <= k < l < |idx| ==> idx[k] < idx[l])
            && (forall i :: 0 <= i < |rows| && FirstData(rows[i]).Some? ==> i in idx)
  {
    SomesByIndex(Outcomes(rows));
    forall i | 0 <= i < |rows| ensures RowRecord(rows[i]).Some? <==> FirstData(rows[i]).Some? {
      FirstDataCell(rows[i]);
    }
  }

  /** A Fault decides the outcome before any row is read. */
  lemma FaultIgnoresRows(descs: seq<string>, a: seq<seq<Cell>>, b: seq<seq<Cell>>)
    ensures ParseResponse(Parsed(true, descs, a)) == ParseResponse(Parsed(true, descs, b))
  {
  }

  /** A measure name's element name gives back the name without `[Measures].`. */
  lemma MeasureOfEncoded(x: string)
    requires Encodable(x)
    ensures MeasureName(Encode(MeasuresPrefix + x)) == x
  {
    PrefixPieces();
    assert Encodable(MeasuresPrefix) by {
      forall k | 0 <= k < |MeasuresPrefix| - 1 && EscapedAt(MeasuresPrefix[k], 0)
        ensures MeasuresPrefix[k + 1] != 'x'
      {
      }
    }
    EncodableAppend(MeasuresPrefix, x);
    DecodeEncode(MeasuresPrefix + x);
    StripOnce(x);
  }

  /** The escaping works character by character. */
  lemma {:induction false} EncodeAppend(a: string, b: string, stage: nat)
    ensures EncodeAt(a + b, stage) == EncodeAt(a, stage) + EncodeAt(b, stage)
    decreases |a|
  {
    if |a| == 0 {
      assert a + b == b;
    } else {
      assert (a + b)[1..] == a[1..] + b;
      EncodeAppend(a[1..], b, stage);
    }
  }

  /** Text without `[`, `]` or space is its own escaping. */
  lemma {:induction false} EncodePlain(x: string)
    requires '[' !in x && ']' !in x && ' ' !in x
    ensures Encode(x) == x
    decreases |x|
  {
    if |x| > 0 {
      assert x[0] in x;
      assert forall c :: c in x[1..] ==> c in x;
      EncodePlain(x[1..]);
    }
  }

  lemma EncodeChar(c: char)
    ensures Encode([c]) == if EscapedAt(c, 0) then EscapeOf(c) else [c]
  {
    assert [c][1..] == [];
    var p := if EscapedAt(c, 0) then EscapeOf(c) else [c];
    assert EncodeAt([c][1..], 0) == "";
    assert p + "" == p;
  }

  /** `[m].` for a plain word `m`. */
  lemma EncodeDimensionPrefix(m: string)
    requires '[' !in m && ']' !in m && ' ' !in m
    ensures Encode("[" + (m + ("]" + "."))) == OpenEscape + m + CloseEscape + "."
  {
    EncodeAppend("[", m + ("]" + "."), 0);
    EncodeAppend(m, "]" + ".", 0);
    EncodeAppend("]", ".", 0);
    EncodeChar('[');
    EncodeChar(']');
    EncodeChar('.');
    EncodePlain(m);
    assert OpenEscape + (m + (CloseEscape + ".")) == OpenEscape + m + CloseEscape + ".";
  }

  lemma EncodeMeasuresPrefix()
    ensures Encode(MeasuresPrefix) == OpenEscape + "Measures" + CloseEscape + "."
  {
    PrefixPieces();
    EncodeDimensionPrefix("Measures");
  }

  lemma PrefixPieces()
    ensures MeasuresPrefix == "[" + ("Measures" + ("]" + "."))
    ensures '[' !in "Measures" && ']' !in "Measures" && ' ' !in "Measures"
    ensures !EscapedAt('.', 0)
  {
  }

  /** A word `[a b]` of two plain words. */
  lemma EncodeTwoWords(a: string, b: string)
    requires '[' !in a && ']' !in a && ' ' !in a
    requires '[' !in b && ']' !in b && ' ' !in b
    ensures Encode("[" + a + " " + b + "]") == OpenEscape + a + SpaceEscape + b + CloseEscape
  {
    var t3 := b + "]";
    var t2 := " " + t3;
    var t1 := a + t2;
    assert Encode(t3) == b + CloseEscape by {
      EncodeAppend(b, "]", 0);
      EncodePlain(b);
      EncodeChar(']');
    }
    assert Encode(t2) == SpaceEscape + Encode(t3) by {
      EncodeAppend(" ", t3, 0);
      EncodeChar(' ');
    }
    assert Encode(t1) == a + Encode(t2) by {
      EncodeAppend(a, t2, 0);
      EncodePlain(a);
    }
    assert Encode("[" + t1) == OpenEscape + Encode(t1) by {
      EncodeAppend("[", t1, 0);
      EncodeChar('[');
    }
    Nest5("[", a, " ", b, "]");
    Nest5(OpenEscape, a, SpaceEscape, b, CloseEscape);
  }

  /** Concatenation nested to the right is concatenation from the left. */
  lemma Nest5(p: string, q: string, r: string, s: string, t: string)
    ensures p + (q + (r + (s + t))) == p + q + r + s + t
  {
  }

  /** `[a b]` is encodable when neither word has `[`, `]`, space or `_` or begins with `x`. */
  lemma TwoWordsEncodable(a: string, b: string)
    requires '[' !in a && ']' !in a && ' ' !in a && '_' !in a && (|a| == 0 || a[0] != 'x')
    requires '[' !in b && ']' !in b && ' ' !in b && '_' !in b && (|b| == 0 || b[0] != 'x')
    ensures Encodable("[" + a + " " + b + "]")
  {
    assert Encodable("[") && Encodable(" ") && Encodable("]");
    PlainEncodable(a);
    PlainEncodable(b);
    EncodableAppend("[", a);
    EncodableAppend("[" + a, " ");
    assert ("[" + a + " ")[|"[" + a + " "| - 1] == ' ';
    EncodableAppend("[" + a + " ", b);
    EncodableAppend("[" + a + " " + b, "]");
  }

  /** The element name of a measure `[Measures].[a b]` whose words have no `[`, `]`,
      space or `_` and do not begin with `x`, and what the parser makes of it. */
  lemma TwoWordMeasure(a: string, b: string)
    requires '[' !in a && ']' !in a && ' ' !in a && '_' !in a && (|a| == 0 || a[0] != 'x')
    requires '[' !in b && ']' !in b && ' ' !in b && '_' !in b && (|b| == 0 || b[0] != 'x')
    ensures MeasureName(OpenEscape + "Measures" + CloseEscape + "." + (OpenEscape + a + SpaceEscape + b + CloseEscape))
         == "[" + a + " " + b + "]"
  {
    var x := "[" + a + " " + b + "]";
    EncodeMeasuresPrefix();
    EncodeTwoWords(a, b);
    EncodeAppend(MeasuresPrefix, x, 0);
    TwoWordsEncodable(a, b);
    MeasureOfEncoded(x);
  }

}

/** The decoder on the literal names of the examples. The character-level facts are
    separate lemmas, so that each is checked without the decoder's definitions. */
module NameExamples {
  import Text
  import opened FirstCell

  /** The element name XMLA gives the measure `[Measures].[Sales Amount]`. */
  const SalesAmountElement := "_x005b_Measures_x005d_._x005b_Sales_x0020_Amount_x005d_"

  lemma SalesAmountPieces()
    ensures SalesAmountElement
         == OpenEscape + "Measures" + CloseEscape + "." + (OpenEscape + "Sales" + SpaceEscape + "Amount" + CloseEscape)
  {
    SalesAmountHalves();
    MeasuresHalf();
    SalesHalf();
  }

  lemma SalesAmountHalves()
    ensures "_x005b_Measures_x005d_._x005b_Sales_x0020_Amount_x005d_"
         == "_x005b_Measures_x005d_." + "_x005b_Sales_x0020_Amount_x005d_"
  {
  }

  lemma MeasuresHalf()
    ensures "_x005b_Measures_x005d_." == OpenEscape + "Measures" + CloseEscape + "."
  {
  }

  lemma SalesHalf()
    ensures "_x005b_Sales_x0020_Amount_x005d_" == OpenEscape + "Sales" + SpaceEscape + "Amount" + CloseEscape
  {
  }

  /** The `Sales Amount` measure's element name: decoding gives `[Measures].[Sales Amount]`
      and the strip leaves `[Sales Amount]`, brackets included. */
  lemma SalesAmountName()
    ensures MeasureName(SalesAmountElement) == "[Sales Amount]"
  {
    SalesAmountPieces();
    EncodedSalesAmount(SalesAmountElement);
  }

  /** The same element name, assembled from the escapes. */
  lemma EncodedSalesAmount(w: string)
    requires w == OpenEscape + "Measures" + CloseEscape + "." + (OpenEscape + "Sales" + SpaceEscape + "Amount" + CloseEscape)
    ensures MeasureName(w) == "[Sales Amount]"
  {
    PlainWords();
    TwoWordMeasure("Sales", "Amount");
  }

  lemma PlainWords()
    ensures '_' !in "Sales" && 'x' !in "Sales" && '[' !in "Sales" && ']' !in "Sales" && ' ' !in "Sales"
    ensures '_' !in "Amount" && 'x' !in "Amount" && '[' !in "Amount" && ']' !in "Amount" && ' ' !in "Amount"
  {
  }

  lemma OrderPieces()
    ensures "_x005d_x005b_" == "_" + ("x005d" + OpenEscape)
    ensures "_x005d_x005b_" == CloseEscape + "x005b_"
    ensures '_' !in "x005d"
    ensures "_x005d[" == "_" + "x005d" + "["
    ensures "_x005d["[6] == '[' && CloseEscape[6] == '_' && SpaceEscape[6] == '_'
    ensures "]x005b_"[0] == ']' && OpenEscape[0] == '_' && SpaceEscape[0] == '_'
    ensures "]x005b_" == "]" + "x005b_"
  {
  }

  /** The order of the passes matters: in `_x005d_x005b_` the `_` that ends the first
      escape also starts the second, and whichever pass runs first consumes it. The
      name is the escaping of `]x005b[`, which neither order gives back. */
  lemma ReplacementOrderMatters()
    ensures DecodeName("_x005d_x005b_") == "_x005d["
    ensures DecodeCloseFirst("_x005d_x005b_") == "]x005b_"
  {
    var w := "_x005d_x005b_";
    OrderPieces();
    // `[` first: the `_x005b_` at the end is found, the `_x005d_` is then broken.
    assert w[..7] == CloseEscape;
    assert w[1..] == "x005d" + OpenEscape;
    SkipPlain("x005d", OpenEscape, OpenEscape, '[');
    AtPattern("", OpenEscape, '[');
    var v := "_x005d[";
    assert Text.ReplaceAll(w, OpenEscape, '[') == v;
    assert v[..7] != CloseEscape && v[..7] != SpaceEscape by {
      assert v[..7][6] == '[';
    }
    assert Text.ReplaceAll(v[1..], CloseEscape, ']') == v[1..];
    assert Text.ReplaceAll(v[1..], SpaceEscape, ' ') == v[1..];
    // `]` first: the `_x005d_` at the start is found, the `_x005b_` is then broken.
    AtPattern("x005b_", CloseEscape, ']');
    var u := "]x005b_";
    assert Text.ReplaceAll(w, CloseEscape, ']') == u;
    assert u[..7] != OpenEscape && u[..7] != SpaceEscape by {
      assert u[..7][0] == ']';
    }
    assert Text.ReplaceAll(u[1..], OpenEscape, '[') == u[1..];
    assert Text.ReplaceAll(u[1..], SpaceEscape, ' ') == u[1..];
  }
}
