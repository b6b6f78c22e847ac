/** Training-data labelling: the table of per-line feature vectors whose
    last column is the line's type, the rules that fill and smooth that
    column in place, and the small line predicates the labelling uses. */
module TrainingData {
  import opened Strings

  /** A word of a text line: the fonts of its letters and its text. */
  datatype Word = Word(fonts: seq<string>, text: string)

  type Line = seq<Word>

  /** The line types "text", "heading", "body" and "after_body". */
  datatype LineType = TextLine | HeadingLine | BodyLine | AfterBodyLine

  /** The feature columns of a row, in column order: number of words,
      average word length, italicness, formuleness, whether the first
      word is a heading, whether it is "Proof", the first word's
      boldness, whether the first letter is a capital. */
  datatype Features = Features(
    wordsNum: int, averageWordLength: real, italicness: real, formuleness: real,
    headingFirstWord: bool, proofFirstWord: bool, boldnessFirstWord: real, capitalFirstLetter: bool)

  /** A row of the table: its features (`None` while the row is still the
      all-`None` placeholder) and its type column (`None` while unknown). */
  datatype Row = Row(features: Option<Features>, ty: Option<LineType>)

  // ---------------------------------------------------------------------
  // Line predicates

  function FirstWord(line: Line): string
  {
    if |line| > 0 then line[0].text else ""
  }

  /** is_capital_first_letter */
  function IsCapitalFirstLetter(line: Line): (r: bool)
    ensures r <==> |line| > 0 && |line[0].text| > 0 && 'A' <= line[0].text[0] <= 'Z'
  {
    if |FirstWord(line)| > 0 then
      var letter := FirstWord(line)[0];
      'A' <= letter && letter <= 'Z'
    else false
  }

  /** stars_line: some word of the line is `***`. */
  method StarsLine(line: Line) returns (result: bool)
    ensures result <==> exists k :: 0 <= k < |line| && line[k].text == "***"
  {
    result := false;
    for k := 0 to |line|
      invariant result <==> exists j :: 0 <= j < k && line[j].text == "***"
    {
      if line[k].text == "***" {
        result := true;
      }
    }
  }

  /** The regex `[A-Za-z0-9]`. */
  predicate IsLetterOrDigit(c: char)
  {
    IsAsciiLetter(c) || IsDigit(c)
  }

  /** empty_line: no word of the line holds an ASCII letter or digit. */
  method EmptyLine(line: Line) returns (result: bool)
    ensures result <==> forall k, j :: 0 <= k < |line| && 0 <= j < |line[k].text| ==> !IsLetterOrDigit(line[k].text[j])
  {
    result := true;
    for k := 0 to |line|
      invariant result <==> forall i, j :: 0 <= i < k && 0 <= j < |line[i].text| ==> !IsLetterOrDigit(line[i].text[j])
    {
      if exists j :: 0 <= j < |line[k].text| && IsLetterOrDigit(line[k].text[j]) {
        result := false;
      }
    }
  }

  /** The words of a line, each preceded by one space. */
  function SpacedWords(line: Line): string
    decreases |line|
  {
    if line == [] then "" else SpacedWords(line[..|line| - 1]) + " " + line[|line| - 1].text
  }

  /** line_to_string */
  method LineToString(line: Line) returns (s: string)
    ensures s == SpacedWords(line) + "\n"
  {
    s := "";
    for k := 0 to |line|
      invariant s == SpacedWords(line[..k])
    {
      assert line[..k + 1][..k] == line[..k];
      s := s + " " + line[k].text;
    }
    assert line[..|line|] == line;
    s := s + "\n";
  }

  function Texts(line: Line): (r: seq<string>)
    ensures |r| == |line| && forall k :: 0 <= k < |line| ==> r[k] == line[k].text
  {
    seq(|line|, k requires 0 <= k < |line| => line[k].text)
  }

  lemma {:induction false} SpacedWordsJoin(line: Line)
    requires |line| >= 1
    ensures SpacedWords(line) == " " + Join(Texts(line), " ")
    decreases |line|
  {
    if |line| > 1 {
      var init := line[..|line| - 1];
      SpacedWordsJoin(init);
      assert Texts(line) == Texts(init) + [line[|line| - 1].text];
      JoinAppend(Texts(init), line[|line| - 1].text, " ");
    } else {
      assert Texts(line) == [line[0].text];
      assert SpacedWords(line) == SpacedWords([]) + " " + line[0].text;
    }
  }

  /** The words of a non-empty line whose words hold no space can be read
      back from its string: drop the leading space and the final newline
      and split at the spaces. */
  lemma LineStringRoundTrip(line: Line)
    requires |line| >= 1
    requires forall k :: 0 <= k < |line| ==> ' ' !in line[k].text
    ensures var s := SpacedWords(line) + "\n";
            s[0] == ' ' && s[|s| - 1] == '\n' && Split(s[1..|s| - 1], ' ') == Texts(line)
  {
    SpacedWordsJoin(line);
    var s := SpacedWords(line) + "\n";
    assert s[1..|s| - 1] == Join(Texts(line), [' ']);
    SplitJoin(Texts(line), ' ');
  }

  // ---------------------------------------------------------------------
  // add_training_vector

  /** Whether add_training_vector writes its row: always into the empty
      placeholder; over a filled row only when that row is not a heading
      and the new type is not text. */
  predicate Overwrites(row: Row, ty: LineType)
  {
    row.features.None? || (row.ty != Some(HeadingLine) && ty != TextLine)
  }

  /** Once filled, a heading row is never replaced and text is never
      written over a filled row; any type fills an empty one. */
  lemma OverwriteRules(row: Row, ty: LineType)
    ensures row.features.None? ==> Overwrites(row, ty)
    ensures row.features.Some? && row.ty == Some(HeadingLine) ==> !Overwrites(row, ty)
    ensures row.features.Some? && ty == TextLine ==> !Overwrites(row, ty)
    ensures row.features.Some? && row.ty != Some(HeadingLine) && ty != TextLine ==> Overwrites(row, ty)
  {
  }

  /** add_training_vector: the row of line `fi` gets the line's features
      and the type, when the rules allow it. */
  method AddTrainingVector(lines: seq<Line>, vectors: array<Row>, fi: nat, ty: LineType, lineToVector: Line -> Features)
    requires fi < |lines| && fi < vectors.Length
    modifies vectors
    ensures vectors[..] == old(vectors[..])[fi := if Overwrites(old(vectors[fi]), ty) then Row(Some(lineToVector(lines[fi])), Some(ty)) else old(vectors[fi])]
  {
    var line := lines[fi];
    if vectors[fi].features.None? || (vectors[fi].ty != Some(HeadingLine) && ty != TextLine) {
      vectors[fi] := Row(Some(lineToVector(line)), Some(ty));
    }
  }

  // ---------------------------------------------------------------------
  // correct_oddities

  /** The type column of the table. */
  function Types(rows: seq<Row>): (r: seq<Option<LineType>>)
    ensures |r| == |rows| && forall k :: 0 <= k < |rows| ==> r[k] == rows[k].ty
  {
    seq(|rows|, k requires 0 <= k < |rows| => rows[k].ty)
  }

  /** The smoothing of one interior row from its left neighbour `tl`, its
      own type `t` and its right neighbour `tr`: text between two bodies
      becomes body, a body or after-body between two texts becomes text,
      anything between a body and a text becomes after-body. */
  function Oddity(tl: Option<LineType>, t: Option<LineType>, tr: Option<LineType>): Option<LineType>
  {
    if tl == Some(BodyLine) && tr == Some(BodyLine) && t == Some(TextLine) then Some(BodyLine)
    else if tl == Some(TextLine) && tr == Some(TextLine) && (t == Some(BodyLine) || t == Some(AfterBodyLine)) then Some(TextLine)
    else if tl == Some(BodyLine) && tr == Some(TextLine) then Some(AfterBodyLine)
    else t
  }

  /** The smoothing pass from interior row `fi` on, rows before `fi`
      already smoothed. */
  function CorrectFrom(ts: seq<Option<LineType>>, fi: nat): seq<Option<LineType>>
    requires fi >= 1
    decreases |ts| - fi
  {
    if fi + 1 >= |ts| then ts
    else CorrectFrom(ts[fi := Oddity(ts[fi - 1], ts[fi], ts[fi + 1])], fi + 1)
  }

  /** The type column after correct_oddities. */
  function Corrected(ts: seq<Option<LineType>>): seq<Option<LineType>>
  {
    CorrectFrom(ts, 1)
  }

  /** correct_oddities: the three rules applied in turn to each interior
      row, left to right, in place. */
  method CorrectOddities(vectors: array<Row>)
    modifies vectors
    ensures Types(vectors[..]) == Corrected(Types(old(vectors[..])))
    ensures forall k :: 0 <= k < vectors.Length ==> vectors[k].features == old(vectors[k].features)
  {
    ghost var original := vectors[..];
    var fi := 1;
    while fi + 1 < vectors.Length
      invariant 1 <= fi
      invariant Corrected(Types(original)) == CorrectFrom(Types(vectors[..]), fi)
      invariant forall k :: 0 <= k < vectors.Length ==> vectors[k].features == original[k].features
      decreases vectors.Length - fi
    {
      var tl := vectors[fi - 1].ty;
      var t := vectors[fi].ty;
      var tr := vectors[fi + 1].ty;
      ghost var before := vectors[..];
      if tl == Some(BodyLine) && tr == Some(BodyLine) && t == Some(TextLine) {
        vectors[fi] := vectors[fi].(ty := Some(BodyLine));
      }
      if tl == Some(TextLine) && tr == Some(TextLine) && (t == Some(BodyLine) || t == Some(AfterBodyLine)) {
        vectors[fi] := vectors[fi].(ty := Some(TextLine));
      }
      if tl == Some(BodyLine) && tr == Some(TextLine) {
        vectors[fi] := vectors[fi].(ty := Some(AfterBodyLine));
      }
      assert Types(vectors[..]) == Types(before)[fi := Oddity(tl, t, tr)];
      fi := fi + 1;
    }
  }

  /** What the smoothing pass leaves: the same number of rows, the first
      and last rows untouched, and every interior row the smoothing of
      its already smoothed left neighbour, its own type and its original
      right neighbour. */
  lemma {:induction false} CorrectFromRules(ts: seq<Option<LineType>>, fi: nat)
    requires fi >= 1
    ensures var r := CorrectFrom(ts, fi);
            && |r| == |ts|
            && (forall i :: 0 <= i < fi && i < |ts| ==> r[i] == ts[i])
            && (|ts| >= 1 ==> r[|ts| - 1] == ts[|ts| - 1])
            && (forall i :: fi <= i < |ts| - 1 ==> r[i] == Oddity(r[i - 1], ts[i], ts[i + 1]))
    decreases |ts| - fi
  {
    if fi + 1 < |ts| {
      var ts' := ts[fi := Oddity(ts[fi - 1], ts[fi], ts[fi + 1])];
      CorrectFromRules(ts', fi + 1);
    }
  }

  lemma CorrectedRules(ts: seq<Option<LineType>>)
    ensures var r := Corrected(ts);
            && |r| == |ts|
            && (|ts| >= 1 ==> r[0] == ts[0] && r[|ts| - 1] == ts[|ts| - 1])
            && (forall i :: 1 <= i < |ts| - 1 ==> r[i] == Oddity(r[i - 1], ts[i], ts[i + 1]))
  {
    CorrectFromRules(ts, 1);
  }

  // ---------------------------------------------------------------------
  // fill_empty_vectors

  /** The type given to an untyped interior row from its left neighbour
      `tl` (already filled) and its right neighbour `tr`. */
  function FillRule(tl: Option<LineType>, tr: Option<LineType>): LineType
  {
    if tl == tr && tr.Some? then tr.value
    else if (tl == Some(TextLine) || tl == Some(AfterBodyLine)) && tr == Some(HeadingLine) then TextLine
    else if tl == Some(TextLine) && (tr == Some(BodyLine) || tr == Some(AfterBodyLine)) then HeadingLine
    else if tl == Some(HeadingLine) && (tr == Some(BodyLine) || tr == Some(AfterBodyLine)) then BodyLine
    else if (tl == Some(HeadingLine) || tl == Some(BodyLine)) && (tr == Some(TextLine) || tr.None?) then AfterBodyLine
    else TextLine
  }

  /** The row an untyped row at `fi` becomes. */
  function FilledRow(rows: seq<Row>, lines: seq<Line>, lineToVector: Line -> Features, fi: nat): Row
    requires fi < |rows| && fi < |lines|
  {
    var ty := if 0 < fi < |rows| - 1 then FillRule(rows[fi - 1].ty, rows[fi + 1].ty) else TextLine;
    Row(Some(lineToVector(lines[fi])), Some(ty))
  }

  /** The filling pass from row `fi` on, rows before `fi` already filled. */
  function FillFrom(rows: seq<Row>, lines: seq<Line>, lineToVector: Line -> Features, fi: nat): seq<Row>
    requires |lines| == |rows|
    decreases |rows| - fi
  {
    if fi >= |rows| then rows
    else if rows[fi].ty.Some? then FillFrom(rows, lines, lineToVector, fi + 1)
    else FillFrom(rows[fi := FilledRow(rows, lines, lineToVector, fi)], lines, lineToVector, fi + 1)
  }

  /** fill_empty_vectors: every untyped row gets the line's features and a
      type from its neighbours; first and last rows become text. */
  method FillEmptyVectors(vectors: array<Row>, lines: seq<Line>, lineToVector: Line -> Features)
    requires |lines| == vectors.Length
    modifies vectors
    ensures vectors[..] == FillFrom(old(vectors[..]), lines, lineToVector, 0)
  {
    ghost var original := vectors[..];
    for fi := 0 to vectors.Length
      invariant FillFrom(original, lines, lineToVector, 0) == FillFrom(vectors[..], lines, lineToVector, fi)
    {
      if vectors[fi].ty.None? {
        ghost var before := vectors[..];
        vectors[fi] := Row(Some(lineToVector(lines[fi])), None);
        if fi > 0 && fi < vectors.Length - 1 {
          var tl := vectors[fi - 1].ty;
          var tr := vectors[fi + 1].ty;
          if tl == tr && tr.Some? {
            vectors[fi] := vectors[fi].(ty := tl);
          } else if (tl == Some(TextLine) || tl == Some(AfterBodyLine)) && tr == Some(HeadingLine) {
            vectors[fi] := vectors[fi].(ty := Some(TextLine));
          } else if tl == Some(TextLine) && (tr == Some(BodyLine) || tr == Some(AfterBodyLine)) {
            vectors[fi] := vectors[fi].(ty := Some(HeadingLine));
          } else if tl == Some(HeadingLine) && (tr == Some(BodyLine) || tr == Some(AfterBodyLine)) {
            vectors[fi] := vectors[fi].(ty := Some(BodyLine));
          } else if (tl == Some(HeadingLine) || tl == Some(BodyLine)) && (tr == Some(TextLine) || tr.None?) {
            vectors[fi] := vectors[fi].(ty := Some(AfterBodyLine));
          } else {
            vectors[fi] := vectors[fi].(ty := Some(TextLine));
          }
        } else {
          vectors[fi] := vectors[fi].(ty := Some(TextLine));
        }
        assert vectors[..] == before[fi := FilledRow(before, lines, lineToVector, fi)];
      }
    }
    assert FillFrom(vectors[..], lines, lineToVector, vectors.Length) == vectors[..];
  }

  /** Row `i` of the filled table `r` as the filling pass leaves it from
      the original `rows`: a typed row untouched; an untyped row with the
      line's features and text at either end, else the rule's type from
      its already filled left neighbour and its original right one. */
  predicate FilledAt(rows: seq<Row>, r: seq<Row>, lines: seq<Line>, lineToVector: Line -> Features, i: nat)
    requires |lines| == |rows| == |r| && i < |rows|
  {
    if rows[i].ty.Some? then r[i] == rows[i]
    else if 0 < i < |rows| - 1 then r[i] == Row(Some(lineToVector(lines[i])), Some(FillRule(r[i - 1].ty, rows[i + 1].ty)))
    else r[i] == Row(Some(lineToVector(lines[i])), Some(TextLine))
  }

  /** What the filling pass leaves from row `fi` on: no untyped row,
      earlier rows untouched, later rows as FilledAt says. */
  lemma {:induction false} FillFromRules(rows: seq<Row>, lines: seq<Line>, lineToVector: Line -> Features, fi: nat)
    requires |lines| == |rows|
    requires forall i :: 0 <= i < fi && i < |rows| ==> rows[i].ty.Some?
    ensures var r := FillFrom(rows, lines, lineToVector, fi);
            && |r| == |rows|
            && (forall i :: 0 <= i < |r| ==> r[i].ty.Some?)
            && (forall i :: 0 <= i < fi && i < |rows| ==> r[i] == rows[i])
            && (forall i :: fi <= i < |rows| ==> FilledAt(rows, r, lines, lineToVector, i))
    decreases |rows| - fi
  {
    if fi < |rows| {
      if rows[fi].ty.Some? {
        FillFromRules(rows, lines, lineToVector, fi + 1);
      } else {
        var rows' := rows[fi := FilledRow(rows, lines, lineToVector, fi)];
        FillFromRules(rows', lines, lineToVector, fi + 1);
        var r := FillFrom(rows', lines, lineToVector, fi + 1);
        assert FilledAt(rows, r, lines, lineToVector, fi) by {
          assert r[fi] == FilledRow(rows, lines, lineToVector, fi);
          if 0 < fi < |rows| - 1 {
            assert r[fi - 1] == rows[fi - 1];
          }
        }
        forall i | fi < i < |rows|
          ensures FilledAt(rows, r, lines, lineToVector, i)
        {
          assert FilledAt(rows', r, lines, lineToVector, i);
          assert rows'[i] == rows[i];
          if i + 1 < |rows| {
            assert rows'[i + 1] == rows[i + 1];
          }
        }
      }
    }
  }

  /** fill_empty_vectors leaves no untyped row, keeps every typed row and
      fills every untyped one as FilledAt says. */
  lemma FilledRules(rows: seq<Row>, lines: seq<Line>, lineToVector: Line -> Features)
    requires |lines| == |rows|
    ensures var r := FillFrom(rows, lines, lineToVector, 0);
            && |r| == |rows|
            && (forall i :: 0 <= i < |r| ==> r[i].ty.Some?)
            && (forall i :: 0 <= i < |rows| ==> FilledAt(rows, r, lines, lineToVector, i))
  {
    FillFromRules(rows, lines, lineToVector, 0);
  }

  // ---------------------------------------------------------------------
  // Restart bookkeeping

  /** What restart_if_you_can returns: the result index, the line index,
      whether the current result was restarted, whether it restarted. */
  datatype Restart = Restart(ri: int, fi: int, restartedCurrentLine: bool, restarted: bool)

  /** restart_if_you_can: a result is rescanned from the first line once;
      the second time the scan moves on to the next result. */
  function RestartIfYouCan(ri: int, fi: int, restartedCurrentLine: bool): (r: Restart)
  {
    if !restartedCurrentLine then Restart(ri, 0, true, true)
    else Restart(ri + 1, fi, false, false)
  }

  /** next_result: the next result, not yet restarted. */
  function NextResult(ri: int): (int, bool)
  {
    (ri + 1, false)
  }

  /** A restart keeps the result and rescans it from line 0 with the flag
      set; asking twice restarts at most once and then moves on: the
      second answer never restarts and advances to the next result with a
      fresh flag, exactly as next_result would. */
  lemma RestartAtMostOnce(ri: int, fi: int, restartedCurrentLine: bool)
    ensures var a := RestartIfYouCan(ri, fi, restartedCurrentLine);
            var b := RestartIfYouCan(a.ri, a.fi, a.restartedCurrentLine);
            (a.restarted ==> a.ri == ri && a.fi == 0 && a.restartedCurrentLine)
            && (a.restarted ==> !b.restarted && (b.ri, b.restartedCurrentLine) == NextResult(ri) && b.fi == 0)
            && (!a.restarted ==> (a.ri, a.restartedCurrentLine) == NextResult(ri) && a.fi == fi)
            && (a.restarted <==> !restartedCurrentLine)
  {
  }
}
