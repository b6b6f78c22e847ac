/** The rule-based tagger: a left-to-right state machine over the feature
    rows whose states are the four line types. */
module Tagging {
  import opened Strings
  import opened TrainingData

  /** The tag of an interior row from the previous tag: a heading flag
      wins; after a heading or a body the row is body when it is italic
      or formula-like enough and not a proof, else after-body; otherwise
      it is text. */
  function NextTag(previous: LineType, v: Features): LineType
  {
    if v.headingFirstWord then HeadingLine
    else if previous == HeadingLine || previous == BodyLine then
      if (v.italicness > 0.5 || v.formuleness > 0.6) && !v.proofFirstWord then BodyLine else AfterBodyLine
    else TextLine
  }

  /** The first `k` tags: text, then the state machine. */
  function TagPrefix(vs: seq<Features>, k: nat): (r: seq<LineType>)
    requires 1 <= k <= |vs|
    ensures |r| == k && r[0] == TextLine
    decreases k
  {
    if k == 1 then [TextLine]
    else
      var p := TagPrefix(vs, k - 1);
      p + [NextTag(p[k - 2], vs[k - 1])]
  }

  /** The tags of the rows; `None` for no rows, where the source fails on
      the first assignment. */
  function Tags(vs: seq<Features>): Option<seq<LineType>>
  {
    if |vs| == 0 then None
    else if |vs| == 1 then Some([TextLine])
    else Some(TagPrefix(vs, |vs| - 1) + [TextLine])
  }

  /** One more tag: the step from the last tag so far. */
  lemma TagPrefixNext(vs: seq<Features>, k: nat)
    requires 1 <= k < |vs|
    ensures |TagPrefix(vs, k)| == k
    ensures TagPrefix(vs, k + 1) == TagPrefix(vs, k) + [NextTag(TagPrefix(vs, k)[k - 1], vs[k])]
  {
  }

  /** The tags of at least one row: the first `n - 1` tags, then text. */
  lemma TagsOfRows(vs: seq<Features>)
    requires |vs| >= 1
    ensures |vs| == 1 ==> Tags(vs) == Some([TextLine])
    ensures |vs| >= 2 ==> Tags(vs) == Some(TagPrefix(vs, |vs| - 1) + [TextLine])
  {
  }

  /** The body of the tagging loop for one interior row. */
  method TagRow(previous: LineType, v: Features) returns (tag: LineType)
    ensures tag == NextTag(previous, v)
  {
    if v.headingFirstWord {
      tag := HeadingLine;
    } else if previous == HeadingLine || previous == BodyLine {
      if (v.italicness > 0.5 || v.formuleness > 0.6) && !v.proofFirstWord {
        tag := BodyLine;
      } else {
        tag := AfterBodyLine;
      }
    } else {
      tag := TextLine;
    }
  }

  /** The loop of vectors_to_tags: fills the interior slots of `tags`
      left to right, each from the previous slot. */
  method TagInterior(vectors: seq<Features>, tags: array<LineType>)
    requires tags.Length == |vectors| >= 2 && tags[0] == TextLine
    modifies tags
    ensures tags[..|vectors| - 1] == TagPrefix(vectors, |vectors| - 1)
    ensures tags[|vectors| - 1] == old(tags[|vectors| - 1])
  {
    var n := |vectors|;
    assert tags[..1] == TagPrefix(vectors, 1);
    hide TagPrefix, NextTag;
    var i := 1;
    while i < n - 1
      invariant 1 <= i <= n - 1
      invariant tags[..i] == TagPrefix(vectors, i)
      invariant tags[n - 1] == old(tags[n - 1])
      decreases n - i
    {
      TagPrefixNext(vectors, i);
      tags[i] := TagRow(tags[i - 1], vectors[i]);
      assert tags[..i + 1] == tags[..i] + [tags[i]];
      i := i + 1;
    }
  }

  /** vectors_to_tags */
  method VectorsToTags(vectors: seq<Features>) returns (result: Option<seq<LineType>>)
    ensures result == Tags(vectors)
  {
    if |vectors| == 0 {
      return None;
    }
    TagsOfRows(vectors);
    hide TagPrefix, Tags;
    var n := |vectors|;
    // Every slot is assigned below; the initial value is never read.
    var tags := new LineType[n](_ => TextLine);
    tags[0], tags[n - 1] := TextLine, TextLine;
    if n == 1 {
      assert tags[..] == [tags[0]];
      return Some(tags[..]);
    }
    TagInterior(vectors, tags);
    assert tags[..] == tags[..n - 1] + [tags[n - 1]];
    result := Some(tags[..]);
  }

  lemma {:induction false} TagPrefixRules(vs: seq<Features>, k: nat)
    requires 1 <= k <= |vs|
    ensures forall i :: 1 <= i < k ==> TagPrefix(vs, k)[i] == NextTag(TagPrefix(vs, k)[i - 1], vs[i])
    decreases k
  {
    if k > 1 {
      TagPrefixRules(vs, k - 1);
      var p := TagPrefix(vs, k - 1);
      assert TagPrefix(vs, k) == p + [NextTag(p[k - 2], vs[k - 1])];
    }
  }

  /** The tags fail exactly on no rows; otherwise one tag per row, text at
      both ends, and every interior tag the state machine's step from the
      previous tag. */
  lemma TagsRules(vs: seq<Features>)
    ensures Tags(vs).None? <==> |vs| == 0
    ensures Tags(vs).Some? ==>
              var r := Tags(vs).value;
              && |r| == |vs|
              && r[0] == TextLine && r[|r| - 1] == TextLine
              && forall i :: 1 <= i < |vs| - 1 ==> r[i] == NextTag(r[i - 1], vs[i])
  {
    if |vs| >= 2 {
      TagPrefixRules(vs, |vs| - 1);
      var p := TagPrefix(vs, |vs| - 1);
      assert forall i :: 0 <= i < |vs| - 1 ==> Tags(vs).value[i] == p[i];
    }
  }

  /** Every interior row with the heading flag is tagged heading; an
      interior non-heading row is body or after-body only after a heading
      or a body, and body exactly when it is italic or formula-like enough
      and not a proof. */
  lemma TagMeaning(vs: seq<Features>, i: nat)
    requires 1 <= i < |vs| - 1
    ensures var r := Tags(vs).value;
            && (vs[i].headingFirstWord ==> r[i] == HeadingLine)
            && (!vs[i].headingFirstWord && (r[i] == BodyLine || r[i] == AfterBodyLine) ==>
                  r[i - 1] == HeadingLine || r[i - 1] == BodyLine)
            && (!vs[i].headingFirstWord ==>
                  (r[i] == BodyLine <==>
                     (r[i - 1] == HeadingLine || r[i - 1] == BodyLine)
                     && (vs[i].italicness > 0.5 || vs[i].formuleness > 0.6) && !vs[i].proofFirstWord))
  {
    TagsRules(vs);
    var r := Tags(vs).value;
    assert r[i] == NextTag(r[i - 1], vs[i]);
  }

  /** An after-body tag is never directly followed by a body tag. */
  lemma AfterBodyNotBeforeBody(vs: seq<Features>, i: nat)
    requires i + 1 < |vs|
    ensures Tags(vs).value[i] == AfterBodyLine ==> Tags(vs).value[i + 1] != BodyLine
  {
    TagsRules(vs);
  }

  /** Every body tag belongs to a run that a heading tag opened: some
      earlier row is tagged heading. */
  lemma {:induction false} BodyAfterHeading(vs: seq<Features>, i: nat)
    requires i < |vs|
    requires Tags(vs).value[i] == BodyLine
    ensures exists j :: 0 < j < i && Tags(vs).value[j] == HeadingLine
    decreases i
  {
    TagsRules(vs);
    var r := Tags(vs).value;
    assert 1 <= i < |vs| - 1;
    if r[i - 1] == BodyLine {
      BodyAfterHeading(vs, i - 1);
    } else {
      assert r[i - 1] == HeadingLine;
      assert 0 < i - 1;
    }
  }
}
