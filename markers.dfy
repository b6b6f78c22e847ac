/** Reference markers resolved into `ref` nodes: figure, table and
    equation markers by first-match label lookup in their catalogs, and
    citation markers from the results of the bibliography matcher. */
module MarkerNodes {
  import opened Strings

  /** A node spliced into the body: a `ref` element (its `type`, text,
      optional `target` and optional `coords` attributes) or a text node. */
  datatype Node =
    | Ref(refType: string, content: string, target: Option<string>, coords: Option<string>)
    | TextNode(text: string)

  /** A figure, table or equation of the document: its id and its label,
      `None` where Java has null. */
  datatype CatalogEntry = CatalogEntry(id: string, labelText: Option<string>)

  datatype MarkerKind = FigureMarker | TableMarker | EquationMarker

  function RefType(kind: MarkerKind): string
  {
    match kind
    case FigureMarker => "figure"
    case TableMarker => "table"
    case EquationMarker => "formula"
  }

  function TargetPrefix(kind: MarkerKind): string
  {
    match kind
    case FigureMarker => "#fig_"
    case TableMarker => "#tab_"
    case EquationMarker => "#formula_"
  }

  /** The marker text with its line breaks turned into spaces. */
  function Flatten(text: string): string
  {
    Replace(text, "\n", " ")
  }

  /** An entry matches when it has a non-empty label whose cleaned form is
      non-empty and, lower-cased, occurs in the lower-cased marker text.
      `cleanField` is the formatter's external field cleaner. */
  predicate LabelMatches(textLow: string, e: CatalogEntry, cleanField: string -> string)
  {
    e.labelText.Some? && |e.labelText.value| > 0
    && |cleanField(e.labelText.value)| > 0
    && Contains(textLow, Lower(cleanField(e.labelText.value)))
  }

  /** The id of the first matching entry, if any: first match, not best match. */
  function FirstMatchingId(textLow: string, entries: seq<CatalogEntry>, cleanField: string -> string): (r: Option<string>)
    ensures r.Some? <==> exists k :: 0 <= k < |entries| && LabelMatches(textLow, entries[k], cleanField)
    ensures r.Some? ==> exists k :: 0 <= k < |entries| && LabelMatches(textLow, entries[k], cleanField)
                                    && r.value == entries[k].id
                                    && forall j :: 0 <= j < k ==> !LabelMatches(textLow, entries[j], cleanField)
    decreases |entries|
  {
    if entries == [] then None
    else if LabelMatches(textLow, entries[0], cleanField) then Some(entries[0].id)
    else
      var r := FirstMatchingId(textLow, entries[1..], cleanField);
      assert forall k :: 1 <= k < |entries| ==> entries[k] == entries[1..][k - 1];
      r
  }

  /** The nodes for a figure, table or equation marker: `None` (Java's
      null) for a null or blank marker, else one `ref` node whose target is
      the first matching catalog entry's id with the family's prefix,
      followed by one space node when the marker text ends with a space. */
  function MarkerRefs(kind: MarkerKind, text: Option<string>, catalog: Option<seq<CatalogEntry>>,
                      cleanField: string -> string, coords: Option<string>): Option<seq<Node>>
  {
    if text.None? || IsBlank(text.value) then None
    else
      var best := if catalog.Some? then FirstMatchingId(Lower(text.value), catalog.value, cleanField) else None;
      Some(RefNodes(kind, text.value, best, coords))
  }

  /** The `ref` node for a marker whose first matching catalog id is
      `best`, followed by a space node when the flattened text ends with a space. */
  function RefNodes(kind: MarkerKind, text: string, best: Option<string>, coords: Option<string>): seq<Node>
  {
    var flat := Flatten(text);
    var ref := Ref(RefType(kind), Trim(flat), if best.Some? then Some(TargetPrefix(kind) + best.value) else None, coords);
    [ref] + if EndsWith(flat, " ") then [TextNode(" ")] else []
  }

  /** The nodes for a figure, table or equation marker: `None` (Java's
      null) for a null or blank marker, else one `ref` node whose target is
      the first matching catalog entry's id with the family's prefix,
      followed by one space node exactly when the marker text ends with a space. */
  lemma MarkerRefsShape(kind: MarkerKind, text: Option<string>, catalog: Option<seq<CatalogEntry>>,
                        cleanField: string -> string, coords: Option<string>)
    ensures var r := MarkerRefs(kind, text, catalog, cleanField, coords);
      && (r.None? <==> text.None? || IsBlank(text.value))
      && (r.Some? ==> 1 <= |r.value| <= 2)
      && (r.Some? ==> r.value[0].Ref? && r.value[0].refType == RefType(kind)
                      && r.value[0].content == Trim(Flatten(text.value)) && r.value[0].coords == coords)
      && (r.Some? ==> (|r.value| == 2 <==> EndsWith(Flatten(text.value), " ")))
      && (r.Some? && |r.value| == 2 ==> r.value[1] == TextNode(" "))
  {
  }

  /** The target of a marker's `ref` node is the family prefix followed by
      the id of the first catalog entry whose label matches; there is no
      target when no entry matches. */
  lemma MarkerRefsTarget(kind: MarkerKind, text: string, catalog: Option<seq<CatalogEntry>>,
                         cleanField: string -> string, coords: Option<string>)
    requires !IsBlank(text)
    ensures var r := MarkerRefs(kind, Some(text), catalog, cleanField, coords);
      && r.Some?
      && (r.value[0].target.Some? <==>
            catalog.Some? && exists k :: 0 <= k < |catalog.value| && LabelMatches(Lower(text), catalog.value[k], cleanField))
      && (r.value[0].target.Some? ==>
            exists k :: 0 <= k < |catalog.value| && LabelMatches(Lower(text), catalog.value[k], cleanField)
                        && r.value[0].target.value == TargetPrefix(kind) + catalog.value[k].id
                        && forall j :: 0 <= j < k ==> !LabelMatches(Lower(text), catalog.value[j], cleanField))
  {
  }

  /** The catalog loop of the three marker methods: scan in order and stop
      at the first entry whose label matches. */
  method FindTarget(textLow: string, catalog: Option<seq<CatalogEntry>>, cleanField: string -> string)
    returns (best: Option<string>)
    ensures best == if catalog.Some? then FirstMatchingId(textLow, catalog.value, cleanField) else None
  {
    best := None;
    if catalog.Some? {
      var entries := catalog.value;
      var i := 0;
      while i < |entries|
        invariant 0 <= i <= |entries|
        invariant FirstMatchingId(textLow, entries, cleanField) == FirstMatchingId(textLow, entries[i..], cleanField)
      {
        var e := entries[i];
        if e.labelText.Some? && |e.labelText.value| > 0 {
          var cleaned := cleanField(e.labelText.value);
          if |cleaned| > 0 && Contains(textLow, Lower(cleaned)) {
            best := Some(e.id);
            break;
          }
        }
        assert entries[i..][1..] == entries[i + 1..];
        i := i + 1;
      }
      if i == |entries| {
        assert entries[i..] == [];
      }
    }
  }

  /** The shared body of markReferencesFigureTEI, markReferencesTableTEI
      and markReferencesEquationTEI. */
  method MarkCatalogReferences(kind: MarkerKind, text: Option<string>, catalog: Option<seq<CatalogEntry>>,
                               cleanField: string -> string, coords: Option<string>)
    returns (nodes: Option<seq<Node>>)
    ensures nodes == MarkerRefs(kind, text, catalog, cleanField, coords)
  {
    if text.None? || IsBlank(text.value) {
      return None;
    }
    var best := FindTarget(Lower(text.value), catalog, cleanField);
    nodes := Some(RefNodes(kind, text.value, best, coords));
  }

  method MarkReferencesFigure(text: Option<string>, figures: Option<seq<CatalogEntry>>,
                              cleanField: string -> string, coords: Option<string>)
    returns (nodes: Option<seq<Node>>)
    ensures nodes == MarkerRefs(FigureMarker, text, figures, cleanField, coords)
  {
    nodes := MarkCatalogReferences(FigureMarker, text, figures, cleanField, coords);
  }

  method MarkReferencesTable(text: Option<string>, tables: Option<seq<CatalogEntry>>,
                             cleanField: string -> string, coords: Option<string>)
    returns (nodes: Option<seq<Node>>)
    ensures nodes == MarkerRefs(TableMarker, text, tables, cleanField, coords)
  {
    nodes := MarkCatalogReferences(TableMarker, text, tables, cleanField, coords);
  }

  method MarkReferencesEquation(text: Option<string>, equations: Option<seq<CatalogEntry>>,
                                cleanField: string -> string, coords: Option<string>)
    returns (nodes: Option<seq<Node>>)
    ensures nodes == MarkerRefs(EquationMarker, text, equations, cleanField, coords)
  {
    nodes := MarkCatalogReferences(EquationMarker, text, equations, cleanField, coords);
  }

  /** One result of the external bibliography marker matcher: the
      normalised marker text, its coordinates when they are generated, and
      the ordinal of the matched bibliography entry when there is one. */
  datatype MatchResult = MatchResult(text: string, coords: Option<string>, ordinal: Option<int>)

  /** Marker text that is left as it is: blank or already wrapped. */
  predicate PassesThrough(text: string)
  {
    IsBlank(text) || EndsWith(text, "</ref>") || StartsWith(text, "<ref")
  }

  function CitationRef(m: MatchResult): Node
  {
    Ref("bibr", m.text, if m.ordinal.Some? then Some("#b" + IntToString(m.ordinal.value)) else None, m.coords)
  }

  /** The nodes for a citation marker: a marker that passes through becomes
      a single text node; otherwise one `bibr` ref per matcher result, in
      order, targeting `#b<ordinal>` when the result has a bibliography
      entry, and one trailing space node when the marker ends with a space. */
  function CitationRefs(text: string, matches: seq<MatchResult>): (r: seq<Node>)
    ensures PassesThrough(text) ==> r == [TextNode(text)]
    ensures !PassesThrough(text) ==>
              |r| == |matches| + (if EndsWith(Flatten(text), " ") then 1 else 0)
    ensures !PassesThrough(text) ==>
              forall k :: 0 <= k < |matches| ==>
                r[k].Ref? && r[k].refType == "bibr" && r[k].content == matches[k].text && r[k].coords == matches[k].coords
                && (r[k].target.Some? <==> matches[k].ordinal.Some?)
                && (r[k].target.Some? ==> r[k].target.value == "#b" + IntToString(matches[k].ordinal.value))
    ensures !PassesThrough(text) && EndsWith(Flatten(text), " ") ==> r[|r| - 1] == TextNode(" ")
  {
    if PassesThrough(text) then [TextNode(text)]
    else
      seq(|matches|, k requires 0 <= k < |matches| => CitationRef(matches[k]))
      + (if EndsWith(Flatten(text), " ") then [TextNode(" ")] else [])
  }

  /** markReferencesTEILuceneBased: the loop over the matcher's results. */
  method MarkReferencesLuceneBased(text: string, matches: seq<MatchResult>) returns (nodes: seq<Node>)
    ensures nodes == CitationRefs(text, matches)
  {
    if IsBlank(text) || EndsWith(text, "</ref>") || StartsWith(text, "<ref") {
      return [TextNode(text)];
    }
    var spaceEnd := EndsWith(Flatten(text), " ");
    nodes := [];
    for i := 0 to |matches|
      invariant nodes == seq(i, k requires 0 <= k < i => CitationRef(matches[k]))
    {
      var m := matches[i];
      var target := if m.ordinal.Some? then Some("#b" + IntToString(m.ordinal.value)) else None;
      nodes := nodes + [Ref("bibr", m.text, target, m.coords)];
    }
    if spaceEnd {
      nodes := nodes + [TextNode(" ")];
    }
  }

  /** getCoordsAttribute: the `coords` attribute text for a list of
      bounding boxes (given in their printed form), empty when coordinates
      are not generated or there is no box. */
  function CoordsAttribute(boxes: Option<seq<string>>, generateCoordinates: bool): (r: string)
    ensures r == "" <==> !generateCoordinates || boxes.None? || |boxes.value| == 0
    ensures r != "" ==> StartsWith(r, "coords=\"") && EndsWith(r, "\"")
  {
    if !generateCoordinates || boxes.None? || |boxes.value| == 0 then ""
    else
      var r := "coords=\"" + Join(boxes.value, ";") + "\"";
      assert r[..8] == "coords=\"";
      r
  }

  /** The boxes can be read back from the attribute when none of them
      contains the `;` separator. */
  lemma CoordsAttributeRoundTrip(boxes: seq<string>)
    requires |boxes| > 0
    requires forall k :: 0 <= k < |boxes| ==> ';' !in boxes[k]
    ensures var r := CoordsAttribute(Some(boxes), true);
            Split(r[8..|r| - 1], ';') == boxes
  {
    var r := CoordsAttribute(Some(boxes), true);
    assert r[8..|r| - 1] == Join(boxes, ";");
    SplitJoin(boxes, ';');
  }
}
