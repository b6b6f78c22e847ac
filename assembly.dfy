/** The per-cluster loop of toTEITextPiece: the labelled clusters of the
    body are turned into `div` elements, each opened by a section head
    and holding paragraphs, list items, notes, formulas and reference
    markers. Elements are values here; the two element variables of the
    loop, the current division and the current paragraph, are references
    into them, so that the loop's aliasing is kept: the current paragraph
    may belong to an earlier division, and the division that is current
    before the first section is never listed in the result. */
module BodyAssembly {
  import opened Strings
  import MarkerNodes

  /** The labels of the full-text model that the loop distinguishes. */
  datatype Label =
    | Section | Equation | EquationLabel | Item | Other | Paragraph
    | CitationMarker | FigureMarker | TableMarker | EquationMarker
    | Figure | Table
    | OtherLabel(name: string)

  /** MARKER_LABELS */
  predicate IsMarkerLabel(l: Label)
  {
    l == CitationMarker || l == FigureMarker || l == TableMarker || l == EquationMarker
  }

  /** A cluster of consecutive tokens with the same label: the label, its
      normalised text, the offset of its first token (-1 when it has no
      token), and, for a marker, the raw text of its tokens, the
      coordinates of its tokens when `ref` coordinates are generated, and
      what the document's reference-marker matcher returns for its tokens. */
  datatype Cluster = Cluster(
    clusterLabel: Label,
    content: string,
    firstOffset: int,
    markerText: string,
    refCoords: Option<string>,
    matches: seq<MarkerNodes.MatchResult>)

  /** An equation of the document: where it starts, the TEI element it
      renders to (`None` for null), its id and its label. */
  datatype EquationEntry = EquationEntry(start: int, element: Option<string>, id: string, labelText: Option<string>)

  /** What the loop reads besides the clusters: the document's equations,
      figures and tables (`None` for null), the formatter's field cleaner
      and the section-number recogniser, which gives the title and the
      number of a section head it recognises. */
  datatype Doc = Doc(
    equations: Option<seq<EquationEntry>>,
    figures: Option<seq<MarkerNodes.CatalogEntry>>,
    tables: Option<seq<MarkerNodes.CatalogEntry>>,
    cleanField: string -> string,
    sectionNumber: string -> Option<(string, string)>)

  /** What an element holds: its children in order. */
  datatype Child =
    | Head(n: Option<string>, text: string)
    | Formula(element: string)
    | ListItem(text: string)
    | Note(text: string)
    | Para(content: seq<MarkerNodes.Node>)
    | Inline(node: MarkerNodes.Node)

  datatype Div = Div(children: seq<Child>)

  /** A division: the one created before the loop, which is never listed,
      or the `index`th listed one. */
  datatype DivRef = Unlisted | Listed(index: nat)

  /** A paragraph: the `index`th child of a division. */
  datatype ParaRef = ParaRef(div: DivRef, index: nat)

  /** The loop's state: the division created before the loop, the listed
      divisions (`divResults`), the current division and paragraph, the
      label of the last cluster and the equation cursor. */
  datatype State = State(
    unlisted: Div,
    divs: seq<Div>,
    curDiv: DivRef,
    curParagraph: Option<ParaRef>,
    lastLabel: Option<Label>,
    equationIndex: nat)

  predicate ValidRef(s: State, d: DivRef)
  {
    d.Listed? ==> d.index < |s.divs|
  }

  function DivAt(s: State, d: DivRef): Div
    requires ValidRef(s, d)
  {
    if d.Unlisted? then s.unlisted else s.divs[d.index]
  }

  predicate ValidPara(s: State, p: ParaRef)
  {
    ValidRef(s, p.div) && p.index < |DivAt(s, p.div).children| && DivAt(s, p.div).children[p.index].Para?
  }

  /** The references point at existing elements, and every listed
      division starts with its head. */
  predicate Valid(s: State)
  {
    ValidRef(s, s.curDiv)
    && (s.curParagraph.Some? ==> ValidPara(s, s.curParagraph.value))
    && forall i :: 0 <= i < |s.divs| ==> |s.divs[i].children| > 0 && s.divs[i].children[0].Head?
  }

  /** The heads of the listed divisions, in order. */
  function Heads(s: State): seq<Child>
    requires Valid(s)
  {
    seq(|s.divs|, k requires 0 <= k < |s.divs| => s.divs[k].children[0])
  }

  /** Every division other than `d` is the same in `r` as in `s`. */
  ghost predicate OthersUnchanged(s: State, r: State, d: DivRef)
  {
    |r.divs| == |s.divs|
    && forall e :: ValidRef(s, e) && e != d ==> DivAt(r, e) == DivAt(s, e)
  }

  /** The state before the first cluster. */
  function Initial(): (s: State)
    ensures Valid(s) && Heads(s) == []
  {
    State(Div([]), [], Unlisted, None, None, 0)
  }

  /** `parent.appendChild(child)` on a division. */
  function AppendChild(s: State, d: DivRef, child: Child): (r: State)
    requires Valid(s) && ValidRef(s, d)
    ensures Valid(r) && r.curDiv == s.curDiv && r.curParagraph == s.curParagraph
    ensures r.lastLabel == s.lastLabel && r.equationIndex == s.equationIndex
    ensures OthersUnchanged(s, r, d) && Heads(r) == Heads(s)
    ensures DivAt(r, d).children == DivAt(s, d).children + [child]
  {
    var div := Div(DivAt(s, d).children + [child]);
    if d.Unlisted? then s.(unlisted := div)
    else s.(divs := s.divs[d.index := div])
  }

  /** `curParagraph.appendChild(...)`: nodes appended to a paragraph. */
  function AppendToParagraph(s: State, p: ParaRef, nodes: seq<MarkerNodes.Node>): (r: State)
    requires Valid(s) && ValidPara(s, p)
    ensures Valid(r) && r.curDiv == s.curDiv && r.curParagraph == s.curParagraph
    ensures r.lastLabel == s.lastLabel && r.equationIndex == s.equationIndex
    ensures OthersUnchanged(s, r, p.div) && Heads(r) == Heads(s)
    ensures DivAt(r, p.div).children
            == DivAt(s, p.div).children[p.index := Para(DivAt(s, p.div).children[p.index].content + nodes)]
  {
    var old_ := DivAt(s, p.div);
    var div := Div(old_.children[p.index := Para(old_.children[p.index].content + nodes)]);
    if p.div.Unlisted? then s.(unlisted := div)
    else s.(divs := s.divs[p.div.index := div])
  }

  /** Nodes appended one by one to a division. */
  function AppendNodes(s: State, d: DivRef, nodes: seq<MarkerNodes.Node>): (r: State)
    requires Valid(s) && ValidRef(s, d)
    ensures Valid(r) && r.curDiv == s.curDiv && r.curParagraph == s.curParagraph
    ensures r.lastLabel == s.lastLabel && r.equationIndex == s.equationIndex
    ensures OthersUnchanged(s, r, d) && Heads(r) == Heads(s)
    ensures DivAt(r, d).children == DivAt(s, d).children + seq(|nodes|, k requires 0 <= k < |nodes| => Inline(nodes[k]))
    decreases |nodes|
  {
    if nodes == [] then s
    else
      var r := AppendNodes(AppendChild(s, d, Inline(nodes[0])), d, nodes[1..]);
      assert DivAt(r, d).children == DivAt(s, d).children + seq(|nodes|, k requires 0 <= k < |nodes| => Inline(nodes[k]));
      r
  }

  // ---------------------------------------------------------------------
  // isNewParagraph and the equation cursor

  /** isNewParagraph: a paragraph cluster opens a new `p` unless it follows
      a marker, a figure or a table inside an open paragraph. A missing
      last label (Java's null) is not in the marker set. */
  predicate IsNewParagraph(lastLabel: Option<Label>, curParagraph: Option<ParaRef>)
  {
    (lastLabel.None? || (!IsMarkerLabel(lastLabel.value) && lastLabel.value != Figure && lastLabel.value != Table))
    || curParagraph.None?
  }

  /** The first equation at or after the cursor that starts where the
      cluster starts. */
  function FirstEquationAt(eqs: seq<EquationEntry>, start: int, from: nat): (r: Option<nat>)
    ensures r.Some? ==> from <= r.value < |eqs| && eqs[r.value].start == start
                        && forall j :: from <= j < r.value ==> eqs[j].start != start
    ensures r.None? ==> forall j :: from <= j < |eqs| ==> eqs[j].start != start
    decreases |eqs| - from
  {
    if from >= |eqs| then None
    else if eqs[from].start == start then Some(from)
    else FirstEquationAt(eqs, start, from + 1)
  }

  /** The equation loop: entries before the cursor are skipped, the first
      one with the cluster's start is taken. */
  method FindEquation(eqs: seq<EquationEntry>, start: int, equationIndex: nat) returns (found: Option<nat>)
    ensures found == FirstEquationAt(eqs, start, equationIndex)
  {
    found := None;
    for i := 0 to |eqs|
      invariant found.None? ==> forall j :: equationIndex <= j < i ==> eqs[j].start != start
      invariant found.Some? ==> found == FirstEquationAt(eqs, start, equationIndex)
    {
      if i < equationIndex {
        continue;
      }
      if eqs[i].start == start {
        found := Some(i);
        break;
      }
    }
  }

  /** The equation an equation cluster is matched with: none when the
      cluster has no token or the document has no equation list. */
  function MatchedEquation(c: Cluster, equations: Option<seq<EquationEntry>>, from: nat): (r: Option<nat>)
    ensures r.Some? ==> equations.Some? && r.value < |equations.value|
  {
    if c.firstOffset == -1 || equations.None? then None
    else FirstEquationAt(equations.value, c.firstOffset, from)
  }

  // ---------------------------------------------------------------------
  // Marker nodes

  /** The equation list as the catalog the equation-marker lookup reads. */
  function EquationCatalog(equations: Option<seq<EquationEntry>>): Option<seq<MarkerNodes.CatalogEntry>>
  {
    if equations.None? then None
    else
      var eqs := equations.value;
      Some(seq(|eqs|, k requires 0 <= k < |eqs| => MarkerNodes.CatalogEntry(eqs[k].id, eqs[k].labelText)))
  }

  /** The nodes the loop gets for a marker cluster, by its label: the
      citation markers from the matcher's results, the figure, table and
      equation markers by lookup in the document's figures, tables and
      equations. */
  function MarkerRefNodes(c: Cluster, doc: Doc): Option<seq<MarkerNodes.Node>>
    requires IsMarkerLabel(c.clusterLabel)
  {
    if c.clusterLabel == CitationMarker then Some(MarkerNodes.CitationRefs(c.markerText, c.matches))
    else if c.clusterLabel == FigureMarker then
      MarkerNodes.MarkerRefs(MarkerNodes.FigureMarker, Some(c.markerText), doc.figures, doc.cleanField, c.refCoords)
    else if c.clusterLabel == TableMarker then
      MarkerNodes.MarkerRefs(MarkerNodes.TableMarker, Some(c.markerText), doc.tables, doc.cleanField, c.refCoords)
    else
      MarkerNodes.MarkerRefs(MarkerNodes.EquationMarker, Some(c.markerText), EquationCatalog(doc.equations), doc.cleanField, c.refCoords)
  }

  /** The `type` of the `ref` elements a marker label yields. */
  function RefTypeOf(l: Label): string
    requires IsMarkerLabel(l)
  {
    if l == CitationMarker then "bibr"
    else if l == FigureMarker then MarkerNodes.RefType(MarkerNodes.FigureMarker)
    else if l == TableMarker then MarkerNodes.RefType(MarkerNodes.TableMarker)
    else MarkerNodes.RefType(MarkerNodes.EquationMarker)
  }

  /** The marker dispatch of the loop: a citation marker always yields
      nodes, the marker text alone when it passes through; a figure,
      table or equation marker yields null exactly when its text is
      blank; every `ref` node has the type of its label, and a figure,
      table or equation `ref` comes first and holds the trimmed marker text. */
  lemma MarkerDispatch(c: Cluster, doc: Doc)
    requires IsMarkerLabel(c.clusterLabel)
    ensures var r := MarkerRefNodes(c, doc);
            && (c.clusterLabel == CitationMarker ==>
                  r.Some? && (MarkerNodes.PassesThrough(c.markerText) ==> r.value == [MarkerNodes.TextNode(c.markerText)]))
            && (c.clusterLabel != CitationMarker ==>
                  (r.None? <==> IsBlank(c.markerText))
                  && (r.Some? ==> r.value[0].Ref? && r.value[0].content == Trim(MarkerNodes.Flatten(c.markerText))))
            && (r.Some? ==> forall k :: 0 <= k < |r.value| && r.value[k].Ref? ==> r.value[k].refType == RefTypeOf(c.clusterLabel))
  {
    hide MarkerNodes.CitationRefs, MarkerNodes.MarkerRefs;
    if c.clusterLabel == CitationMarker {
      CitationNodes(c.markerText, c.matches);
    } else if c.clusterLabel == FigureMarker {
      CatalogNodes(MarkerNodes.FigureMarker, c.markerText, doc.figures, doc.cleanField, c.refCoords);
    } else if c.clusterLabel == TableMarker {
      CatalogNodes(MarkerNodes.TableMarker, c.markerText, doc.tables, doc.cleanField, c.refCoords);
    } else {
      CatalogNodes(MarkerNodes.EquationMarker, c.markerText, EquationCatalog(doc.equations), doc.cleanField, c.refCoords);
    }
  }

  lemma CitationNodes(text: string, matches: seq<MarkerNodes.MatchResult>)
    ensures var r := MarkerNodes.CitationRefs(text, matches);
            && (MarkerNodes.PassesThrough(text) ==> r == [MarkerNodes.TextNode(text)])
            && forall k :: 0 <= k < |r| && r[k].Ref? ==> r[k].refType == "bibr"
  {
    var r := MarkerNodes.CitationRefs(text, matches);
    if !MarkerNodes.PassesThrough(text) {
      forall k | |matches| <= k < |r|
        ensures r[k] == MarkerNodes.TextNode(" ")
      {
      }
    }
  }

  lemma CatalogNodes(kind: MarkerNodes.MarkerKind, text: string, catalog: Option<seq<MarkerNodes.CatalogEntry>>,
                     cleanField: string -> string, coords: Option<string>)
    ensures var r := MarkerNodes.MarkerRefs(kind, Some(text), catalog, cleanField, coords);
            && (r.None? <==> IsBlank(text))
            && (r.Some? ==> r.value[0].Ref? && r.value[0].content == Trim(MarkerNodes.Flatten(text)))
            && (r.Some? ==> forall k :: 0 <= k < |r.value| && r.value[k].Ref? ==> r.value[k].refType == MarkerNodes.RefType(kind))
  {
    MarkerNodes.MarkerRefsShape(kind, Some(text), catalog, cleanField, coords);
    hide *;
    var r := MarkerNodes.MarkerRefs(kind, Some(text), catalog, cleanField, coords);
    if r.Some? {
      forall k | 0 <= k < |r.value| && r.value[k].Ref?
        ensures r.value[k].refType == MarkerNodes.RefType(kind)
      {
        assert k == 0;
      }
    }
  }

  /** The marker dispatch as the loop runs it, through the four marker methods. */
  method MarkerNodesFor(c: Cluster, doc: Doc) returns (nodes: Option<seq<MarkerNodes.Node>>)
    requires IsMarkerLabel(c.clusterLabel)
    ensures nodes == MarkerRefNodes(c, doc)
  {
    if c.clusterLabel == CitationMarker {
      var refs := MarkerNodes.MarkReferencesLuceneBased(c.markerText, c.matches);
      nodes := Some(refs);
    } else if c.clusterLabel == FigureMarker {
      nodes := MarkerNodes.MarkReferencesFigure(Some(c.markerText), doc.figures, doc.cleanField, c.refCoords);
    } else if c.clusterLabel == TableMarker {
      nodes := MarkerNodes.MarkReferencesTable(Some(c.markerText), doc.tables, doc.cleanField, c.refCoords);
    } else {
      nodes := MarkerNodes.MarkReferencesEquation(Some(c.markerText), EquationCatalog(doc.equations), doc.cleanField, c.refCoords);
    }
  }

  // ---------------------------------------------------------------------
  // One cluster

  /** The head of a section: the section number split off into `n` when
      the recogniser finds one, else the whole text. */
  function SectionHead(content: string, sectionNumber: string -> Option<(string, string)>): Child
  {
    match sectionNumber(content)
    case Some((text, n)) => Head(Some(n), text)
    case None => Head(None, content)
  }

  /** A section cluster: a new listed division holding only its head
      becomes the current division; the current paragraph, the earlier
      divisions and the cursor are kept. */
  function OpenSection(s: State, content: string, sectionNumber: string -> Option<(string, string)>): (r: State)
    requires Valid(s)
    ensures Valid(r)
    ensures r.divs == s.divs + [Div([SectionHead(content, sectionNumber)])] && r.curDiv == Listed(|s.divs|)
    ensures r.unlisted == s.unlisted && r.curParagraph == s.curParagraph
    ensures r.lastLabel == s.lastLabel && r.equationIndex == s.equationIndex
    ensures Heads(r) == Heads(s) + [SectionHead(content, sectionNumber)]
  {
    var r := s.(divs := s.divs + [Div([SectionHead(content, sectionNumber)])], curDiv := Listed(|s.divs|));
    assert ValidRef(r, Listed(|s.divs|));
    assert forall e :: ValidRef(s, e) ==> ValidRef(r, e) && DivAt(r, e) == DivAt(s, e);
    r
  }

  /** An equation cluster: the cursor moves to the matched equation, and
      that equation's element, when it has one, is appended to the current
      division; nothing else changes. */
  function PlaceEquation(s: State, c: Cluster, equations: Option<seq<EquationEntry>>): (r: State)
    requires Valid(s)
    ensures Valid(r) && r.curDiv == s.curDiv && r.curParagraph == s.curParagraph && r.lastLabel == s.lastLabel
    ensures OthersUnchanged(s, r, s.curDiv) && Heads(r) == Heads(s)
    ensures var m := MatchedEquation(c, equations, s.equationIndex);
            && r.equationIndex == (if m.Some? then m.value else s.equationIndex)
            && DivAt(r, s.curDiv).children
               == DivAt(s, s.curDiv).children
                  + (if m.Some? && equations.value[m.value].element.Some?
                     then [Formula(equations.value[m.value].element.value)] else [])
  {
    match MatchedEquation(c, equations, s.equationIndex)
    case None => s
    case Some(i) =>
      var moved := s.(equationIndex := i);
      if equations.value[i].element.None? then moved
      else AppendChild(moved, s.curDiv, Formula(equations.value[i].element.value))
  }

  /** An item or a note appended to the current division; nothing else changes. */
  function AddChildToCurrent(s: State, child: Child): (r: State)
    requires Valid(s)
    ensures Valid(r) && r.curDiv == s.curDiv && r.curParagraph == s.curParagraph
    ensures r.lastLabel == s.lastLabel && r.equationIndex == s.equationIndex
    ensures DivAt(r, s.curDiv).children == DivAt(s, s.curDiv).children + [child]
    ensures OthersUnchanged(s, r, s.curDiv) && Heads(r) == Heads(s)
  {
    AppendChild(s, s.curDiv, child)
  }

  /** A paragraph cluster: its text goes into the current paragraph, or
      into a new one appended to the current division. */
  function AddParagraphText(s: State, content: string): (r: State)
    requires Valid(s)
    ensures Valid(r) && |r.divs| == |s.divs| && r.curDiv == s.curDiv && r.equationIndex == s.equationIndex
    ensures Heads(r) == Heads(s)
  {
    if IsNewParagraph(s.lastLabel, s.curParagraph) then
      var p := ParaRef(s.curDiv, |DivAt(s, s.curDiv).children|);
      var withPara := AppendChild(s, s.curDiv, Para([]));
      AppendToParagraph(withPara.(curParagraph := Some(p)), p, [MarkerNodes.TextNode(content)])
    else AppendToParagraph(s, s.curParagraph.value, [MarkerNodes.TextNode(content)])
  }

  /** A marker cluster: a space and the marker's nodes go into the current
      paragraph, or into the current division when there is none. */
  function AddMarker(s: State, nodes: Option<seq<MarkerNodes.Node>>): (r: State)
    requires Valid(s)
    ensures Valid(r) && |r.divs| == |s.divs| && r.equationIndex == s.equationIndex
    ensures Heads(r) == Heads(s)
  {
    var added := [MarkerNodes.TextNode(" ")] + (if nodes.Some? then nodes.value else []);
    if s.curParagraph.Some? then AppendToParagraph(s, s.curParagraph.value, added)
    else AppendNodes(s, s.curDiv, added)
  }

  /** What one non-null cluster does to the state. */
  function Step(s: State, c: Cluster, doc: Doc): (r: State)
    requires Valid(s)
    ensures Valid(r) && r.lastLabel == Some(c.clusterLabel)
    ensures Heads(r) == Heads(s) + (if c.clusterLabel == Section then [SectionHead(c.content, doc.sectionNumber)] else [])
  {
    var t :=
      if c.clusterLabel == Section then OpenSection(s, c.content, doc.sectionNumber)
      else if c.clusterLabel == Equation || c.clusterLabel == EquationLabel then PlaceEquation(s, c, doc.equations)
      else if c.clusterLabel == Item then AddChildToCurrent(s, ListItem(c.content))
      else if c.clusterLabel == Other then AddChildToCurrent(s, Note(c.content))
      else if c.clusterLabel == Paragraph then AddParagraphText(s, c.content)
      else if IsMarkerLabel(c.clusterLabel) then AddMarker(s, MarkerRefNodes(c, doc))
      else if (c.clusterLabel == Figure || c.clusterLabel == Table) && s.curParagraph.Some? then
        AppendToParagraph(s, s.curParagraph.value, [MarkerNodes.TextNode(" ")])
      else s;
    t.(lastLabel := Some(c.clusterLabel))
  }

  // ---------------------------------------------------------------------
  // The loop

  /** The heads of the non-null section clusters, in order. */
  function SectionHeads(clusters: seq<Option<Cluster>>, sectionNumber: string -> Option<(string, string)>): seq<Child>
    decreases |clusters|
  {
    if clusters == [] then []
    else
      var c := clusters[|clusters| - 1];
      SectionHeads(clusters[..|clusters| - 1], sectionNumber)
      + (if c.Some? && c.value.clusterLabel == Section then [SectionHead(c.value.content, sectionNumber)] else [])
  }

  /** The state after the clusters, null clusters skipped: the `k`th
      listed division opens with the head of the `k`th section cluster. */
  function Assemble(clusters: seq<Option<Cluster>>, doc: Doc): (r: State)
    ensures Valid(r)
    ensures Heads(r) == SectionHeads(clusters, doc.sectionNumber)
    decreases |clusters|
  {
    if clusters == [] then Initial()
    else
      var s := Assemble(clusters[..|clusters| - 1], doc);
      var c := clusters[|clusters| - 1];
      if c.None? then s else Step(s, c.value, doc)
  }

  lemma AssembleNext(clusters: seq<Option<Cluster>>, i: nat, doc: Doc)
    requires i < |clusters|
    ensures var s := Assemble(clusters[..i], doc);
            Assemble(clusters[..i + 1], doc)
            == if clusters[i].None? then s else Step(s, clusters[i].value, doc)
  {
    assert clusters[..i + 1][..i] == clusters[..i];
    hide Step;
  }

  /** An equation cluster as the loop handles it: the cursor search, then
      the matched equation's element appended to the current division. */
  method AddEquation(s: State, c: Cluster, equations: Option<seq<EquationEntry>>) returns (r: State)
    requires Valid(s)
    ensures r == PlaceEquation(s, c, equations)
  {
    r := s;
    if c.firstOffset != -1 && equations.Some? {
      var found := FindEquation(equations.value, c.firstOffset, s.equationIndex);
      if found.Some? {
        var element := equations.value[found.value].element;
        r := r.(equationIndex := found.value);
        if element.Some? {
          r := AppendChild(r, r.curDiv, Formula(element.value));
        }
      }
    }
  }

  /** The cluster loop of toTEITextPiece; the listed divisions it builds
      are what the method serialises. */
  method AssembleBody(clusters: seq<Option<Cluster>>, doc: Doc) returns (divResults: seq<Div>)
    ensures divResults == Assemble(clusters, doc).divs
  {
    assert Assemble(clusters[..0], doc) == Initial();
    hide Assemble, OpenSection, PlaceEquation, AddChildToCurrent, AddParagraphText, AddMarker, AppendToParagraph, MarkerRefNodes;
    var st := Initial();
    for i := 0 to |clusters|
      invariant Valid(st)
      invariant st == Assemble(clusters[..i], doc)
    {
      AssembleNext(clusters, i, doc);
      if clusters[i].None? {
        continue;
      }
      var c := clusters[i].value;
      ghost var before := st;
      if c.clusterLabel == Section {
        st := OpenSection(st, c.content, doc.sectionNumber);
      } else if c.clusterLabel == Equation || c.clusterLabel == EquationLabel {
        st := AddEquation(st, c, doc.equations);
      } else if c.clusterLabel == Item {
        st := AddChildToCurrent(st, ListItem(c.content));
      } else if c.clusterLabel == Other {
        st := AddChildToCurrent(st, Note(c.content));
      } else if c.clusterLabel == Paragraph {
        st := AddParagraphText(st, c.content);
      } else if IsMarkerLabel(c.clusterLabel) {
        var nodes := MarkerNodesFor(c, doc);
        st := AddMarker(st, nodes);
      } else if c.clusterLabel == Figure || c.clusterLabel == Table {
        if st.curParagraph.Some? {
          st := AppendToParagraph(st, st.curParagraph.value, [MarkerNodes.TextNode(" ")]);
        }
      }
      st := st.(lastLabel := Some(c.clusterLabel));
      assert st == Step(before, c, doc);
    }
    assert clusters[..|clusters|] == clusters;
    divResults := st.divs;
  }

  // ---------------------------------------------------------------------
  // Properties

  /** Content before the first section goes into the unlisted division:
      without a section cluster nothing is listed. */
  lemma NoSectionNothingListed(clusters: seq<Option<Cluster>>, doc: Doc)
    requires forall k :: 0 <= k < |clusters| ==> clusters[k].None? || clusters[k].value.clusterLabel != Section
    ensures Assemble(clusters, doc).divs == []
  {
    NoSectionNoHeads(clusters, doc.sectionNumber);
    var r := Assemble(clusters, doc);
    assert |Heads(r)| == |r.divs|;
  }

  lemma {:induction false} NoSectionNoHeads(clusters: seq<Option<Cluster>>, sectionNumber: string -> Option<(string, string)>)
    requires forall k :: 0 <= k < |clusters| ==> clusters[k].None? || clusters[k].value.clusterLabel != Section
    ensures SectionHeads(clusters, sectionNumber) == []
    decreases |clusters|
  {
    if clusters != [] {
      var prefix := clusters[..|clusters| - 1];
      assert forall k :: 0 <= k < |prefix| ==> prefix[k] == clusters[k];
      NoSectionNoHeads(prefix, sectionNumber);
    }
  }

  /** A section cluster appends a division holding only the head built
      from its text and makes it current; the current paragraph, the
      earlier divisions, the unlisted division and the cursor are kept. */
  lemma SectionStep(s: State, c: Cluster, doc: Doc)
    requires Valid(s) && c.clusterLabel == Section
    ensures var r := Step(s, c, doc);
            && r.divs == s.divs + [Div([SectionHead(c.content, doc.sectionNumber)])]
            && r.curDiv == Listed(|s.divs|) && r.curParagraph == s.curParagraph
            && r.unlisted == s.unlisted && r.equationIndex == s.equationIndex
            && (doc.sectionNumber(c.content).Some? ==>
                  var (text, n) := doc.sectionNumber(c.content).value;
                  r.divs[|s.divs|].children == [Head(Some(n), text)])
            && (doc.sectionNumber(c.content).None? ==> r.divs[|s.divs|].children == [Head(None, c.content)])
  {
  }

  /** An equation cluster moves the cursor to the matched equation and
      appends that equation's element, when it has one, to the current
      division, even when the cursor does not move; every other division
      and both current elements are kept. */
  lemma EquationStep(s: State, c: Cluster, doc: Doc)
    requires Valid(s) && (c.clusterLabel == Equation || c.clusterLabel == EquationLabel)
    ensures var r := Step(s, c, doc);
            var m := MatchedEquation(c, doc.equations, s.equationIndex);
            && r.curDiv == s.curDiv && r.curParagraph == s.curParagraph && OthersUnchanged(s, r, s.curDiv)
            && r.equationIndex == (if m.Some? then m.value else s.equationIndex)
            && (m.Some? && doc.equations.value[m.value].element.Some? ==>
                  DivAt(r, s.curDiv).children
                  == DivAt(s, s.curDiv).children + [Formula(doc.equations.value[m.value].element.value)])
            && (m.None? || doc.equations.value[m.value].element.None? ==>
                  DivAt(r, s.curDiv) == DivAt(s, s.curDiv))
  {
  }

  /** An item or a note cluster appends its text, as a list item or a
      note, to the current division; nothing else changes. */
  lemma ChildStep(s: State, c: Cluster, doc: Doc)
    requires Valid(s) && (c.clusterLabel == Item || c.clusterLabel == Other)
    ensures var r := Step(s, c, doc);
            var child := if c.clusterLabel == Item then ListItem(c.content) else Note(c.content);
            && r.curDiv == s.curDiv && r.curParagraph == s.curParagraph && r.equationIndex == s.equationIndex
            && DivAt(r, s.curDiv).children == DivAt(s, s.curDiv).children + [child]
            && OthersUnchanged(s, r, s.curDiv)
  {
  }

  /** A paragraph cluster opens a new `p`, appended to the current
      division and holding the cluster's text, exactly when
      isNewParagraph holds; otherwise the text is appended to the current
      paragraph, wherever that paragraph is. Only the division written to
      changes, and the cursor is kept. */
  lemma ParagraphStep(s: State, c: Cluster, doc: Doc)
    requires Valid(s) && c.clusterLabel == Paragraph
    ensures var r := Step(s, c, doc);
            r.curDiv == s.curDiv && r.equationIndex == s.equationIndex && r.lastLabel == Some(Paragraph)
    ensures var r := Step(s, c, doc);
            IsNewParagraph(s.lastLabel, s.curParagraph) ==>
              r.curParagraph == Some(ParaRef(s.curDiv, |DivAt(s, s.curDiv).children|))
              && DivAt(r, s.curDiv).children == DivAt(s, s.curDiv).children + [Para([MarkerNodes.TextNode(c.content)])]
              && OthersUnchanged(s, r, s.curDiv)
    ensures var r := Step(s, c, doc);
            !IsNewParagraph(s.lastLabel, s.curParagraph) ==>
              var p := s.curParagraph.value;
              r.curParagraph == s.curParagraph
              && DivAt(r, p.div).children
                 == DivAt(s, p.div).children[p.index := Para(DivAt(s, p.div).children[p.index].content + [MarkerNodes.TextNode(c.content)])]
              && OthersUnchanged(s, r, p.div)
  {
    if IsNewParagraph(s.lastLabel, s.curParagraph) {
      var p := ParaRef(s.curDiv, |DivAt(s, s.curDiv).children|);
      var withPara := AppendChild(s, s.curDiv, Para([]));
      var current := withPara.(curParagraph := Some(p));
      assert DivAt(current, s.curDiv) == DivAt(withPara, s.curDiv);
      assert forall e :: ValidRef(s, e) ==> DivAt(current, e) == DivAt(withPara, e);
      var r := AppendToParagraph(current, p, [MarkerNodes.TextNode(c.content)]);
      assert DivAt(r, s.curDiv).children
             == (DivAt(s, s.curDiv).children + [Para([])])[p.index := Para([] + [MarkerNodes.TextNode(c.content)])];
      assert [] + [MarkerNodes.TextNode(c.content)] == [MarkerNodes.TextNode(c.content)];
      assert (DivAt(s, s.curDiv).children + [Para([])])[p.index := Para([MarkerNodes.TextNode(c.content)])]
             == DivAt(s, s.curDiv).children + [Para([MarkerNodes.TextNode(c.content)])];
      assert Step(s, c, doc) == r.(lastLabel := Some(Paragraph));
    }
  }

  /** A marker cluster puts a space and then the nodes its label's marker
      function builds at the end of the current paragraph, or, when there
      is none, at the end of the current division. Only that division
      changes, and the cursor is kept. */
  lemma MarkerStep(s: State, c: Cluster, doc: Doc)
    requires Valid(s) && IsMarkerLabel(c.clusterLabel)
    ensures var r := Step(s, c, doc);
            var nodes := MarkerRefNodes(c, doc);
            var added := [MarkerNodes.TextNode(" ")] + (if nodes.Some? then nodes.value else []);
            && r.curParagraph == s.curParagraph && r.curDiv == s.curDiv && r.equationIndex == s.equationIndex
            && (s.curParagraph.Some? ==>
                  var p := s.curParagraph.value;
                  DivAt(r, p.div).children
                  == DivAt(s, p.div).children[p.index := Para(DivAt(s, p.div).children[p.index].content + added)]
                  && OthersUnchanged(s, r, p.div))
            && (s.curParagraph.None? ==>
                  DivAt(r, s.curDiv).children
                  == DivAt(s, s.curDiv).children + seq(|added|, k requires 0 <= k < |added| => Inline(added[k]))
                  && OthersUnchanged(s, r, s.curDiv))
  {
  }

  /** A figure or a table cluster appends a space to the current
      paragraph when there is one; nothing else changes. */
  lemma FigureTableStep(s: State, c: Cluster, doc: Doc)
    requires Valid(s) && (c.clusterLabel == Figure || c.clusterLabel == Table)
    ensures var r := Step(s, c, doc);
            && r.curParagraph == s.curParagraph && r.curDiv == s.curDiv && r.equationIndex == s.equationIndex
            && (s.curParagraph.None? ==> r == s.(lastLabel := Some(c.clusterLabel)))
            && (s.curParagraph.Some? ==>
                  var p := s.curParagraph.value;
                  DivAt(r, p.div).children
                  == DivAt(s, p.div).children[p.index := Para(DivAt(s, p.div).children[p.index].content + [MarkerNodes.TextNode(" ")])]
                  && OthersUnchanged(s, r, p.div))
  {
  }

  /** One cluster never moves the equation cursor back; when it moves, it
      lands on an equation that starts where the cluster starts and is the
      first such equation at or after the old cursor. */
  lemma EquationCursorStep(s: State, c: Cluster, doc: Doc)
    requires Valid(s)
    ensures var r := Step(s, c, doc);
            s.equationIndex <= r.equationIndex
    ensures var r := Step(s, c, doc);
            r.equationIndex != s.equationIndex ==>
              (c.clusterLabel == Equation || c.clusterLabel == EquationLabel) && doc.equations.Some?
              && r.equationIndex < |doc.equations.value| && doc.equations.value[r.equationIndex].start == c.firstOffset
              && forall j :: s.equationIndex <= j < r.equationIndex ==> doc.equations.value[j].start != c.firstOffset
  {
  }

  /** Over the whole loop the equation cursor never decreases. */
  lemma {:induction false} EquationCursorMonotone(clusters: seq<Option<Cluster>>, j: nat, k: nat, doc: Doc)
    requires j <= k <= |clusters|
    ensures Assemble(clusters[..j], doc).equationIndex <= Assemble(clusters[..k], doc).equationIndex
    decreases k - j
  {
    hide *;
    if j < k {
      EquationCursorMonotone(clusters, j, k - 1, doc);
      AssembleNext(clusters, k - 1, doc);
      var s := Assemble(clusters[..k - 1], doc);
      if clusters[k - 1].Some? {
        EquationCursorStep(s, clusters[k - 1].value, doc);
      }
    }
  }
}
