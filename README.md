# GROBID TEI body assembly and marker linking, and the theorem-extraction training scripts

This project is a Dafny model of two parts of one repository.

**The TEI formatter of GROBID 0.5.1** (`TEIFormatter.java`):
- the legacy citation-marker heuristic `markReferencesTEI`:
  - the rewrite of compact lists `[1,2]` into `[1] [2]`;
  - the expansion of ranges `[1-3]` into `[1] [2] [3]`;
  - the search for an entry's own marker, then for its first author followed by its year;
  - the recursion on the text around a match;
  - the final wrapping of a marker nothing matched.
- `bracketReferenceSegment`;
- the Lucene-based marker function and the figure, table and equation marker functions;
- `getCoordsAttribute`;
- the `when` padding of the header date;
- the cluster loop of `toTEITextPiece`:
  - section divisions;
  - when a paragraph cluster opens a new paragraph (`isNewParagraph`);
  - where marker nodes go;
  - the equation cursor.

**The Python scripts that build and tag training data for theorem extraction:**
- `generate_training_data.py`:
  - the table of per-line feature rows whose last column is the line's type (text, heading, body, after_body);
  - the three passes that fill and smooth that column in place;
  - the small line predicates;
  - the restart bookkeeping.
- `tag_text.py`: the rule-based tagger `vectors_to_tags`.
- `lines_to_text.py`: ordering of dotted theorem numbers, the parallel lists of headings and line indexes kept by `clever_append`, and `find_end`.

Modules, one per file:
- `Strings` (`strings.dfy`): Java and Python string operations the code relies on, each with its defining contract. These are `indexOf` with a clamped start, `replace`, `trim`, `split`/`join`, `Integer.parseInt`, and printing of integers.
- `HeaderDate` (`dates.dfy`): the `when` attribute.
- `CitationRewrite` (`citation_rewrite.dfy`): `bracketReferenceSegment` and the two regex rewriting passes of `markReferencesTEI`.
- `CitationMarkers` (`citations.dfy`): the rest of `markReferencesTEI`.
- `MarkerNodes` (`markers.dfy`): the node-producing marker functions and `getCoordsAttribute`.
- `BodyAssembly` (`assembly.dfy`): the cluster loop.
- `TrainingData` (`training.dfy`), `Tagging` (`tagging.dfy`) and `TheoremHeadings` (`theorems.dfy`): the three Python files.

Code that works by loops and in-place updates is modelled as methods proved against specification functions:
- the `StringBuffer` passes and the `while (!end)` scan of `markReferencesTEI`;
- the catalog loops of the marker functions;
- the cluster loop and the equation cursor;
- the list-of-lists updates of the training scripts, modelled on `array<Row>`;
- the `tags` array of the tagger;
- the two parallel lists of `clever_append`, modelled as a class with two fields.

The properties are lemmas about those functions.

Calls into code outside the model are parameters of the operations:
- `HTMLEncode`;
- `cleanField`;
- the coordinates string;
- `getSectionNumber`;
- the Lucene marker matcher;
- the token clusterer;
- `line_to_vector`;
- the `theoremness` test.

Where the source and its surrounding description disagree, the model follows the source:
- **Wrapping of the result.** The result of `markReferencesTEI` is not always wrapped in a `ref`. When an author-year match is found, the text before and after the reference is returned as it is when it is at most two characters long (`TEIFormatter.java:1546-1557`). `"a Smith 2010 b"` thus comes back as `"a <ref …>Smith 2010</ref> b"`. What holds, and is proved (`CitationMarkers.MarkTagged`), is weaker: every result either starts or ends a `ref` or holds a `<ref type="bibr"` tag.
- **Length of the recursive calls.** The recursive calls of `markReferencesTEI` are not on shorter inputs. `HTMLEncode` and range expansion grow the text before it is cut around a match. The recursion is therefore bounded by a `fuel` argument, and `CitationMarkers.MarkFuel` shows that more fuel never changes a result that did not run out.
- **Ranges with other dashes.** A range written with U+2012, U+2014 or U+2015 passes the range regex, but the code looks only for `-` and U+2013. Its brackets are therefore stripped and the numbers are left unexpanded (`CitationRewrite.RangeRewriteOtherDash`).
- **The bold test of `clever_append`.** `clever_append` calls `is_bold` on the heading's name rather than on a word. The "font" it tests is thus the one-letter string of the name's first letter, so the bold clause never holds (`TheoremHeadings.NameNeverBold`).

## Model

| member | source | states |
|---|---|---|
| HeaderDate.PadYearDigits | grobid-0.5.1/grobid-core/src/main/java/org/grobid/core/document/TEIFormatter.java:198-205 | a year in 0..9999 is printed as exactly four digits that read back as the year |
| HeaderDate.PadPartDigits | grobid-0.5.1/grobid-core/src/main/java/org/grobid/core/document/TEIFormatter.java:206-216 | a month or day in 0..99 is printed as a dash and exactly two digits that read back as the value |
| HeaderDate.WhenRoundTrip | grobid-0.5.1/grobid-core/src/main/java/org/grobid/core/document/TEIFormatter.java:196-217 | the `when` value has length 4, 7 or 10 as month and day are present, and parses back to the same year, month and day |
| HeaderDate.DateElement | grobid-0.5.1/grobid-core/src/main/java/org/grobid/core/document/TEIFormatter.java:196-227 | the date line always ends with `</date>`; with an unknown year it opens with a bare `<date>`; with a known year and no raw date it is the `published` date whose `when` attribute and text are both the padded value |
| CitationRewrite.BracketReferenceSegment | grobid-0.5.1/grobid-core/src/main/java/org/grobid/core/document/TEIFormatter.java:1635-1648 | a segment exists iff the first `(` (else the first `[`) lies before the last `)` (else the last `]`); it is exactly the text between those two positions |
| CitationRewrite.FindCompact | grobid-0.5.1/grobid-core/src/main/java/org/grobid/core/document/TEIFormatter.java:69-70 | the scan returns the first match of the compact-list regex at or after the start position |
| CitationRewrite.RewriteCompactLists | grobid-0.5.1/grobid-core/src/main/java/org/grobid/core/document/TEIFormatter.java:1311-1335 | the `appendReplacement` loop builds the compact-list pass over the whole text |
| CitationRewrite.CompactFromMatch | grobid-0.5.1/grobid-core/src/main/java/org/grobid/core/document/TEIFormatter.java:1318-1331 | the pass copies the text up to the next match, writes that match's rewrite and continues after it |
| CitationRewrite.CompactFromNone | grobid-0.5.1/grobid-core/src/main/java/org/grobid/core/document/TEIFormatter.java:1334 | with no further match the rest of the text is copied unchanged |
| CitationRewrite.CompactListRewrite | grobid-0.5.1/grobid-core/src/main/java/org/grobid/core/document/TEIFormatter.java:1319-1328 | `[a, b, c]` and `[a,b,c]` (and the round-bracket forms) become `[a] [b] [c]`, every item in its own brackets |
| CitationRewrite.ExpandRange | grobid-0.5.1/grobid-core/src/main/java/org/grobid/core/document/TEIFormatter.java:1361-1369 | the loop builds the bracketed numbers from first to second, separated by single spaces |
| CitationRewrite.RangeExpansionReadBack | grobid-0.5.1/grobid-core/src/main/java/org/grobid/core/document/TEIFormatter.java:1361-1369 | split at its spaces, the expansion gives one bracketed item per number of the range, in order, each reading back as its number |
| CitationRewrite.RangeRewriteDash | grobid-0.5.1/grobid-core/src/main/java/org/grobid/core/document/TEIFormatter.java:1344-1400 | a range joined by `-` or U+2013 raises without the bibliography list for square brackets, and otherwise is expanded when its width is within the cap (10 + size/10 for square brackets, 9 for round); wider ranges stop the pass |
| CitationRewrite.RangeRewriteOtherDash | grobid-0.5.1/grobid-core/src/main/java/org/grobid/core/document/TEIFormatter.java:1345-1351 | a range written with U+2012, U+2014 or U+2015 is replaced by its numbers and dash without brackets, unexpanded |
| CitationRewrite.FindRange | grobid-0.5.1/grobid-core/src/main/java/org/grobid/core/document/TEIFormatter.java:71 | the scan returns the first match of the range regex at or after the start position |
| CitationRewrite.RewriteRange | grobid-0.5.1/grobid-core/src/main/java/org/grobid/core/document/TEIFormatter.java:1344-1400 | the loop body's handling of one range match: replace, stop the pass, or throw |
| CitationRewrite.ExpandRanges | grobid-0.5.1/grobid-core/src/main/java/org/grobid/core/document/TEIFormatter.java:1337-1407 | the range pass over the whole text, ending in the text, a copy of the rest at a `break`, or a GrobidException |
| CitationRewrite.RangesFromMatch | grobid-0.5.1/grobid-core/src/main/java/org/grobid/core/document/TEIFormatter.java:1401-1402 | a replaced match puts its rewrite after the copied text and the pass continues after it |
| CitationRewrite.RangesFromEnd | grobid-0.5.1/grobid-core/src/main/java/org/grobid/core/document/TEIFormatter.java:1358-1360 | a `break` keeps the rest of the text as it is; a parse failure ends the pass with a GrobidException |
| CitationRewrite.Wrap32 | grobid-0.5.1/grobid-core/src/main/java/org/grobid/core/document/TEIFormatter.java:1363 | Java `int` arithmetic: the result stays within 32 bits and equals the input inside that range |
| CitationRewrite.Int32LoopExitsBelowMax | grobid-0.5.1/grobid-core/src/main/java/org/grobid/core/document/TEIFormatter.java:1363 | below `Integer.MAX_VALUE` the expansion loop exits after one iteration per number |
| CitationRewrite.Int32LoopNeverExitsAtMax | grobid-0.5.1/grobid-core/src/main/java/org/grobid/core/document/TEIFormatter.java:1363 | with `secondIndex == Integer.MAX_VALUE` the loop never exits, whatever the number of iterations |
| CitationRewrite.MaxValueRangeHangs | grobid-0.5.1/grobid-core/src/main/java/org/grobid/core/document/TEIFormatter.java:1353-1369 | the marker `[2147483640-2147483647]` passes the width cap and reaches that loop, which never exits; the intended expansion has 8 items |
| CitationMarkers.HasNumberRefExists | grobid-0.5.1/grobid-core/src/main/java/org/grobid/core/document/TEIFormatter.java:68 | the `numberRef` scan succeeds iff the regex matches at some position |
| CitationMarkers.SymbolAt | grobid-0.5.1/grobid-core/src/main/java/org/grobid/core/document/TEIFormatter.java:1419-1435 | the entry's marker, or the marker in square brackets when only that form is a `numberRef`, is found at its first occurrence; a `numberRef` marker that is not found does not occur |
| CitationMarkers.MarkSymbolInPlace | grobid-0.5.1/grobid-core/src/main/java/org/grobid/core/document/TEIFormatter.java:1436-1439 | wrapping the marker changes nothing else: the text before and after it is kept, and the marker is inside a `ref` to entry `p` |
| CitationMarkers.YearText | grobid-0.5.1/grobid-core/src/main/java/org/grobid/core/document/TEIFormatter.java:1450-1456 | the year used for the search is never empty |
| CitationMarkers.AuthorYearTurn | grobid-0.5.1/grobid-core/src/main/java/org/grobid/core/document/TEIFormatter.java:1491-1616 | one turn of the search either ends the loop or continues strictly further on in the text |
| CitationMarkers.AuthorYearSound | grobid-0.5.1/grobid-core/src/main/java/org/grobid/core/document/TEIFormatter.java:1505-1571 | every match the loop reports has the first author before the year at least its length away, with no second occurrence of the author after it, and with agreeing year letters |
| CitationMarkers.SecondAuthorIrrelevant | grobid-0.5.1/grobid-core/src/main/java/org/grobid/core/document/TEIFormatter.java:1495-1562 | the second author's name never changes the outcome of the search: the two-author branch is guarded more strictly than the one-author branch and does the same |
| CitationMarkers.SearchAuthorYear | grobid-0.5.1/grobid-core/src/main/java/org/grobid/core/document/TEIFormatter.java:1484-1616 | the `while (!end)` loop computes the search's outcome |
| CitationMarkers.SearchEntry | grobid-0.5.1/grobid-core/src/main/java/org/grobid/core/document/TEIFormatter.java:1444-1484 | the entry's authors, year and year letter are read and searched for as the loop body does |
| CitationMarkers.Wrap | grobid-0.5.1/grobid-core/src/main/java/org/grobid/core/document/TEIFormatter.java:1625-1626 | the fall-through result starts with `<ref` or ends with `</ref>` |
| CitationMarkers.WrapIdempotent | grobid-0.5.1/grobid-core/src/main/java/org/grobid/core/document/TEIFormatter.java:1625-1626 | wrapping twice is wrapping once |
| CitationMarkers.SplitTagged | grobid-0.5.1/grobid-core/src/main/java/org/grobid/core/document/TEIFormatter.java:1520-1557 | a split at an author-year match contains the reference to entry `p` holding the author-to-year text |
| CitationMarkers.BibsTagged | grobid-0.5.1/grobid-core/src/main/java/org/grobid/core/document/TEIFormatter.java:1409-1628 | the loop over the entries always ends in a marked text |
| CitationMarkers.MarkTagged | grobid-0.5.1/grobid-core/src/main/java/org/grobid/core/document/TEIFormatter.java:1287-1292 | a blank or already wrapped marker comes back unchanged; any other successful result is marked |
| CitationMarkers.MarkFuel | grobid-0.5.1/grobid-core/src/main/java/org/grobid/core/document/TEIFormatter.java:1546-1555 | the recursion bound only bounds: a result that did not run out is the same with more fuel |
| CitationMarkers.BibsFuel | grobid-0.5.1/grobid-core/src/main/java/org/grobid/core/document/TEIFormatter.java:1410-1620 | the same for the loop over the entries |
| CitationMarkers.SplitFuel | grobid-0.5.1/grobid-core/src/main/java/org/grobid/core/document/TEIFormatter.java:1546-1557 | the same for the split around a match |
| CitationMarkers.PieceFuel | grobid-0.5.1/grobid-core/src/main/java/org/grobid/core/document/TEIFormatter.java:1596-1605 | the same for a part around a match |
| CitationMarkers.BibsEntry | grobid-0.5.1/grobid-core/src/main/java/org/grobid/core/document/TEIFormatter.java:1411-1620 | an entry without a parsed record is skipped; otherwise its own marker is wrapped, then the text is split at its author-year match, or the loop passes to the next entry |
| CitationMarkers.RunRewrites | grobid-0.5.1/grobid-core/src/main/java/org/grobid/core/document/TEIFormatter.java:1311-1408 | the two rewriting passes run only when the text has a bracket segment |
| CitationMarkers.MarkText | grobid-0.5.1/grobid-core/src/main/java/org/grobid/core/document/TEIFormatter.java:1287-1628 | the method computes the heuristic on a non-null marker |
| CitationMarkers.SplitReference | grobid-0.5.1/grobid-core/src/main/java/org/grobid/core/document/TEIFormatter.java:1520-1557 | the split and the recursive marking of the outer parts |
| CitationMarkers.MarkPart | grobid-0.5.1/grobid-core/src/main/java/org/grobid/core/document/TEIFormatter.java:1546-1555 | a part is marked again only when longer than two characters |
| CitationMarkers.MarkReferencesTEI | grobid-0.5.1/grobid-core/src/main/java/org/grobid/core/document/TEIFormatter.java:1284-1629 | a null marker gives null; otherwise the heuristic's result |
| MarkerNodes.FirstMatchingId | grobid-0.5.1/grobid-core/src/main/java/org/grobid/core/document/TEIFormatter.java:1705-1716 | an id is found iff some entry's cleaned, lower-cased, non-empty label occurs in the marker; it is the first such entry's |
| MarkerNodes.FindTarget | grobid-0.5.1/grobid-core/src/main/java/org/grobid/core/document/TEIFormatter.java:1705-1716 | the break-on-first-match loop computes that id |
| MarkerNodes.MarkerRefsShape | grobid-0.5.1/grobid-core/src/main/java/org/grobid/core/document/TEIFormatter.java:1696-1743 | a null or blank marker gives null; otherwise one `ref` node of the family's type holding the trimmed text with the coordinates, plus one space node exactly when the marker ends with a space |
| MarkerNodes.MarkerRefsTarget | grobid-0.5.1/grobid-core/src/main/java/org/grobid/core/document/TEIFormatter.java:1737-1739 | the `ref` has a target iff an entry matches, and the target is the family prefix plus the first matching entry's id |
| MarkerNodes.MarkReferencesFigure | grobid-0.5.1/grobid-core/src/main/java/org/grobid/core/document/TEIFormatter.java:1692-1744 | figure markers, with target prefix `#fig_` |
| MarkerNodes.MarkReferencesTable | grobid-0.5.1/grobid-core/src/main/java/org/grobid/core/document/TEIFormatter.java:1746-1801 | table markers, with target prefix `#tab_` |
| MarkerNodes.MarkReferencesEquation | grobid-0.5.1/grobid-core/src/main/java/org/grobid/core/document/TEIFormatter.java:1803-1853 | equation markers, with target prefix `#formula_` |
| MarkerNodes.CitationRefs | grobid-0.5.1/grobid-core/src/main/java/org/grobid/core/document/TEIFormatter.java:1653-1689 | a blank or wrapped marker is one text node; otherwise one `bibr` ref per matcher result, in order, with its text and coordinates, a target `#b<ordinal>` iff the result has an entry, and a trailing space node iff the marker ends with a space |
| MarkerNodes.MarkReferencesLuceneBased | grobid-0.5.1/grobid-core/src/main/java/org/grobid/core/document/TEIFormatter.java:1653-1689 | the loop over the matcher's results builds those nodes |
| MarkerNodes.CoordsAttribute | grobid-0.5.1/grobid-core/src/main/java/org/grobid/core/document/TEIFormatter.java:1272-1278 | the attribute is empty iff coordinates are off or there is no box; otherwise it is `coords="…"` |
| MarkerNodes.CoordsAttributeRoundTrip | grobid-0.5.1/grobid-core/src/main/java/org/grobid/core/document/TEIFormatter.java:1276-1277 | boxes without `;` are read back from the attribute by splitting its value at `;` |
| BodyAssembly.FirstEquationAt | grobid-0.5.1/grobid-core/src/main/java/org/grobid/core/document/TEIFormatter.java:1080-1089 | the first equation at or after the cursor that starts at the cluster's offset, or none when no such equation exists |
| BodyAssembly.FindEquation | grobid-0.5.1/grobid-core/src/main/java/org/grobid/core/document/TEIFormatter.java:1080-1089 | the loop that skips entries before the cursor and breaks on the first match computes it |
| BodyAssembly.MarkerRefNodes | grobid-0.5.1/grobid-core/src/main/java/org/grobid/core/document/TEIFormatter.java:1109-1133 | the marker dispatch: a citation marker gets the Lucene-based nodes of its matcher results, a figure, table or equation marker the nodes of its label lookup in the document's figures, tables or equations |
| BodyAssembly.MarkerDispatch | grobid-0.5.1/grobid-core/src/main/java/org/grobid/core/document/TEIFormatter.java:1109-1133 | a citation marker always yields nodes, the bare text when it passes through; a figure, table or equation marker yields null exactly when blank, else a first `ref` with the trimmed text; every `ref` has the type of its label (bibr, figure, table, formula) |
| BodyAssembly.MarkerNodesFor | grobid-0.5.1/grobid-core/src/main/java/org/grobid/core/document/TEIFormatter.java:1114-1133 | the dispatch through the four marker methods computes those nodes |
| BodyAssembly.OpenSection | grobid-0.5.1/grobid-core/src/main/java/org/grobid/core/document/TEIFormatter.java:1056-1068 | a section cluster appends a division holding only the head built from `getSectionNumber` (number in `n`, title as text) or the whole text, and makes it current; the current paragraph, the earlier divisions, the unlisted division and the cursor are kept |
| BodyAssembly.PlaceEquation | grobid-0.5.1/grobid-core/src/main/java/org/grobid/core/document/TEIFormatter.java:1069-1096 | the cursor moves to the first equation at or after it that starts at the cluster's offset, and that equation's element, when not null, is appended to the current division even when the cursor stays; no other division changes |
| BodyAssembly.AddEquation | grobid-0.5.1/grobid-core/src/main/java/org/grobid/core/document/TEIFormatter.java:1072-1095 | the equation branch of the loop body computes that step |
| BodyAssembly.AddParagraphText | grobid-0.5.1/grobid-core/src/main/java/org/grobid/core/document/TEIFormatter.java:1103-1108 | a paragraph cluster keeps the divisions' heads, the current division and the cursor |
| BodyAssembly.AddMarker | grobid-0.5.1/grobid-core/src/main/java/org/grobid/core/document/TEIFormatter.java:1109-1139 | a marker cluster keeps the divisions' heads and the cursor |
| BodyAssembly.AddChildToCurrent | grobid-0.5.1/grobid-core/src/main/java/org/grobid/core/document/TEIFormatter.java:1097-1102 | the item or note node is appended to the current division; no other division, neither current element and not the cursor changes |
| BodyAssembly.Step | grobid-0.5.1/grobid-core/src/main/java/org/grobid/core/document/TEIFormatter.java:1052-1146 | one cluster records its label as the last label and adds a head to the listed divisions exactly when it is a section, the head built from its text |
| BodyAssembly.Assemble | grobid-0.5.1/grobid-core/src/main/java/org/grobid/core/document/TEIFormatter.java:1042-1147 | the `k`th listed division opens with the head built from the `k`th non-null section cluster's text, and there are no other divisions |
| BodyAssembly.AssembleBody | grobid-0.5.1/grobid-core/src/main/java/org/grobid/core/document/TEIFormatter.java:1042-1147 | the cluster loop computes those divisions |
| BodyAssembly.NoSectionNothingListed | grobid-0.5.1/grobid-core/src/main/java/org/grobid/core/document/TEIFormatter.java:1044-1068 | without a section cluster no division is listed: content before the first section never reaches the output |
| BodyAssembly.NoSectionNoHeads | grobid-0.5.1/grobid-core/src/main/java/org/grobid/core/document/TEIFormatter.java:1056 | no section cluster means no section head |
| BodyAssembly.SectionStep | grobid-0.5.1/grobid-core/src/main/java/org/grobid/core/document/TEIFormatter.java:1056-1068 | through the loop step, a section cluster appends a division whose only child is `head` with `n` = number and text = title when `getSectionNumber` recognises one, else the whole text; current paragraph, earlier divisions, unlisted division and cursor kept |
| BodyAssembly.EquationStep | grobid-0.5.1/grobid-core/src/main/java/org/grobid/core/document/TEIFormatter.java:1069-1096 | through the loop step, the cursor moves to the matched equation, whose non-null element is appended to the current division; with no match or a null element that division is unchanged; the other divisions and both current elements are kept |
| BodyAssembly.ChildStep | grobid-0.5.1/grobid-core/src/main/java/org/grobid/core/document/TEIFormatter.java:1097-1102 | through the loop step, an item cluster appends an `item` and an other cluster a `note` with its text to the current division; the other divisions, both current elements and the cursor are kept |
| BodyAssembly.ParagraphStep | grobid-0.5.1/grobid-core/src/main/java/org/grobid/core/document/TEIFormatter.java:1103-1108 | a paragraph cluster opens a new `p` in the current division iff there is no current paragraph or the last label is not a marker, figure or table; otherwise its text goes at the end of the current paragraph, wherever it is; only the division written to changes, and the cursor is kept |
| BodyAssembly.MarkerStep | grobid-0.5.1/grobid-core/src/main/java/org/grobid/core/document/TEIFormatter.java:1109-1139 | a marker cluster puts a space and then the nodes its label's marker function builds at the end of the current paragraph, or of the current division when there is none; only that division changes, and the cursor is kept |
| BodyAssembly.FigureTableStep | grobid-0.5.1/grobid-core/src/main/java/org/grobid/core/document/TEIFormatter.java:1140-1144 | a figure or table cluster appends a space to the current paragraph when there is one and otherwise changes nothing but the last label |
| BodyAssembly.EquationCursorStep | grobid-0.5.1/grobid-core/src/main/java/org/grobid/core/document/TEIFormatter.java:1080-1089 | one cluster never moves the equation cursor back, and a moved cursor points at the first equation at or after the old cursor starting at the cluster's offset |
| BodyAssembly.EquationCursorMonotone | grobid-0.5.1/grobid-core/src/main/java/org/grobid/core/document/TEIFormatter.java:1046-1089 | over the whole loop the equation cursor never decreases |
| TrainingData.IsCapitalFirstLetter | generate_training_data.py:173-181 | true iff the line has a first word, that word is non-empty, and its first character is in `A`..`Z` |
| TrainingData.StarsLine | generate_training_data.py:214-220 | true iff some word of the line is `***` |
| TrainingData.EmptyLine | generate_training_data.py:222-229 | true iff no word of the line holds an ASCII letter or digit |
| TrainingData.LineToString | generate_training_data.py:59-64 | every word preceded by one space, then a newline |
| TrainingData.LineStringRoundTrip | generate_training_data.py:59-64 | for a non-empty line of words without spaces, the words are read back by splitting the string between its leading space and its newline |
| TrainingData.OverwriteRules | generate_training_data.py:272-276 | an empty row is always filled; a filled heading row is never replaced; text is never written over a filled row |
| TrainingData.AddTrainingVector | generate_training_data.py:272-276 | only row `fi` changes, to the line's features and the type, exactly when the rules allow it |
| TrainingData.CorrectOddities | generate_training_data.py:280-292 | the type column becomes the smoothing pass of the old one; the features are unchanged |
| TrainingData.CorrectFromRules | generate_training_data.py:280-292 | from any interior row on: same length, earlier rows and the last row untouched, each row the smoothing of its updated left neighbour, its own type and its original right neighbour |
| TrainingData.CorrectedRules | generate_training_data.py:280-292 | first and last rows untouched; every interior row follows the three rules, seeing the updated left neighbour and the original right neighbour |
| TrainingData.FillEmptyVectors | generate_training_data.py:295-322 | the table becomes the filling pass of the old one |
| TrainingData.FillFromRules | generate_training_data.py:295-322 | from any row on: no untyped row remains, typed rows are untouched, each untyped row gets its line's features and a type as the rules say |
| TrainingData.FilledRules | generate_training_data.py:295-322 | afterwards no row is untyped and typed rows are untouched; an untyped end row becomes text, and an untyped interior row takes the rule's type from its filled left neighbour and its original right neighbour (equal typed neighbours are copied) |
| TrainingData.RestartAtMostOnce | generate_training_data.py:324-336 | a result restarts iff it has not restarted yet, keeping the result index and setting the line index to 0 and the flag; asking again never restarts and moves to the next result as `next_result` does |
| Tagging.TagRow | tag_text.py:29-37 | the tag of one interior row is the state machine's step from the previous tag |
| Tagging.TagInterior | tag_text.py:28-37 | the loop fills the interior slots with the first n - 1 tags of the state machine and leaves the last slot alone |
| Tagging.VectorsToTags | tag_text.py:24-38 | the tags loop computes the state machine's tags, failing on no rows |
| Tagging.TagsRules | tag_text.py:24-38 | failure exactly on no rows; otherwise one tag per row, text at both ends, each interior tag the step from the previous tag |
| Tagging.TagMeaning | tag_text.py:29-37 | an interior row with the heading flag is heading; a non-heading row is body or after-body only after heading or body, and body exactly when italicness > 0.5 or formulaness > 0.6 and it is not a proof |
| Tagging.AfterBodyNotBeforeBody | tag_text.py:31-37 | an after-body tag is never directly followed by a body tag |
| Tagging.BodyAfterHeading | tag_text.py:29-35 | every body tag has a heading tag somewhere before it |
| TheoremHeadings.StringLessStrictTotal | tmp/xml_bestiary/test_xgrep/lines_to_text.py:178-181 | Python's `<` on strings is irreflexive, asymmetric and total on distinct strings |
| TheoremHeadings.OrderedMeaning | tmp/xml_bestiary/test_xgrep/lines_to_text.py:176-182 | `ordered(s, t)` iff `s` and `t` agree up to some position of their common length where `s`'s part is smaller |
| TheoremHeadings.OrderedStrict | tmp/xml_bestiary/test_xgrep/lines_to_text.py:176-182 | irreflexive and asymmetric, and false both ways when one number is a prefix of the other |
| TheoremHeadings.InPlaceEverywhere | tmp/xml_bestiary/test_xgrep/lines_to_text.py:184-190 | no entry is out of place iff every entry's number is ordered before the next one's |
| TheoremHeadings.NameNeverBold | tmp/xml_bestiary/test_xgrep/lines_to_text.py:195 | the bold clause tests a one-letter string and never holds |
| TheoremHeadings.CleverAppendShape | tmp/xml_bestiary/test_xgrep/lines_to_text.py:192-202 | the lists stay the same length; an absent heading is appended with its index; a present one is moved to the end with the new index when the condition holds, and otherwise both lists are unchanged |
| TheoremHeadings.CleverAppendKeepsOrder | tmp/xml_bestiary/test_xgrep/lines_to_text.py:192-202 | with increasing line indexes and a later new index, a replaced heading and its index leave from the same position and the indexes stay increasing |
| TheoremHeadings.Headings.CleverAppend | tmp/xml_bestiary/test_xgrep/lines_to_text.py:192-202 | the two lists are updated in place as that function says |
| TheoremHeadings.NumToListReadsParts | tmp/xml_bestiary/test_xgrep/lines_to_text.py:207-216 | `search_to_string` of no match is empty, so no match gives no parts; a number of non-empty dot-free parts joined by dots, with or without a final dot, gives back its parts |
| TheoremHeadings.FindEnd | tmp/xml_bestiary/test_xgrep/lines_to_text.py:244-253 | the end lies after the heading and within 15 lines of it; no line in between ends the theorem; it stops at the first ending line, at the end of the text, or at the length bound |

## Left out

- I/O is outside the model: reading the XML and CSV inputs, pandas, `os.listdir`, printing and XML serialisation (`XmlBuilderUtils.toXml`, the post-serialisation clean-up and the `</p0>` reconnection pass).
- The process-wide `CntManager` counters are not modelled; they do not affect any result.
- Calls into code that is not part of this model are parameters of the operations: `HTMLEncode`, `cleanField`, `normalizeText`, `getCoordsString`, `getSectionNumber`, the Lucene `ReferenceMarkerMatcher`, `TaggingTokenClusteror`, `Equation.toTEIElement`, `line_to_vector` and `theoremness`.
- `HTMLEncode` of a null entry marker is taken to be null (`CitationMarkers.EncodedSymbol`).
- Lower-casing (`toLowerCase`) is modelled on ASCII letters only, because Unicode case mapping has no counterpart here.
- The floating-point features are inputs rather than computed: average word length, italicness, formuleness, boldness and line similarity.
- `CitationMarkers.MarkReferencesTEI` takes a `fuel` bound on the recursion depth; an input needing more than `fuel` nested calls gives `OutOfFuel` (`CitationMarkers.MarkFuel` shows the bound is only a bound).
- CitationRewrite.CompactListRewrite: the rewrite is characterised for lists whose items hold no comma, bracket or space, with the same separator throughout; other texts the regex accepts are rewritten by the same `CompactRewrite` but not characterised.
- The rest of `toTEIHeader` is left out (string templating, timestamps, random ids); only the date line is modelled. Its fallback on a textual year (`TEIFormatter.java:228` onward) is left out too.
- Figure and table rendering (`toTEI`), the note, acknowledgement and annex outputs, and the element attributes of XOM are left out; the division and paragraph children are modelled as values.
- The `data_from_xmls` alignment loop, `list_of_begins` and the float-valued line similarity are left out; `clever_append`, `find_end` and the line passes are modelled on the values those would pass in.
- TheoremHeadings.NotInPlace: requires an index within the list; the only caller passes an index found by `list.index`.
- TrainingData.AddTrainingVector: requires the line index to lie within both the lines and the rows, as the source indexes both.
- TrainingData.FillEmptyVectors: requires as many lines as rows, since the source reads the line of every untyped row.
- TrainingData.FillEmptyVectors: `lineToVector` is a total function, but `line_to_vector` raises on a line without words: `average_word_length` divides by the word count (`generate_training_data.py:144`) and `is_heading_first_word` reads `line[0]`. On a wordless untyped row the source fails where the model fills the row and gives it a type. The same holds for `TrainingData.AddTrainingVector`.
- MarkerNodes.FirstMatchingId: a catalog entry's id is never null here; in the source a matching figure, table or equation with a null `getId()` still ends the loop and leaves the `ref` without a target (`TEIFormatter.java:1711`).
- MarkerNodes.CitationRefs: a matcher result whose bibliography entry has a null `getResBib()` throws a `NullPointerException` in the source (`TEIFormatter.java:1682`); the model takes the ordinal as given.
- The per-cluster inputs of the marker functions are given with the cluster: the raw text of its tokens, its coordinates string and the results the document's `ReferenceMarkerMatcher` returns for its tokens. The `IllegalStateException` for an unsupported marker label cannot arise, since the four marker labels are exactly the dispatched ones.
- The rows of a training table are values in an array; the Python list of lists is built with `[[None]*n]*fn`, which aliases the placeholder rows, but every placeholder row is replaced by a new list before it is changed, so the aliasing does not affect any result.

## Findings

| source | as written | input that shows it | evidently intended | confidence | as-written member | corrected member |
|---|---|---|---|---|---|---|
| grobid-0.5.1/grobid-core/src/main/java/org/grobid/core/document/TEIFormatter.java:1363 | `for (int j = firstIndex; j <= secondIndex; j++)` with 32-bit `int`: when `secondIndex` is `Integer.MAX_VALUE`, `j <= secondIndex` always holds and `j++` wraps around | the marker `[2147483640-2147483647]` passes the width cap (7 <= 10) and its loop never ends | the range is expanded to its 8 numbers and the loop ends | not executed | CitationRewrite.Int32LoopNeverExitsAtMax | CitationRewrite.RangeExpansionReadBack |
