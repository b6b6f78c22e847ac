/** markReferencesTEI: the legacy heuristic that turns a citation marker
    of the body text into `ref` elements. After the compact-list and
    range rewrites, every bibliography entry is tried in order: its own
    reference marker is wrapped where it occurs, then its first author
    and year are looked for; the first author-year match splits the text
    into the part before it, the reference itself and the part after it,
    and the two outer parts are marked again. A marker nothing matched is
    wrapped as a whole in a `ref` without target. */
module CitationMarkers {
  import opened Strings
  import opened CitationRewrite
  import opened MarkerNodes

  /** The parts of a parsed bibliography entry the heuristic reads: the
      first author's surname, the year of the normalised publication date
      (`None` when there is no normalised date; -1 when its year is
      unknown), the raw publication date, and the last names of the full
      author list (`None` where Java has null). */
  datatype BiblioItem = BiblioItem(
    firstAuthorSurname: Option<string>,
    normalizedYear: Option<int>,
    publicationDate: Option<string>,
    fullAuthors: Option<seq<Option<string>>>)

  /** A bibliography entry: the marker it is labelled with in the
      bibliography section and its parsed form. */
  datatype BibDataSet = BibDataSet(refSymbol: Option<string>, resBib: Option<BiblioItem>)

  /** What every call sees: the list of bibliography entries (`None` for
      null), the coordinates of the marker's tokens when they are
      generated, and the HTML encoder of the text utilities. */
  datatype Env = Env(bds: Option<seq<BibDataSet>>, coordsString: Option<string>, htmlEncode: string -> string)

  /** The `coords` attribute put into the tags, or nothing. */
  function Coords(env: Env): string
  {
    if env.coordsString.None? then "" else "coords=\"" + env.coordsString.value + "\""
  }

  /** The list size the range pass reads, `None` when the list is null. */
  function BibCount(env: Env): Option<nat>
  {
    if env.bds.None? then None else Some(|env.bds.value|)
  }

  // ---------------------------------------------------------------------
  // The reference marker of an entry

  /** Regex `numberRef`, `(\[|\()\d+\w?(\)|\])`, matching at `k`. */
  predicate NumberRefAt(s: string, k: nat)
    requires k < |s|
  {
    var d := DigitRun(s, k + 1);
    IsOpen(s[k]) && d > k + 1
    && ((d < |s| && IsClose(s[d])) || (d + 1 < |s| && IsWordChar(s[d]) && IsClose(s[d + 1])))
  }

  /** `Matcher.find` for `numberRef`: a match starts at `k` or later. */
  predicate HasNumberRefFrom(s: string, k: nat)
    requires k <= |s|
    decreases |s| - k
  {
    k < |s| && (NumberRefAt(s, k) || HasNumberRefFrom(s, k + 1))
  }

  /** The scan finds a match exactly when one exists. */
  lemma {:induction false} HasNumberRefExists(s: string, k: nat)
    requires k <= |s|
    ensures HasNumberRefFrom(s, k) <==> exists j :: k <= j < |s| && NumberRefAt(s, j)
    decreases |s| - k
  {
    if k < |s| {
      HasNumberRefExists(s, k + 1);
      if HasNumberRefFrom(s, k + 1) {
        var j :| k + 1 <= j < |s| && NumberRefAt(s, j);
        assert k <= j;
      }
    }
  }

  /** The opening tag of a reference to entry `p`. */
  function OpenRefTag(p: nat, coords: string): string
  {
    "<ref type=\"bibr\" target=\"#b" + NatToString(p) + "\" " + coords + ">"
  }

  /** Where the entry's marker is wrapped: the marker itself when it holds
      a bracketed number, else the marker in square brackets when that
      does; the first occurrence in the text. */
  function SymbolAt(text: string, marker: string): (r: Option<(nat, string)>)
    ensures r.Some? ==> var (ind, m) := r.value;
              OccursAt(text, m, ind) && (forall j :: 0 <= j < ind ==> !OccursAt(text, m, j))
              && HasNumberRefFrom(m, 0)
              && (m == marker || m == "[" + marker + "]")
    ensures r.None? && HasNumberRefFrom(marker, 0) ==> !Contains(text, marker)
  {
    if HasNumberRefFrom(marker, 0) then
      var ind := IndexOf(text, marker, 0);
      if ind == -1 then None else Some((ind, marker))
    else if HasNumberRefFrom("[" + marker + "]", 0) then
      var ind := IndexOf(text, "[" + marker + "]", 0);
      if ind == -1 then None else Some((ind, "[" + marker + "]"))
    else None
  }

  /** The text with the entry's marker wrapped in a reference to entry `p`. */
  function MarkSymbol(text: string, marker: Option<string>, p: nat, coords: string): string
  {
    if marker.None? then text
    else match SymbolAt(text, marker.value)
      case None => text
      case Some((ind, m)) =>
        text[..ind] + OpenRefTag(p, coords) + m + "</ref>" + text[ind + |m|..]
  }

  /** Wrapping the marker changes nothing else: the text is the part
      before the marker, the marker and the part after it, and the result
      puts the tags around the marker and nowhere else. */
  lemma MarkSymbolInPlace(text: string, marker: Option<string>, p: nat, coords: string)
    ensures var r := MarkSymbol(text, marker, p, coords);
            r == text
            || (marker.Some? && SymbolAt(text, marker.value).Some? &&
                var (ind, m) := SymbolAt(text, marker.value).value;
                text == text[..ind] + m + text[ind + |m|..]
                && r == text[..ind] + OpenRefTag(p, coords) + m + "</ref>" + text[ind + |m|..])
  {
    if marker.Some? && SymbolAt(text, marker.value).Some? {
      var (ind, m) := SymbolAt(text, marker.value).value;
      assert text[ind..ind + |m|] == m;
      assert text == text[..ind] + text[ind..ind + |m|] + text[ind + |m|..];
    }
  }

  // ---------------------------------------------------------------------
  // First author and year

  /** The lower-cased first author surname. */
  function Author1(b: BiblioItem): Option<string>
  {
    if b.firstAuthorSurname.None? then None else Some(Lower(b.firstAuthorSurname.value))
  }

  /** The lower-cased last name of the second author of a two-author entry. */
  function Author2(b: BiblioItem): Option<string>
  {
    if b.fullAuthors.Some? && |b.fullAuthors.value| == 2 && b.fullAuthors.value[1].Some? then
      Some(Lower(b.fullAuthors.value[1].value))
    else None
  }

  /** The year as Java prints it, when the normalised date has one. */
  function YearText(b: BiblioItem): (r: Option<string>)
    ensures r.Some? ==> r.value != []
  {
    if b.normalizedYear.Some? && b.normalizedYear.value != -1 then Some(IntToString(b.normalizedYear.value)) else None
  }

  /** The character at `k`, or the null character past the end. */
  function ExtendChar(s: string, k: int): char
  {
    if 0 <= k < |s| then s[k] else NoChar
  }

  /** The letter that follows the year in the raw publication date (as in
      `2010b`), or the null character. */
  function Extend1(b: BiblioItem): char
  {
    if b.publicationDate.Some? && YearText(b).Some? then
      var dat, year := b.publicationDate.value, YearText(b).value;
      var ind := IndexOf(dat, year, 0);
      if ind != -1 then ExtendChar(dat, ind + |year|) else NoChar
    else NoChar
  }

  /** An author-year match: where the first author's name starts and where
      the year starts. */
  datatype Hit = Hit(start: nat, yearAt: nat)

  /** The letters after the years agree, or one of them is missing. */
  predicate LettersAgree(extend1: char, extend2: char)
  {
    !(extend1 != NoChar && extend2 != NoChar && extend1 != extend2)
  }

  /** What the loop does once it has the author at `indi1` and the year at
      `indi2` in the right order: a match when the letters after the
      years agree and the author does not occur again after `indi1`. */
  function HitAt(low: string, author1: string, indi1: nat, indi2: nat, extend1: char, extend2: char): Option<Hit>
  {
    if !LettersAgree(extend1, extend2) then None
    else if IndexOf(low, author1, indi1 + |author1|) == -1 then Some(Hit(indi1, indi2))
    else None
  }

  /** How one turn of the author-year loop ends: with the loop's outcome,
      or with the position the next turn searches from. */
  datatype Turn = Done(hit: Option<Hit>) | Continue(next: nat)

  /** One turn of the author-year loop at position `i`. The two-author
      branch and the one-author branch are kept as written: the first
      one's guard implies the second's and both run the same body. */
  function AuthorYearTurn(text: string, author1: string, author2: Option<string>, year: string, extend1: char, i: nat): (r: Turn)
    requires year != []
    ensures r.Continue? ==> i < r.next
  {
    var low := Lower(text);
    var indi1 := IndexOf(low, author1, i);
    var indi2 := IndexOf(text, year, i);
    var indi3 := if author2.Some? then IndexOf(low, author2.value, i) else -1;
    var extend2 := if indi2 != -1 then ExtendChar(text, indi2 + |year|) else NoChar;
    if indi1 == -1 || indi2 == -1 then Done(None)
    else if indi3 != -1 && indi1 < indi2 && indi1 < indi3 && indi2 - indi1 > |author1| then
      Done(HitAt(low, author1, indi1, indi2, extend1, extend2))
    else if indi1 < indi2 && indi2 - indi1 > |author1| then
      Done(HitAt(low, author1, indi1, indi2, extend1, extend2))
    else Continue(indi2 + |year| + 1)
  }

  /** The author-year loop from position `i` on: it ends when a turn
      stops it or when the next position is past the text. */
  function AuthorYearFrom(text: string, author1: string, author2: Option<string>, year: string, extend1: char, i: nat): Option<Hit>
    requires year != []
    decreases |text| - i
  {
    match AuthorYearTurn(text, author1, author2, year, extend1, i)
    case Done(h) => h
    case Continue(next) => if next >= |text| then None else AuthorYearFrom(text, author1, author2, year, extend1, next)
  }

  /** The author-year match of an entry, when it has a first author and a year. */
  function AuthorYearHit(text: string, b: BiblioItem): Option<Hit>
  {
    if Author1(b).None? || YearText(b).None? then None
    else AuthorYearFrom(text, Author1(b).value, Author2(b), YearText(b).value, Extend1(b), 0)
  }

  /** What a match found by one turn satisfies: the author comes first,
      with room between it and the year, the author does not occur again
      after it, and the letters after the two years agree. */
  predicate SoundHit(text: string, author1: string, year: string, extend1: char, i: nat, h: Hit)
  {
    i <= h.start < h.yearAt && h.yearAt - h.start > |author1|
    && OccursAt(Lower(text), author1, h.start) && OccursAt(text, year, h.yearAt)
    && (forall j :: h.start + |author1| <= j <= |text| ==> !OccursAt(Lower(text), author1, j))
    && LettersAgree(extend1, ExtendChar(text, h.yearAt + |year|))
  }

  lemma TurnSound(text: string, author1: string, author2: Option<string>, year: string, extend1: char, i: nat)
    requires year != []
    requires AuthorYearTurn(text, author1, author2, year, extend1, i).Done?
    requires AuthorYearTurn(text, author1, author2, year, extend1, i).hit.Some?
    ensures SoundHit(text, author1, year, extend1, i, AuthorYearTurn(text, author1, author2, year, extend1, i).hit.value)
  {
  }

  /** Every match the loop reports is sound. */
  lemma {:induction false} AuthorYearSound(text: string, author1: string, author2: Option<string>, year: string, extend1: char, i: nat)
    requires year != []
    ensures AuthorYearFrom(text, author1, author2, year, extend1, i).Some? ==>
              SoundHit(text, author1, year, extend1, i, AuthorYearFrom(text, author1, author2, year, extend1, i).value)
    decreases |text| - i
  {
    AuthorYearUnfold(text, author1, author2, year, extend1, i);
    var t := AuthorYearTurn(text, author1, author2, year, extend1, i);
    hide AuthorYearTurn, AuthorYearFrom, SoundHit;
    if t.Done? {
      if t.hit.Some? {
        TurnSound(text, author1, author2, year, extend1, i);
      }
    } else if t.next < |text| {
      AuthorYearSound(text, author1, author2, year, extend1, t.next);
      var r := AuthorYearFrom(text, author1, author2, year, extend1, t.next);
      if r.Some? {
        SoundHitFrom(text, author1, year, extend1, i, t.next, r.value);
      }
    }
  }

  /** A match sound from some position is sound from any earlier one. */
  lemma SoundHitFrom(text: string, author1: string, year: string, extend1: char, i: nat, i': nat, h: Hit)
    requires i <= i' && SoundHit(text, author1, year, extend1, i', h)
    ensures SoundHit(text, author1, year, extend1, i, h)
  {
  }

  /** The second author never changes the outcome of a turn. */
  lemma TurnIgnoresSecondAuthor(text: string, author1: string, author2: Option<string>, year: string, extend1: char, i: nat)
    requires year != []
    ensures AuthorYearTurn(text, author1, author2, year, extend1, i) == AuthorYearTurn(text, author1, None, year, extend1, i)
  {
  }

  /** The second author never changes the outcome of the loop. */
  lemma {:induction false} SecondAuthorIrrelevant(text: string, author1: string, author2: Option<string>, year: string, extend1: char, i: nat)
    requires year != []
    ensures AuthorYearFrom(text, author1, author2, year, extend1, i) == AuthorYearFrom(text, author1, None, year, extend1, i)
    decreases |text| - i
  {
    TurnIgnoresSecondAuthor(text, author1, author2, year, extend1, i);
    var t := AuthorYearTurn(text, author1, author2, year, extend1, i);
    hide AuthorYearTurn;
    if t.Continue? && t.next < |text| {
      SecondAuthorIrrelevant(text, author1, author2, year, extend1, t.next);
    }
  }

  /** The loop's outcome after one turn. */
  lemma AuthorYearUnfold(text: string, author1: string, author2: Option<string>, year: string, extend1: char, i: nat)
    requires year != []
    ensures var t := AuthorYearTurn(text, author1, author2, year, extend1, i);
            AuthorYearFrom(text, author1, author2, year, extend1, i)
            == if t.Done? then t.hit
               else if t.next >= |text| then None
               else AuthorYearFrom(text, author1, author2, year, extend1, t.next)
  {
    hide AuthorYearTurn;
  }

  /** One turn, in terms of the three searches it makes. */
  lemma TurnAt(text: string, author1: string, author2: Option<string>, year: string, extend1: char, i: nat, indi1: int, indi2: int, indi3: int)
    requires year != []
    requires indi1 == IndexOf(Lower(text), author1, i) && indi2 == IndexOf(text, year, i)
    requires indi3 == if author2.Some? then IndexOf(Lower(text), author2.value, i) else -1
    ensures AuthorYearTurn(text, author1, author2, year, extend1, i)
            == if indi1 == -1 || indi2 == -1 then Done(None)
               else if (indi3 != -1 && indi1 < indi2 && indi1 < indi3 && indi2 - indi1 > |author1|)
                       || (indi1 < indi2 && indi2 - indi1 > |author1|) then
                 Done(HitAt(Lower(text), author1, indi1, indi2, extend1, ExtendChar(text, indi2 + |year|)))
               else Continue(indi2 + |year| + 1)
  {
  }

  /** The author-year `while (!end)` loop. */
  method SearchAuthorYear(text: string, author1: string, author2: Option<string>, year: string, extend1: char)
    returns (hit: Option<Hit>)
    requires year != []
    ensures hit == AuthorYearFrom(text, author1, author2, year, extend1, 0)
  {
    hide AuthorYearFrom, AuthorYearTurn, IndexOf, Lower, HitAt;
    var low := Lower(text);
    var i := 0;
    var end := false;
    hit := None;
    while !end
      invariant !end ==> AuthorYearFrom(text, author1, author2, year, extend1, 0) == AuthorYearFrom(text, author1, author2, year, extend1, i)
      invariant !end ==> hit == None
      invariant end ==> AuthorYearFrom(text, author1, author2, year, extend1, 0) == hit
      decreases if end then 0 else 1, |text| - i
    {
      AuthorYearUnfold(text, author1, author2, year, extend1, i);
      var indi1 := IndexOf(low, author1, i);
      var indi2 := IndexOf(text, year, i);
      var indi3 := -1;
      if author2.Some? {
        indi3 := IndexOf(low, author2.value, i);
      }
      var extend2 := NoChar;
      if indi2 != -1 && |text| > indi2 + |year| {
        extend2 := text[indi2 + |year|];
      }
      TurnAt(text, author1, author2, year, extend1, i, indi1, indi2, indi3);
      if indi1 == -1 || indi2 == -1 {
        end := true;
      } else if (indi3 != -1 && indi1 < indi2 && indi1 < indi3 && indi2 - indi1 > |author1|)
                || (indi1 < indi2 && indi2 - indi1 > |author1|) {
        hit := HitAt(low, author1, indi1, indi2, extend1, extend2);
        end := true;
      } else {
        i := indi2 + |year| + 1;
        if i >= |text| {
          end := true;
        }
      }
    }
  }

  // ---------------------------------------------------------------------
  // The whole heuristic

  /** The fall-through: a marker no entry matched is wrapped, unless it
      already starts or ends a `ref`. */
  function Wrap(text: string): (r: string)
    ensures StartsWith(r, "<ref") || EndsWith(r, "</ref>")
  {
    if !EndsWith(text, "</ref>") && !StartsWith(text, "<ref") then
      var r := "<ref type=\"bibr\">" + text + "</ref>";
      assert r[..4] == "<ref";
      r
    else text
  }

  /** The compact-list and range passes, run when the text has a
      bracketed segment. */
  function Rewrites(t: string, bibCount: Option<nat>): Result<string>
  {
    if BracketReferenceSegment(t).None? then Ok(t) else RangesFrom(CompactFrom(t, 0), 0, bibCount)
  }

  /** markReferencesTEI on a non-null marker. The recursion on the parts
      around a match is bounded by `fuel`: those parts are cut from the
      encoded and expanded text, which can be longer than the input. */
  function Mark(text: string, env: Env, fuel: nat): Result<string>
    decreases fuel, 3, 0
  {
    if PassesThrough(text) then Ok(text)
    else match Rewrites(env.htmlEncode(text), BibCount(env))
      case Err(f) => Err(f)
      case Ok(t) => Bibs(t, env, 0, fuel)
  }

  /** The loop over the bibliography entries from entry `p` on. */
  function Bibs(text: string, env: Env, p: nat, fuel: nat): Result<string>
    decreases fuel, 2, if env.bds.None? || p >= |env.bds.value| then 0 else |env.bds.value| - p
  {
    if env.bds.None? || p >= |env.bds.value| then Ok(Wrap(text))
    else
      var bib := env.bds.value[p];
      if bib.resBib.None? then Bibs(text, env, p + 1, fuel)
      else
        var t := MarkSymbol(text, EncodedSymbol(bib, env), p, Coords(env));
        match AuthorYearHit(t, bib.resBib.value)
        case None => Bibs(t, env, p + 1, fuel)
        case Some(h) => SplitAtHit(t, h, |YearText(bib.resBib.value).value|, Extend1(bib.resBib.value), p, env, fuel)
  }

  /** The entry's marker passed through the HTML encoder. */
  function EncodedSymbol(bib: BibDataSet, env: Env): Option<string>
  {
    if bib.refSymbol.None? then None else Some(env.htmlEncode(bib.refSymbol.value))
  }

  /** Where the reference found by an author-year match ends: four
      characters after the year starts, one more when a closing bracket
      or the year's letter follows. */
  function ReferenceEnd(text: string, h: Hit, yearLen: nat, extend1: char): nat
    requires h.yearAt + 4 <= |text|
  {
    var extend2 := ExtendChar(text, h.yearAt + yearLen);
    if |text| > h.yearAt + 4
       && (text[h.yearAt + 4] == ')' || text[h.yearAt + 4] == ']'
           || (extend1 != NoChar && extend2 != NoChar && extend1 == extend2))
    then h.yearAt + 5 else h.yearAt + 4
  }

  /** The split at an author-year match: the part before, the reference
      wrapped in a `ref` to entry `p`, and the part after, where parts of
      more than two characters are marked again. */
  function SplitAtHit(text: string, h: Hit, yearLen: nat, extend1: char, p: nat, env: Env, fuel: nat): Result<string>
    decreases fuel, 1, 0
  {
    if h.yearAt + 4 > |text| || h.start > h.yearAt + 4 then Err(IndexOutOfBounds)
    else
      var cut := ReferenceEnd(text, h, yearLen, extend1);
      var ref := OpenRefTag(p, Coords(env)) + text[h.start..cut] + "</ref>";
      match MarkPiece(text[..h.start], env, fuel)
      case Err(f) => Err(f)
      case Ok(before) =>
        match MarkPiece(text[cut..], env, fuel)
        case Err(f) => Err(f)
        case Ok(after) => Ok(before + ref + after)
  }

  /** A part around a match: marked again when longer than two characters. */
  function MarkPiece(piece: string, env: Env, fuel: nat): Result<string>
    decreases fuel, 0, 0
  {
    if |piece| <= 2 then Ok(piece)
    else if fuel == 0 then Err(OutOfFuel)
    else Mark(piece, env, fuel - 1)
  }

  /** markReferencesTEI, where a null marker gives null. */
  function MarkReferences(text: Option<string>, env: Env, fuel: nat): Result<Option<string>>
  {
    if text.None? then Ok(None)
    else match Mark(text.value, env, fuel)
      case Err(f) => Err(f)
      case Ok(r) => Ok(Some(r))
  }
  // ---------------------------------------------------------------------
  // What the heuristic guarantees

  /** Every tag the heuristic writes starts like this. */
  const RefTag: string := "<ref type=\"bibr\""

  /** A marked text: it starts or ends a `ref`, or holds a reference tag. */
  predicate Tagged(r: string)
  {
    StartsWith(r, "<ref") || EndsWith(r, "</ref>") || Contains(r, RefTag)
  }

  lemma ContainsInside(a: string, b: string, c: string, pat: string)
    requires StartsWith(b, pat)
    ensures Contains(a + b + c, pat)
  {
    assert (a + b + c)[|a|..|a| + |pat|] == b[..|pat|];
    assert OccursAt(a + b + c, pat, |a|);
  }

  /** Wrapping twice is wrapping once. */
  lemma WrapIdempotent(text: string)
    ensures Wrap(Wrap(text)) == Wrap(text)
  {
  }

  /** An author-year match yields the reference to entry `p`, holding the
      text from the author's name on, between the marked parts around it. */
  lemma SplitTagged(text: string, h: Hit, yearLen: nat, extend1: char, p: nat, env: Env, fuel: nat)
    ensures var r := SplitAtHit(text, h, yearLen, extend1, p, env, fuel);
            r.Ok? ==>
              h.yearAt + 4 <= |text| && h.start <= h.yearAt + 4
              && Contains(r.value, OpenRefTag(p, Coords(env)) + text[h.start..ReferenceEnd(text, h, yearLen, extend1)] + "</ref>")
              && Contains(r.value, RefTag)
  {
    hide MarkPiece, Mark, Contains;
    var r := SplitAtHit(text, h, yearLen, extend1, p, env, fuel);
    if r.Ok? {
      var cut := ReferenceEnd(text, h, yearLen, extend1);
      var ref := OpenRefTag(p, Coords(env)) + text[h.start..cut] + "</ref>";
      var before := MarkPiece(text[..h.start], env, fuel).value;
      var after := MarkPiece(text[cut..], env, fuel).value;
      assert r.value == before + ref + after;
      assert OpenRefTag(p, Coords(env))[..|RefTag|] == RefTag;
      RefInside(before, OpenRefTag(p, Coords(env)), text[h.start..cut], after);
    }
  }

  /** A reference between two texts is found there, and so is its tag. */
  lemma RefInside(before: string, open: string, mid: string, after: string)
    requires StartsWith(open, RefTag)
    ensures Contains(before + (open + mid + "</ref>") + after, open + mid + "</ref>")
    ensures Contains(before + (open + mid + "</ref>") + after, RefTag)
  {
    var ref := open + mid + "</ref>";
    ContainsInside(before, ref, after, ref);
    assert ref[..|RefTag|] == open[..|RefTag|];
    ContainsInside(before, ref, after, RefTag);
  }

  /** The loop over the entries ends in a marked text. */
  lemma {:induction false} BibsTagged(text: string, env: Env, p: nat, fuel: nat)
    ensures Bibs(text, env, p, fuel).Ok? ==> Tagged(Bibs(text, env, p, fuel).value)
    decreases if env.bds.None? || p >= |env.bds.value| then 0 else |env.bds.value| - p
  {
    if env.bds.Some? && p < |env.bds.value| {
      BibsEntry(text, env, p, fuel);
      hide Bibs, SplitAtHit, MarkSymbol, AuthorYearHit;
      var bib := env.bds.value[p];
      if bib.resBib.None? {
        BibsTagged(text, env, p + 1, fuel);
      } else {
        var t := MarkSymbol(text, EncodedSymbol(bib, env), p, Coords(env));
        match AuthorYearHit(t, bib.resBib.value)
        case None =>
          BibsTagged(t, env, p + 1, fuel);
        case Some(h) =>
          SplitTagged(t, h, |YearText(bib.resBib.value).value|, Extend1(bib.resBib.value), p, env, fuel);
      }
    }
  }

  /** A blank or already wrapped marker comes back as it is; any other
      marker the heuristic accepts comes back marked. */
  lemma MarkTagged(text: string, env: Env, fuel: nat)
    ensures PassesThrough(text) ==> Mark(text, env, fuel) == Ok(text)
    ensures !PassesThrough(text) && Mark(text, env, fuel).Ok? ==> Tagged(Mark(text, env, fuel).value)
  {
    if !PassesThrough(text) {
      match Rewrites(env.htmlEncode(text), BibCount(env))
      case Err(_) =>
      case Ok(t) => BibsTagged(t, env, 0, fuel);
    }
  }

  /** The fuel only bounds the recursion: a result that did not run out
      of fuel stays the same with more fuel. */
  lemma {:induction false} MarkFuel(text: string, env: Env, fuel: nat)
    ensures Mark(text, env, fuel) != Err(OutOfFuel) ==> Mark(text, env, fuel + 1) == Mark(text, env, fuel)
    decreases fuel, 3, 0
  {
    if !PassesThrough(text) {
      match Rewrites(env.htmlEncode(text), BibCount(env))
      case Err(_) =>
      case Ok(t) => BibsFuel(t, env, 0, fuel);
    }
  }

  lemma {:induction false} BibsFuel(text: string, env: Env, p: nat, fuel: nat)
    ensures Bibs(text, env, p, fuel) != Err(OutOfFuel) ==> Bibs(text, env, p, fuel + 1) == Bibs(text, env, p, fuel)
    decreases fuel, 2, if env.bds.None? || p >= |env.bds.value| then 0 else |env.bds.value| - p
  {
    if env.bds.Some? && p < |env.bds.value| {
      BibsEntry(text, env, p, fuel);
      BibsEntry(text, env, p, fuel + 1);
      hide Bibs, SplitAtHit, MarkSymbol, AuthorYearHit;
      var bib := env.bds.value[p];
      if bib.resBib.None? {
        BibsFuel(text, env, p + 1, fuel);
      } else {
        var t := MarkSymbol(text, EncodedSymbol(bib, env), p, Coords(env));
        match AuthorYearHit(t, bib.resBib.value)
        case None =>
          BibsFuel(t, env, p + 1, fuel);
        case Some(h) =>
          SplitFuel(t, h, |YearText(bib.resBib.value).value|, Extend1(bib.resBib.value), p, env, fuel);
      }
    }
  }

  lemma {:induction false} SplitFuel(text: string, h: Hit, yearLen: nat, extend1: char, p: nat, env: Env, fuel: nat)
    ensures SplitAtHit(text, h, yearLen, extend1, p, env, fuel) != Err(OutOfFuel) ==>
              SplitAtHit(text, h, yearLen, extend1, p, env, fuel + 1) == SplitAtHit(text, h, yearLen, extend1, p, env, fuel)
    decreases fuel, 1, 0
  {
    if h.yearAt + 4 <= |text| && h.start <= h.yearAt + 4 {
      hide MarkPiece;
      var cut := ReferenceEnd(text, h, yearLen, extend1);
      PieceFuel(text[..h.start], env, fuel);
      PieceFuel(text[cut..], env, fuel);
    }
  }

  lemma {:induction false} PieceFuel(piece: string, env: Env, fuel: nat)
    ensures MarkPiece(piece, env, fuel) != Err(OutOfFuel) ==> MarkPiece(piece, env, fuel + 1) == MarkPiece(piece, env, fuel)
    decreases fuel, 0, 0
  {
    hide Mark;
    if |piece| > 2 && fuel > 0 {
      MarkFuel(piece, env, fuel - 1);
    }
  }

  // ---------------------------------------------------------------------
  // The method

  /** The compact-list and range passes as the method runs them. */
  method RunRewrites(t: string, bibCount: Option<nat>) returns (r: Result<string>)
    ensures r == Rewrites(t, bibCount)
  {
    if BracketReferenceSegment(t).None? {
      return Ok(t);
    }
    var compact := RewriteCompactLists(t);
    r := ExpandRanges(compact, bibCount);
  }

  /** One entry of the loop over the bibliography. */
  lemma BibsEntry(text: string, env: Env, p: nat, fuel: nat)
    requires env.bds.Some? && p < |env.bds.value|
    ensures var bib := env.bds.value[p];
            Bibs(text, env, p, fuel)
            == if bib.resBib.None? then Bibs(text, env, p + 1, fuel)
               else
                 var t := MarkSymbol(text, EncodedSymbol(bib, env), p, Coords(env));
                 match AuthorYearHit(t, bib.resBib.value)
                 case None => Bibs(t, env, p + 1, fuel)
                 case Some(h) => SplitAtHit(t, h, |YearText(bib.resBib.value).value|, Extend1(bib.resBib.value), p, env, fuel)
  {
    hide MarkSymbol, AuthorYearHit, SplitAtHit;
  }

  /** The author-year search of an entry, as the loop body runs it. */
  method SearchEntry(text: string, b: BiblioItem) returns (hit: Option<Hit>)
    ensures hit == AuthorYearHit(text, b)
  {
    var author1 := Author1(b);
    var year := YearText(b);
    if author1.None? || year.None? {
      return None;
    }
    hit := SearchAuthorYear(text, author1.value, Author2(b), year.value, Extend1(b));
  }

  /** markReferencesTEI on a non-null marker. */
  method MarkText(text: string, env: Env, fuel: nat) returns (r: Result<string>)
    ensures r == Mark(text, env, fuel)
    decreases fuel, 2
  {
    if IsBlank(text) || EndsWith(text, "</ref>") || StartsWith(text, "<ref") {
      return Ok(text);
    }
    var t := env.htmlEncode(text);
    var rewritten := RunRewrites(t, BibCount(env));
    if rewritten.Err? {
      return Err(rewritten.failure);
    }
    t := rewritten.value;
    if env.bds.Some? && |env.bds.value| > 0 {
      hide Bibs;
      var bds := env.bds.value;
      var p := 0;
      while p < |bds|
        invariant p <= |bds|
        invariant Mark(text, env, fuel) == Bibs(t, env, p, fuel)
      {
        BibsEntry(t, env, p, fuel);
        var bib := bds[p];
        if bib.resBib.Some? {
          var res := bib.resBib.value;
          t := MarkSymbol(t, EncodedSymbol(bib, env), p, Coords(env));
          var hit := SearchEntry(t, res);
          if hit.Some? {
            r := SplitReference(t, hit.value, |YearText(res).value|, Extend1(res), p, env, fuel);
            return;
          }
        }
        p := p + 1;
      }
    }
    r := Ok(Wrap(t));
  }

  /** The split at an author-year match, marking the outer parts again. */
  method SplitReference(text: string, h: Hit, yearLen: nat, extend1: char, p: nat, env: Env, fuel: nat) returns (r: Result<string>)
    ensures r == SplitAtHit(text, h, yearLen, extend1, p, env, fuel)
    decreases fuel, 1
  {
    hide MarkPiece;
    if h.yearAt + 4 > |text| || h.start > h.yearAt + 4 {
      return Err(IndexOutOfBounds);
    }
    var cut := ReferenceEnd(text, h, yearLen, extend1);
    var ref := OpenRefTag(p, Coords(env)) + text[h.start..cut] + "</ref>";
    var before := MarkPart(text[..h.start], env, fuel);
    if before.Err? {
      return Err(before.failure);
    }
    var after := MarkPart(text[cut..], env, fuel);
    if after.Err? {
      return Err(after.failure);
    }
    r := Ok(before.value + ref + after.value);
  }

  /** A part around a match, marked again when longer than two characters. */
  method MarkPart(piece: string, env: Env, fuel: nat) returns (r: Result<string>)
    ensures r == MarkPiece(piece, env, fuel)
    decreases fuel, 0
  {
    if |piece| <= 2 {
      return Ok(piece);
    }
    if fuel == 0 {
      return Err(OutOfFuel);
    }
    r := MarkText(piece, env, fuel - 1);
  }

  /** markReferencesTEI: a null marker gives null. */
  method MarkReferencesTEI(text: Option<string>, env: Env, fuel: nat) returns (r: Result<Option<string>>)
    ensures r == MarkReferences(text, env, fuel)
  {
    if text.None? {
      return Ok(None);
    }
    var marked := MarkText(text.value, env, fuel);
    if marked.Err? {
      return Err(marked.failure);
    }
    r := Ok(Some(marked.value));
  }
}
