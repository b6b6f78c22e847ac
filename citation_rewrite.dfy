/** The two rewriting passes that `markReferencesTEI` runs over a
    numerical citation marker before it looks for bibliography entries:
    compact lists such as `[1, 2]` become `[1] [2]`, and ranges such as
    `[3-5]` become `[3] [4] [5]`. Both passes are `Matcher.find` loops
    that copy the text between matches and append a replacement for each
    match (`appendReplacement`, then `appendTail`). */
module CitationRewrite {
  import opened Strings

  /** What `markReferencesTEI` can end in besides a string: the
      `GrobidException` thrown from the range pass, an index exception
      thrown by `substring`, or the recursion running out of fuel. */
  datatype Failure = GrobidException | IndexOutOfBounds | OutOfFuel

  datatype Result<T> = Ok(value: T) | Err(failure: Failure)

  predicate IsOpen(c: char) { c == '(' || c == '[' }

  predicate IsClose(c: char) { c == ')' || c == ']' }

  // ---------------------------------------------------------------------
  // bracketReferenceSegment

  /** The opening bracket the segment starts with: `(` when the text has
      one, else `[`. */
  function OpenChar(text: string): char
  {
    if '(' in text then '(' else '['
  }

  /** The closing bracket the segment ends with: `)` when the text has
      one, else `]`. */
  function CloseChar(text: string): char
  {
    if ')' in text then ')' else ']'
  }

  /** Where the segment starts: `indexOf("(")`, else `indexOf("[")`. */
  function FirstOpen(text: string): (i: int)
    ensures -1 <= i < |text|
    ensures i != -1 ==> text[i] == OpenChar(text) && forall k :: 0 <= k < i ==> text[k] != OpenChar(text)
    ensures i == -1 ==> forall k :: 0 <= k < |text| ==> text[k] != OpenChar(text)
  {
    IndexOfCharFirst(text, '(');
    IndexOfCharFirst(text, '[');
    if IndexOf(text, ['('], 0) == -1 then IndexOf(text, ['['], 0) else IndexOf(text, ['('], 0)
  }

  /** Where the segment ends: `lastIndexOf(")")`, else `lastIndexOf("]")`. */
  function LastClose(text: string): (j: int)
    ensures -1 <= j < |text|
    ensures j != -1 ==> text[j] == CloseChar(text) && forall k :: j < k < |text| ==> text[k] != CloseChar(text)
    ensures j == -1 ==> forall k :: 0 <= k < |text| ==> text[k] != CloseChar(text)
  {
    if LastIndexOf(text, ')') == -1 then LastIndexOf(text, ']') else LastIndexOf(text, ')')
  }

  /** bracketReferenceSegment: the part of the marker from the first
      opening bracket to the last closing bracket, both included; `None`
      (Java's null) unless that opening bracket comes before that closing one. */
  function BracketReferenceSegment(text: string): (r: Option<string>)
    ensures r.Some? <==>
              exists i, j :: 0 <= i < j < |text| && text[i] == OpenChar(text) && text[j] == CloseChar(text)
    ensures r.Some? ==>
              exists i, j :: 0 <= i < j < |text| && r.value == text[i..j + 1]
                             && text[i] == OpenChar(text) && text[j] == CloseChar(text)
                             && (forall k :: 0 <= k < i ==> text[k] != OpenChar(text))
                             && (forall k :: j < k < |text| ==> text[k] != CloseChar(text))
  {
    var ind1 := FirstOpen(text);
    var ind2 := LastClose(text);
    if ind1 != -1 && ind2 != -1 && ind1 < ind2 then Some(text[ind1..ind2 + 1]) else None
  }

  // ---------------------------------------------------------------------
  // Locating matches

  /** The first closing bracket at or after position `k`. */
  function FirstClose(text: string, k: nat): (r: Option<nat>)
    requires k <= |text|
    ensures r.Some? ==> k <= r.value < |text| && IsClose(text[r.value])
    ensures r.Some? ==> forall j :: k <= j < r.value ==> !IsClose(text[j])
    ensures r.None? ==> forall j :: k <= j < |text| ==> !IsClose(text[j])
    decreases |text| - k
  {
    if k == |text| then None
    else if IsClose(text[k]) then Some(k)
    else FirstClose(text, k + 1)
  }

  /** Regex `\d+\w?`: digits, possibly ended by one word character. */
  predicate IsNumberToken(x: string)
  {
    |x| >= 1 && IsDigit(x[0]) && AllDigits(x[..|x| - 1]) && IsWordChar(x[|x| - 1])
  }

  /** Regex `\d+\w?(\-\d+\w?)?`: a number, or two joined by a hyphen. */
  predicate IsCompactItem(x: string)
  {
    var parts := Split(x, '-');
    (|parts| == 1 || |parts| == 2) && forall k :: 0 <= k < |parts| ==> IsNumberToken(parts[k])
  }

  /** What `numberRefCompact` accepts between its brackets: at least two
      items, each comma followed by at most one whitespace character. */
  predicate IsCompactBody(b: string)
  {
    var parts := Split(b, ',');
    |parts| >= 2 && IsCompactItem(parts[0]) && LaterItems(parts, 1)
  }

  /** The parts from index `k` on are items, each after at most one
      whitespace character. */
  predicate LaterItems(parts: seq<string>, k: nat)
    requires k <= |parts|
    decreases |parts| - k
  {
    k == |parts|
    || ((IsCompactItem(parts[k]) || (|parts[k]| >= 1 && IsSpaceChar(parts[k][0]) && IsCompactItem(parts[k][1..])))
        && LaterItems(parts, k + 1))
  }

  /** The index of the closing bracket of the `numberRefCompact` match
      that starts at `s`, if one does. No character the body may hold is
      a bracket, so a match can only end at the first closing bracket. */
  function CompactMatchAt(text: string, s: nat): (r: Option<nat>)
    requires s < |text|
    ensures r.Some? ==> s < r.value < |text|
  {
    if !IsOpen(text[s]) then None
    else match FirstClose(text, s + 1)
      case None => None
      case Some(c) => if IsCompactBody(text[s + 1..c]) then Some(c) else None
  }

  /** One of the dashes `numberRefCompact2` accepts between two numbers:
      the hyphen and U+2012 to U+2015. */
  predicate IsDash(c: char)
  {
    c == '-' || c == '‒' || c == '–' || c == '—' || c == '―'
  }

  /** The end of the run of digits that starts at `i`. */
  function DigitRun(s: string, i: nat): (r: nat)
    requires i <= |s|
    ensures i <= r <= |s|
    ensures forall j :: i <= j < r ==> IsDigit(s[j])
    ensures r < |s| ==> !IsDigit(s[r])
    decreases |s| - i
  {
    if i < |s| && IsDigit(s[i]) then DigitRun(s, i + 1) else i
  }

  /** What `numberRefCompact2` accepts between its brackets: digits, one
      dash, digits. */
  predicate IsRangeBody(b: string)
  {
    var d := DigitRun(b, 0);
    0 < d < |b| - 1 && IsDash(b[d]) && DigitRun(b, d + 1) == |b|
  }

  /** The index of the closing bracket of the `numberRefCompact2` match
      that starts at `s`, if one does. */
  function RangeMatchAt(text: string, s: nat): (r: Option<nat>)
    requires s < |text|
    ensures r.Some? ==> s < r.value < |text|
  {
    if !IsOpen(text[s]) then None
    else match FirstClose(text, s + 1)
      case None => None
      case Some(c) => if IsRangeBody(text[s + 1..c]) then Some(c) else None
  }

  // ---------------------------------------------------------------------
  // Compact lists

  /** The replacement of one compact list: every comma closes the bracket
      and opens a new one, and a space left after the new opening bracket,
      or before a closing one, is dropped. The kind of bracket follows
      whether the match contains `]`. */
  function CompactRewrite(g: string): string
  {
    if ']' in g then Replace(Replace(Replace(g, ",", "] ["), "[ ", "["), " ]", "]")
    else Replace(Replace(Replace(g, ",", ") ("), "( ", "("), " )", ")")
  }

  /** A match: the positions of its opening and closing brackets. */
  datatype Span = Span(start: nat, close: nat)

  /** `Matcher.find` for `numberRefCompact`: the first match that starts
      at or after `k`. */
  function NextCompact(text: string, k: nat): (r: Option<Span>)
    requires k <= |text|
    ensures r.Some? ==> k <= r.value.start < r.value.close < |text|
    decreases |text| - k
  {
    if k == |text| then None
    else match CompactMatchAt(text, k)
      case Some(c) => Some(Span(k, c))
      case None => NextCompact(text, k + 1)
  }

  /** The compact-list pass over the text from position `k` on: the text
      up to the next match is copied, the match is rewritten, and the
      search resumes after it; the rest is copied once there is no match. */
  function CompactFrom(text: string, k: nat): string
    requires k <= |text|
    decreases |text| - k
  {
    match NextCompact(text, k)
    case None => text[k..]
    case Some(m) => text[k..m.start] + CompactRewrite(text[m.start..m.close + 1]) + CompactFrom(text, m.close + 1)
  }

  /** One step of the pass: the text up to the next match, its rewrite,
      and the pass from the end of the match on. */
  lemma CompactFromMatch(text: string, k: nat, m: Span)
    requires k <= |text| && NextCompact(text, k) == Some(m)
    ensures CompactFrom(text, k) == (text[k..m.start] + CompactRewrite(text[m.start..m.close + 1])) + CompactFrom(text, m.close + 1)
  {
    hide NextCompact, CompactRewrite;
  }

  /** Without a further match the rest is copied as it is. */
  lemma CompactFromNone(text: string, k: nat)
    requires k <= |text| && NextCompact(text, k).None?
    ensures CompactFrom(text, k) == text[k..]
  {
    hide NextCompact, CompactRewrite;
  }

  /** `Matcher.find` for `numberRefCompact`, as a scan. */
  method FindCompact(text: string, from: nat) returns (m: Option<Span>)
    requires from <= |text|
    ensures m == NextCompact(text, from)
  {
    var s := from;
    while s < |text|
      invariant from <= s <= |text|
      invariant NextCompact(text, from) == NextCompact(text, s)
    {
      var c := CompactMatchAt(text, s);
      if c.Some? {
        return Some(Span(s, c.value));
      }
      s := s + 1;
    }
    return None;
  }

  /** The `numberRefCompact` loop of markReferencesTEI. */
  method RewriteCompactLists(text: string) returns (r: string)
    ensures r == CompactFrom(text, 0)
  {
    // the step lemmas carry all the proof needs about the pass
    hide CompactFrom, NextCompact, CompactRewrite, CompactMatchAt;
    var sb := "";
    var last := 0;
    var m := FindCompact(text, 0);
    while m.Some?
      invariant last <= |text|
      invariant m == NextCompact(text, last)
      invariant CompactFrom(text, 0) == sb + CompactFrom(text, last)
      decreases |text| - last
    {
      var span := m.value;
      CompactFromMatch(text, last, span);
      AppendStep(CompactFrom(text, 0), sb, CompactFrom(text, last),
                 text[last..span.start] + CompactRewrite(text[span.start..span.close + 1]), CompactFrom(text, span.close + 1));
      // appendReplacement: the text since the last match, then the rewritten match
      sb := sb + (text[last..span.start] + CompactRewrite(text[span.start..span.close + 1]));
      last := span.close + 1;
      m := FindCompact(text, last);
    }
    // appendTail
    CompactFromNone(text, last);
    r := sb + text[last..];
  }

  /** A list item as it stands between the commas: no comma, no bracket
      and no space at either end (what `\d+\w?(-\d+\w?)?` matches). */
  predicate PlainItem(x: string)
  {
    x != [] && x[0] != ' ' && x[|x| - 1] != ' '
    && forall i :: 0 <= i < |x| ==> x[i] != ',' && !IsOpen(x[i]) && !IsClose(x[i])
  }

  /** Every item in its own pair of brackets. */
  function Bracketed(o: char, c: char, items: seq<string>): (r: seq<string>)
    ensures |r| == |items| && forall k :: 0 <= k < |items| ==> r[k] == [o] + items[k] + [c]
  {
    seq(|items|, k requires 0 <= k < |items| => [o] + items[k] + [c])
  }

  /** `replace` on a bracketed join: the brackets and the separators are
      rewritten separately. */
  lemma ReplaceWrapped(o: char, c: char, parts: seq<string>, sep: string, t: string, u: string)
    requires |parts| >= 1 && 1 <= |t| <= 2 && sep != []
    requires forall k :: 0 <= k < |parts| ==> parts[k] != [] && !Contains(parts[k], t)
    requires |t| == 2 ==> forall k :: 0 <= k < |parts| ==>
               parts[k][|parts[k]| - 1] != t[0] && (sep[|sep| - 1] != t[0] || parts[k][0] != t[1])
    requires |t| == 2 ==> o != t[0] || parts[0][0] != t[1]
    ensures Replace([o] + Join(parts, sep) + [c], t, u) == Replace([o], t, u) + Join(parts, Replace(sep, t, u)) + Replace([c], t, u)
  {
    var j := Join(parts, sep);
    ReplaceJoin(parts, sep, t, u);
    JoinFirst(parts, sep);
    JoinLast(parts, sep);
    NoStraddleShort([o], j, t);
    ReplaceConcat([o], j, t, u);
    NoStraddleShort([o] + j, [c], t);
    ReplaceConcat([o] + j, [c], t, u);
  }

  /** Items joined by `c + " " + o` inside one pair of brackets are the
      bracketed items joined by spaces. */
  lemma {:induction false} BracketJoin(o: char, c: char, items: seq<string>)
    requires |items| >= 1
    ensures [o] + Join(items, [c, ' ', o]) + [c] == Join(Bracketed(o, c, items), " ")
    decreases |items|
  {
    if |items| > 1 {
      BracketJoin(o, c, items[1..]);
      assert Bracketed(o, c, items)[1..] == Bracketed(o, c, items[1..]);
    }
  }

  /** `replace` on a string shorter than the pattern, or one whose first
      character starts no occurrence: one step of the scan. */
  lemma ReplaceFirstStep(s: string, t: string, u: string)
    requires t != [] && s != []
    ensures |s| < |t| ==> Replace(s, t, u) == s
    ensures |s| >= |t| && s[..|t|] == t ==> Replace(s, t, u) == u + Replace(s[|t|..], t, u)
    ensures |s| >= |t| && s[..|t|] != t ==> Replace(s, t, u) == [s[0]] + Replace(s[1..], t, u)
  {
  }

  /** A single character that is not the pattern is left alone. */
  lemma ReplaceSingle(ch: char, t: string, u: string)
    requires t != [] && (|t| > 1 || t[0] != ch)
    ensures Replace([ch], t, u) == [ch]
  {
    assert [ch][1..] == [];
    if |t| == 1 {
      assert [ch][..1] != t;
    }
  }

  /** First rewrite of a separator: the comma closes and reopens. */
  lemma CommaSeparator(o: char, c: char, spaced: bool)
    requires (o, c) == ('[', ']') || (o, c) == ('(', ')')
    ensures Replace(if spaced then ", " else ",", ",", [c, ' ', o]) == [c, ' ', o] + (if spaced then " " else "")
  {
    var x := [c, ' ', o];
    ReplaceSingle(' ', ",", x);
    ReplaceFirstStep(",", ",", x);
    ReplaceFirstStep(", ", ",", x);
    assert ", "[1..] == " ";
  }

  /** Second rewrite of a separator: the space after the new opening
      bracket goes. */
  lemma OpenSpaceSeparator(o: char, c: char, spaced: bool)
    requires (o, c) == ('[', ']') || (o, c) == ('(', ')')
    ensures Replace([c, ' ', o] + (if spaced then " " else ""), [o, ' '], [o]) == [c, ' ', o]
  {
    var x := [c, ' ', o];
    var t := [o, ' '];
    ReplaceSingle(o, t, [o]);
    ReplaceFirstStep([' ', o], t, [o]);
    assert [' ', o][..2][0] == ' ';
    assert [' ', o][1..] == [o];
    assert Replace([' ', o], t, [o]) == [' ', o];
    if spaced {
      ReplaceFirstStep([o, ' '], t, [o]);
      assert [o, ' '][2..] == [];
      assert Replace([o, ' '], t, [o]) == [o];
      ReplaceFirstStep([' ', o, ' '], t, [o]);
      assert [' ', o, ' '][..2][0] == ' ';
      assert [' ', o, ' '][1..] == [o, ' '];
      assert Replace([' ', o, ' '], t, [o]) == [' ', o];
      assert x + " " == [c, ' ', o, ' '];
      ReplaceFirstStep([c, ' ', o, ' '], t, [o]);
      assert [c, ' ', o, ' '][..2][0] == c;
      assert [c, ' ', o, ' '][1..] == [' ', o, ' '];
    } else {
      assert x + "" == x;
      ReplaceFirstStep(x, t, [o]);
      assert x[..2][0] == c;
      assert x[1..] == [' ', o];
    }
  }

  /** Third rewrite of a separator: it has no space before a closing bracket. */
  lemma CloseSpaceSeparator(o: char, c: char)
    requires (o, c) == ('[', ']') || (o, c) == ('(', ')')
    ensures Replace([c, ' ', o], [' ', c], [c]) == [c, ' ', o]
  {
    var x := [c, ' ', o];
    var t := [' ', c];
    ReplaceSingle(o, t, [c]);
    ReplaceFirstStep([' ', o], t, [c]);
    assert [' ', o][..2][1] == o;
    assert [' ', o][1..] == [o];
    assert Replace([' ', o], t, [c]) == [' ', o];
    ReplaceFirstStep(x, t, [c]);
    assert x[..2][0] == c;
    assert x[1..] == [' ', o];
  }

  /** The first rewrite of a compact list. */
  lemma CompactStage1(o: char, c: char, items: seq<string>, spaced: bool)
    requires (o, c) == ('[', ']') || (o, c) == ('(', ')')
    requires |items| >= 1 && forall k :: 0 <= k < |items| ==> PlainItem(items[k])
    ensures Replace([o] + Join(items, if spaced then ", " else ",") + [c], ",", [c, ' ', o])
            == [o] + Join(items, [c, ' ', o] + (if spaced then " " else "")) + [c]
  {
    forall k | 0 <= k < |items|
      ensures !Contains(items[k], ",")
    {
      NotContains(items[k], ",", 0);
    }
    CommaSeparator(o, c, spaced);
    ReplaceWrapped(o, c, items, if spaced then ", " else ",", ",", [c, ' ', o]);
    ReplaceSingle(o, ",", [c, ' ', o]);
    ReplaceSingle(c, ",", [c, ' ', o]);
  }

  /** The second rewrite of a compact list. */
  lemma CompactStage2(o: char, c: char, items: seq<string>, spaced: bool)
    requires (o, c) == ('[', ']') || (o, c) == ('(', ')')
    requires |items| >= 1 && forall k :: 0 <= k < |items| ==> PlainItem(items[k])
    ensures Replace([o] + Join(items, [c, ' ', o] + (if spaced then " " else "")) + [c], [o, ' '], [o])
            == [o] + Join(items, [c, ' ', o]) + [c]
  {
    forall k | 0 <= k < |items|
      ensures !Contains(items[k], [o, ' '])
    {
      NotContains(items[k], [o, ' '], 0);
    }
    OpenSpaceSeparator(o, c, spaced);
    ReplaceWrapped(o, c, items, [c, ' ', o] + (if spaced then " " else ""), [o, ' '], [o]);
    ReplaceSingle(o, [o, ' '], [o]);
    ReplaceSingle(c, [o, ' '], [o]);
  }

  /** The third rewrite of a compact list. */
  lemma CompactStage3(o: char, c: char, items: seq<string>)
    requires (o, c) == ('[', ']') || (o, c) == ('(', ')')
    requires |items| >= 1 && forall k :: 0 <= k < |items| ==> PlainItem(items[k])
    ensures Replace([o] + Join(items, [c, ' ', o]) + [c], [' ', c], [c]) == [o] + Join(items, [c, ' ', o]) + [c]
  {
    forall k | 0 <= k < |items|
      ensures !Contains(items[k], [' ', c])
    {
      NotContains(items[k], [' ', c], 1);
    }
    CloseSpaceSeparator(o, c);
    ReplaceWrapped(o, c, items, [c, ' ', o], [' ', c], [c]);
    ReplaceSingle(o, [' ', c], [c]);
    ReplaceSingle(c, [' ', c], [c]);
  }

  /** The compact-list rewrite of `[a, b, c]` or `[a,b,c]` is `[a] [b] [c]`,
      and the same with parentheses. */
  lemma CompactListRewrite(o: char, c: char, items: seq<string>, spaced: bool)
    requires (o, c) == ('[', ']') || (o, c) == ('(', ')')
    requires |items| >= 1 && forall k :: 0 <= k < |items| ==> PlainItem(items[k])
    ensures CompactRewrite([o] + Join(items, if spaced then ", " else ",") + [c]) == Join(Bracketed(o, c, items), " ")
  {
    var sep0 := if spaced then ", " else ",";
    var g := [o] + Join(items, sep0) + [c];
    if c == ')' {
      JoinCharFree(items, sep0, ']');
      assert ']' !in g;
    } else {
      assert g[|g| - 1] == ']';
    }
    CompactStage1(o, c, items, spaced);
    CompactStage2(o, c, items, spaced);
    CompactStage3(o, c, items);
    BracketJoin(o, c, items);
  }

  // ---------------------------------------------------------------------
  // Ranges

  /** The items a range expands to: `o + j + c` for `j` from `first` to
      `second`; none when `first > second`. */
  function RangeItems(o: char, c: char, first: int, second: int): (r: seq<string>)
    ensures |r| == if second < first then 0 else second - first + 1
    ensures forall k :: 0 <= k < |r| ==> r[k] == [o] + IntToString(first + k) + [c]
    decreases second - first
  {
    if second < first then []
    else RangeItems(o, c, first, second - 1) + [[o] + IntToString(second) + [c]]
  }

  /** What the range pass does with one match: replace it, stop the whole
      pass (`break`), or throw. */
  datatype RangeStep = Replaced(s: string) | Stop | Raise

  /** The widest range expanded: `10 + bds.size()/10` for square
      brackets, 9 for parentheses. */
  function MaxExpend(square: bool, bibCount: nat): int
  {
    if square then 10 + bibCount / 10 else 9
  }

  /** The processing of one `numberRefCompact2` match `g`. Both brackets
      of the kind named by the closing one are deleted; the dash is found
      as `-` or U+2013 only. The two numbers are read with
      `Integer.parseInt`, which throws on a mixed pair of brackets; the
      list of bibliography entries is read for square brackets only, and
      throws when it is null (`bibCount` is `None`). */
  function RangeRewrite(g: string, bibCount: Option<nat>): RangeStep
  {
    var square := ']' in g;
    var o := if square then '[' else '(';
    var c := if square then ']' else ')';
    var toto := Replace(Replace(g, [c], ""), [o], "");
    var ind := if IndexOf(toto, "-", 0) == -1 then IndexOf(toto, "–", 0) else IndexOf(toto, "-", 0);
    if ind == -1 then Replaced(toto)
    else
      var first := ParseInt32(toto[..ind]);
      var second := ParseInt32(toto[ind + 1..]);
      if first.None? || second.None? then Raise
      else if square && bibCount.None? then Raise
      else if second.value - first.value > MaxExpend(square, if bibCount.Some? then bibCount.value else 0) then Stop
      else Replaced(Join(RangeItems(o, c, first.value, second.value), " "))
  }

  /** `Matcher.find` for `numberRefCompact2`: the first match that
      starts at or after `k`. */
  function NextRange(text: string, k: nat): (r: Option<Span>)
    requires k <= |text|
    ensures r.Some? ==> k <= r.value.start < r.value.close < |text|
    decreases |text| - k
  {
    if k == |text| then None
    else match RangeMatchAt(text, k)
      case Some(c) => Some(Span(k, c))
      case None => NextRange(text, k + 1)
  }

  /** The range pass over the text from position `k` on. A `Stop` copies
      the rest of the text as it is, from the last match on (the `break`
      followed by `appendTail`). */
  function RangesFrom(text: string, k: nat, bibCount: Option<nat>): Result<string>
    requires k <= |text|
    decreases |text| - k
  {
    match NextRange(text, k)
    case None => Ok(text[k..])
    case Some(m) =>
      match RangeRewrite(text[m.start..m.close + 1], bibCount)
      case Stop => Ok(text[k..])
      case Raise => Err(GrobidException)
      case Replaced(x) => Prepend(text[k..m.start] + x, RangesFrom(text, m.close + 1, bibCount))
  }

  function Prepend(p: string, r: Result<string>): Result<string>
  {
    if r.Ok? then Ok(p + r.value) else r
  }

  /** The loop that builds the expansion of one range. */
  method ExpandRange(o: char, c: char, first: int, second: int) returns (s: string)
    ensures s == Join(RangeItems(o, c, first, second), " ")
  {
    s := "";
    var isFirst := true;
    var j := first;
    while j <= second
      invariant first <= j && (first <= second ==> j <= second + 1) && (second < first ==> j == first)
      invariant isFirst <==> j == first
      invariant s == Join(RangeItems(o, c, first, j - 1), " ")
    {
      var item := [o] + IntToString(j) + [c];
      if isFirst {
        s := s + item;
        isFirst := false;
      } else {
        JoinAppend(RangeItems(o, c, first, j - 1), item, " ");
        s := s + " " + item;
      }
      j := j + 1;
    }
  }

  /** Deleting a character the string does not hold leaves it unchanged. */
  lemma ReplaceCharAbsent(s: string, ch: char, u: string)
    requires ch !in s
    ensures Replace(s, [ch], u) == s
  {
    NotContains(s, [ch], 0);
    ReplaceAbsent(s, [ch], u);
  }

  /** Stripping the brackets of `o + a + d + b + c`, with `a` and `b`
      digit strings, leaves `a + d + b`. */
  lemma StripBrackets(o: char, c: char, a: string, d: char, b: string)
    requires (o, c) == ('[', ']') || (o, c) == ('(', ')')
    requires AllDigits(a) && AllDigits(b) && !IsOpen(d) && !IsClose(d)
    ensures Replace(Replace([o] + a + [d] + b + [c], [c], ""), [o], "") == a + [d] + b
  {
    var mid := a + [d] + b;
    assert [o] + a + [d] + b + [c] == [o] + mid + [c];
    assert c !in mid && o !in mid;
    ReplaceCharConcat([o] + mid, [c], c, "");
    ReplaceCharAbsent([o] + mid, c, "");
    ReplaceFirstStep([c], [c], "");
    assert [c][1..] == [];
    assert Replace([c], [c], "") == [];
    assert Replace([o] + mid + [c], [c], "") == [o] + mid;
    ReplaceCharConcat([o], mid, o, "");
    ReplaceCharAbsent(mid, o, "");
    ReplaceFirstStep([o], [o], "");
    assert [o][1..] == [];
    assert Replace([o], [o], "") == [];
  }

  /** In `a + [d] + b` with `a` a digit string, the first occurrence of
      a one-character pattern that only `d` can hold is at `|a|`. */
  lemma IndexAfterDigits(a: string, d: char, b: string, t: string)
    requires AllDigits(a) && AllDigits(b) && |t| == 1 && t[0] == d && !IsDigit(d)
    ensures IndexOf(a + [d] + b, t, 0) == |a|
  {
    var s := a + [d] + b;
    assert OccursAt(s, t, |a|);
    forall j | 0 <= j < |a|
      ensures !OccursAt(s, t, j)
    {
      assert s[j..j + 1][0] == a[j];
    }
  }

  /** A range of unsigned 32-bit numbers joined by a hyphen or by U+2013:
      square brackets need the list of bibliography entries, a range wider
      than the cap stops the pass, and any other range becomes the
      bracketed numbers from the first to the second, separated by spaces. */
  lemma RangeRewriteDash(o: char, c: char, first: nat, d: char, second: nat, bibCount: Option<nat>)
    requires (o, c) == ('[', ']') || (o, c) == ('(', ')')
    requires d == '-' || d == '–'
    requires first <= MaxInt32 && second <= MaxInt32
    ensures var r := RangeRewrite([o] + NatToString(first) + [d] + NatToString(second) + [c], bibCount);
            var cap := MaxExpend(c == ']', if bibCount.Some? then bibCount.value else 0);
            && (c == ']' && bibCount.None? ==> r == Raise)
            && (!(c == ']' && bibCount.None?) && second - first > cap ==> r == Stop)
            && (!(c == ']' && bibCount.None?) && second - first <= cap ==> r == Replaced(Join(RangeItems(o, c, first, second), " ")))
  {
    hide IndexOf, Join, RangeItems, DigitsValue, Replace, Contains;
    var a, b := NatToString(first), NatToString(second);
    var g := [o] + a + [d] + b + [c];
    if c == ')' {
      assert ']' !in g;
    } else {
      assert g[|g| - 1] == ']';
    }
    StripBrackets(o, c, a, d, b);
    var toto := a + [d] + b;
    if d == '-' {
      IndexAfterDigits(a, d, b, "-");
    } else {
      NotContains(toto, "-", 0);
      IndexOfAbsent(toto, "-");
      IndexAfterDigits(a, d, b, "–");
    }
    assert toto[..|a|] == a && toto[|a| + 1..] == b;
    ParsePrinted(first);
    ParsePrinted(second);
  }

  /** A range written with U+2012, U+2014 or U+2015 loses its brackets
      and is not expanded, since only `-` and U+2013 are looked for. */
  lemma RangeRewriteOtherDash(o: char, c: char, first: nat, d: char, second: nat, bibCount: Option<nat>)
    requires (o, c) == ('[', ']') || (o, c) == ('(', ')')
    requires d == '‒' || d == '—' || d == '―'
    ensures RangeRewrite([o] + NatToString(first) + [d] + NatToString(second) + [c], bibCount)
            == Replaced(NatToString(first) + [d] + NatToString(second))
  {
    hide IndexOf, Join, RangeItems, ParseInt32, Replace, Contains;
    var a, b := NatToString(first), NatToString(second);
    var g := [o] + a + [d] + b + [c];
    if c == ')' {
      assert ']' !in g;
    } else {
      assert g[|g| - 1] == ']';
    }
    StripBrackets(o, c, a, d, b);
    var toto := a + [d] + b;
    NotContains(toto, "-", 0);
    IndexOfAbsent(toto, "-");
    NotContains(toto, "–", 0);
    IndexOfAbsent(toto, "–");
  }

  /** The expansion reads back: split at the spaces it gives the
      bracketed numbers, each of which parses to its place in the range. */
  lemma RangeExpansionReadBack(o: char, c: char, first: nat, second: nat)
    requires (o, c) == ('[', ']') || (o, c) == ('(', ')')
    requires first <= second <= MaxInt32
    ensures var items := Split(Join(RangeItems(o, c, first, second), " "), ' ');
            && |items| == second - first + 1
            && forall k :: 0 <= k < |items| ==>
                 |items[k]| >= 3 && items[k][0] == o && items[k][|items[k]| - 1] == c
                 && ParseInt32(items[k][1..|items[k]| - 1]) == Some(first + k)
  {
    hide Split, Join, ParseInt32;
    var rs := RangeItems(o, c, first, second);
    forall k | 0 <= k < |rs|
      ensures ' ' !in rs[k]
    {
      assert rs[k] == [o] + NatToString(first + k) + [c];
    }
    SplitJoin(rs, ' ');
    forall k | 0 <= k < |rs|
      ensures ParseInt32(rs[k][1..|rs[k]| - 1]) == Some(first + k)
    {
      assert rs[k][1..|rs[k]| - 1] == NatToString(first + k);
      ParsePrinted(first + k);
    }
  }

  /** Java's `int` arithmetic: `x` wrapped into 32 bits. */
  function Wrap32(x: int): (r: int)
    ensures -0x8000_0000 <= r <= MaxInt32
    ensures -0x8000_0000 <= x <= MaxInt32 ==> r == x
  {
    (x + 0x8000_0000) % 0x1_0000_0000 - 0x8000_0000
  }

  /** The expansion loop `for (int j = firstIndex; j <= secondIndex; j++)`
      as written, with a 32-bit `j`: whether it exits within `fuel` iterations. */
  predicate Int32LoopExitsWithin(j: int, second: int, fuel: nat)
    decreases fuel
  {
    j > second || (fuel > 0 && Int32LoopExitsWithin(Wrap32(j + 1), second, fuel - 1))
  }

  /** Below `Integer.MAX_VALUE` the loop exits after one iteration per
      number of the range. */
  lemma {:induction false} Int32LoopExitsBelowMax(j: int, second: int)
    requires -0x8000_0000 <= j && second < MaxInt32
    ensures Int32LoopExitsWithin(j, second, if j > second then 0 else second - j + 1)
    decreases second - j + 1
  {
    if j <= second {
      Int32LoopExitsBelowMax(j + 1, second);
    }
  }

  /** With `secondIndex == Integer.MAX_VALUE` the loop never exits: `j++`
      wraps to `Integer.MIN_VALUE`, which is again at most the bound. */
  lemma {:induction false} Int32LoopNeverExitsAtMax(j: int, fuel: nat)
    requires -0x8000_0000 <= j <= MaxInt32
    ensures !Int32LoopExitsWithin(j, MaxInt32, fuel)
    decreases fuel
  {
    if fuel > 0 {
      Int32LoopNeverExitsAtMax(Wrap32(j + 1), fuel - 1);
    }
  }

  /** The marker `[2147483640-2147483647]` passes the cap and reaches the
      expansion loop with `secondIndex == Integer.MAX_VALUE`, which never
      exits as written; `ExpandRange`, on unbounded integers, gives its
      eight bracketed numbers. */
  lemma MaxValueRangeHangs(bibCount: nat, fuel: nat)
    ensures RangeRewrite("[" + NatToString(2147483640) + "-" + NatToString(MaxInt32) + "]", Some(bibCount))
            == Replaced(Join(RangeItems('[', ']', 2147483640, MaxInt32), " "))
    ensures |RangeItems('[', ']', 2147483640, MaxInt32)| == 8
    ensures !Int32LoopExitsWithin(2147483640, MaxInt32, fuel)
  {
    RangeRewriteDash('[', ']', 2147483640, '-', MaxInt32, Some(bibCount));
    Int32LoopNeverExitsAtMax(2147483640, fuel);
  }

  /** The processing of one range match, as the loop body does it. */
  method RewriteRange(g: string, bibCount: Option<nat>) returns (step: RangeStep)
    ensures step == RangeRewrite(g, bibCount)
  {
    var square := ']' in g;
    var o := if square then '[' else '(';
    var c := if square then ']' else ')';
    var toto := Replace(Replace(g, [c], ""), [o], "");
    var ind := IndexOf(toto, "-", 0);
    if ind == -1 {
      ind := IndexOf(toto, "–", 0);
    }
    if ind == -1 {
      return Replaced(toto);
    }
    var first := ParseInt32(toto[..ind]);
    var second := ParseInt32(toto[ind + 1..]);
    if first.None? || second.None? || (square && bibCount.None?) {
      return Raise;
    }
    if second.value - first.value > MaxExpend(square, if bibCount.Some? then bibCount.value else 0) {
      return Stop;
    }
    var expansion := ExpandRange(o, c, first.value, second.value);
    return Replaced(expansion);
  }

  /** One step of the pass where the next match is replaced. */
  lemma RangesFromMatch(text: string, k: nat, bibCount: Option<nat>, m: Span, x: string)
    requires k <= |text| && NextRange(text, k) == Some(m)
    requires RangeRewrite(text[m.start..m.close + 1], bibCount) == Replaced(x)
    ensures RangesFrom(text, k, bibCount) == Prepend(text[k..m.start] + x, RangesFrom(text, m.close + 1, bibCount))
  {
    hide NextRange, RangeRewrite;
  }

  /** One step of the pass where the next match stops it or throws. */
  lemma RangesFromEnd(text: string, k: nat, bibCount: Option<nat>, m: Span)
    requires k <= |text| && NextRange(text, k) == Some(m)
    ensures RangeRewrite(text[m.start..m.close + 1], bibCount).Stop? ==> RangesFrom(text, k, bibCount) == Ok(text[k..])
    ensures RangeRewrite(text[m.start..m.close + 1], bibCount).Raise? ==> RangesFrom(text, k, bibCount) == Err(GrobidException)
  {
    hide NextRange, RangeRewrite;
  }

  /** Without a further match the rest is copied as it is. */
  lemma RangesFromNone(text: string, k: nat, bibCount: Option<nat>)
    requires k <= |text| && NextRange(text, k).None?
    ensures RangesFrom(text, k, bibCount) == Ok(text[k..])
  {
    hide NextRange, RangeRewrite;
  }

  /** `Matcher.find` for `numberRefCompact2`, as a scan. */
  method FindRange(text: string, from: nat) returns (m: Option<Span>)
    requires from <= |text|
    ensures m == NextRange(text, from)
  {
    var s := from;
    while s < |text|
      invariant from <= s <= |text|
      invariant NextRange(text, from) == NextRange(text, s)
    {
      var c := RangeMatchAt(text, s);
      if c.Some? {
        return Some(Span(s, c.value));
      }
      s := s + 1;
    }
    return None;
  }

  /** The `numberRefCompact2` loop of markReferencesTEI. */
  method ExpandRanges(text: string, bibCount: Option<nat>) returns (r: Result<string>)
    ensures r == RangesFrom(text, 0, bibCount)
  {
    // the step lemmas carry all the proof needs about the pass
    hide RangesFrom, NextRange, RangeRewrite, RangeMatchAt;
    var sb := "";
    var last := 0;
    var m := FindRange(text, 0);
    PrependEmpty(RangesFrom(text, 0, bibCount));
    while m.Some?
      invariant last <= |text|
      invariant m == NextRange(text, last)
      invariant RangesFrom(text, 0, bibCount) == Prepend(sb, RangesFrom(text, last, bibCount))
      decreases |text| - last
    {
      var span := m.value;
      var step := RewriteRange(text[span.start..span.close + 1], bibCount);
      if !step.Replaced? {
        RangesFromEnd(text, last, bibCount, span);
        if step.Stop? {
          // break, then appendTail
          r := Ok(sb + text[last..]);
        } else {
          r := Err(GrobidException);
        }
        return;
      }
      RangesFromMatch(text, last, bibCount, span, step.s);
      PrependStep(RangesFrom(text, 0, bibCount), sb, RangesFrom(text, last, bibCount),
                  text[last..span.start] + step.s, RangesFrom(text, span.close + 1, bibCount));
      sb := sb + (text[last..span.start] + step.s);
      last := span.close + 1;
      m := FindRange(text, last);
    }
    // appendTail
    RangesFromNone(text, last, bibCount);
    r := Ok(sb + text[last..]);
  }

  lemma PrependEmpty(r: Result<string>)
    ensures Prepend("", r) == r
  {
    if r.Ok? {
      assert "" + r.value == r.value;
    }
  }

  /** Moving the next piece of the rest onto what has been built. */
  lemma PrependStep(whole: Result<string>, built: string, rest: Result<string>, piece: string, next: Result<string>)
    requires whole == Prepend(built, rest) && rest == Prepend(piece, next)
    ensures whole == Prepend(built + piece, next)
  {
    if next.Ok? {
      ConcatAssoc(built, piece, next.value);
    }
  }
}
