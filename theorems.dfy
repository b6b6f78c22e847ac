/** Bookkeeping of theorem headings such as "Theorem 3.1": the order on
    dotted numbers, the list of headings found so far with the parallel
    list of their line indexes, and the scan for a theorem's last line. */
module TheoremHeadings {
  import opened Strings

  /** The longest theorem, in lines. */
  const MaxTheoremLength := 15

  // ---------------------------------------------------------------------
  // Order on dotted numbers

  /** Python's `<` on strings: code point by code point, a proper prefix
      before the longer string. */
  predicate StringLess(x: string, y: string)
    decreases |x|
  {
    if |x| == 0 then |y| > 0
    else if |y| == 0 then false
    else if x[0] != y[0] then x[0] < y[0]
    else StringLess(x[1..], y[1..])
  }

  /** `<` on strings is a strict total order. */
  lemma {:induction false} StringLessStrictTotal(x: string, y: string)
    ensures !(StringLess(x, y) && StringLess(y, x))
    ensures x != y ==> StringLess(x, y) || StringLess(y, x)
    ensures !StringLess(x, x)
    decreases |x|
  {
    if |x| > 0 && |y| > 0 && x[0] == y[0] {
      StringLessStrictTotal(x[1..], y[1..]);
      if x != y {
        assert x == [x[0]] + x[1..] && y == [y[0]] + y[1..];
      }
    }
    if |x| > 0 {
      StringLessStrictTotal(x[1..], x[1..]);
    }
  }

  /** ordered: the first position where the two numbers differ, within
      their common length, decides; no such position means not ordered. */
  function Ordered(sl: seq<string>, tl: seq<string>): bool
    decreases |sl|
  {
    if |sl| == 0 || |tl| == 0 then false
    else if StringLess(sl[0], tl[0]) then true
    else if StringLess(tl[0], sl[0]) then false
    else Ordered(sl[1..], tl[1..])
  }

  /** `sl` is ordered before `tl` iff they agree up to some position of
      their common length where `sl`'s part is the smaller. */
  lemma {:induction false} OrderedMeaning(sl: seq<string>, tl: seq<string>)
    ensures Ordered(sl, tl) <==>
              exists k :: 0 <= k < |sl| && k < |tl| && sl[..k] == tl[..k] && StringLess(sl[k], tl[k])
    decreases |sl|
  {
    if |sl| > 0 && |tl| > 0 {
      StringLessStrictTotal(sl[0], tl[0]);
      OrderedMeaning(sl[1..], tl[1..]);
      if Ordered(sl, tl) {
        if !StringLess(sl[0], tl[0]) {
          var k :| 0 <= k < |sl[1..]| && k < |tl[1..]| && sl[1..][..k] == tl[1..][..k] && StringLess(sl[1..][k], tl[1..][k]);
          assert sl[..k + 1] == [sl[0]] + sl[1..][..k];
          assert tl[..k + 1] == [tl[0]] + tl[1..][..k];
          assert StringLess(sl[k + 1], tl[k + 1]);
        } else {
          assert sl[..0] == tl[..0];
        }
      } else {
        forall k | 0 <= k < |sl| && k < |tl| && sl[..k] == tl[..k]
          ensures !StringLess(sl[k], tl[k])
        {
          if k > 0 {
            assert sl[0] == sl[..k][0] && tl[0] == tl[..k][0];
            assert sl[1..][..k - 1] == sl[..k][1..] && tl[1..][..k - 1] == tl[..k][1..];
            assert sl[1..][k - 1] == sl[k] && tl[1..][k - 1] == tl[k];
          }
        }
      }
    }
  }

  /** No number is ordered before itself, two numbers are never ordered
      both ways, and a number is never ordered against its own prefix. */
  lemma {:induction false} OrderedStrict(sl: seq<string>, tl: seq<string>)
    ensures !Ordered(sl, sl)
    ensures !(Ordered(sl, tl) && Ordered(tl, sl))
    ensures |sl| <= |tl| && tl[..|sl|] == sl ==> !Ordered(sl, tl) && !Ordered(tl, sl)
    decreases |sl|
  {
    if |sl| > 0 {
      StringLessStrictTotal(sl[0], sl[0]);
      OrderedStrict(sl[1..], sl[1..]);
      if |tl| > 0 {
        StringLessStrictTotal(sl[0], tl[0]);
        OrderedStrict(sl[1..], tl[1..]);
        if |sl| <= |tl| && tl[..|sl|] == sl {
          assert tl[0] == sl[0];
          assert tl[1..][..|sl[1..]|] == sl[1..];
        }
      }
    }
  }

  // ---------------------------------------------------------------------
  // Headings found so far

  /** A heading entry: the result name, its number split at the dots,
      and whether the number was glued to the name ("Theorem3.1"). The
      glued form is the three-element tuple whose third element is the
      list of headings itself, so it equals only other glued entries with
      the same name and number. */
  datatype Begin = Begin(name: string, num: seq<string>, glued: bool)

  /** The regex `.*(CMBX)[0-9]+` of bold fonts, searched in a font name. */
  predicate IsBoldFont(font: string)
  {
    exists k :: 0 <= k && k + 4 < |font| && OccursAt(font, "CMBX", k) && IsDigit(font[k + 4])
  }

  /** is_bold as clever_append calls it: on a heading name, so the "font"
      it tests is the one-letter string of the name's first letter. */
  predicate NameIsBold(name: string)
    requires |name| > 0
  {
    IsBoldFont([name[0]])
  }

  /** The bold clause of clever_append never holds: a one-letter string
      contains no bold font name. */
  lemma NameNeverBold(name: string)
    requires |name| > 0
    ensures !NameIsBold(name)
  {
  }

  /** not_in_place: entry `i` is out of order with its predecessor or its
      successor. */
  predicate NotInPlace(begins: seq<Begin>, i: nat)
    requires i < |begins|
  {
    var answer := if i > 0 then !Ordered(begins[i - 1].num, begins[i].num) else false;
    answer || (i < |begins| - 1 && !Ordered(begins[i].num, begins[i + 1].num))
  }

  /** Every entry is in place exactly when the numbers are strictly
      increasing from each entry to the next. */
  lemma InPlaceEverywhere(begins: seq<Begin>)
    ensures (forall i :: 0 <= i < |begins| ==> !NotInPlace(begins, i)) <==>
            (forall i :: 0 < i < |begins| ==> Ordered(begins[i - 1].num, begins[i].num))
  {
    if forall i :: 0 <= i < |begins| ==> !NotInPlace(begins, i) {
      forall i | 0 < i < |begins|
        ensures Ordered(begins[i - 1].num, begins[i].num)
      {
        assert !NotInPlace(begins, i);
      }
    }
  }

  /** Whether clever_append replaces the earlier entry `i` equal to `p`:
      `p` is bold where the entry is not, or `p`'s number comes after the
      last entry's, or the entry is out of place. */
  predicate Replaces(begins: seq<Begin>, i: nat, p: Begin)
    requires i < |begins| && |p.name| > 0 && |begins[i].name| > 0
  {
    var newBold := NameIsBold(p.name);
    var oldBold := NameIsBold(begins[i].name);
    (newBold && !oldBold) || Ordered(begins[|begins| - 1].num, p.num) || NotInPlace(begins, i)
  }

  /** The two lists after clever_append. */
  function CleverAppended(begins: seq<Begin>, indexes: seq<int>, j: int, p: Begin): (seq<Begin>, seq<int>)
    requires |begins| == |indexes|
    requires p in begins ==> |p.name| > 0
  {
    if p !in begins then (begins + [p], indexes + [j])
    else
      var i := FirstIndex(begins, p);
      if Replaces(begins, i, p) then
        (RemoveFirst(begins, begins[i]) + [p], RemoveFirst(indexes, indexes[i]) + [j])
      else (begins, indexes)
  }

  /** The lists stay parallel: a new entry is appended with its index; an
      entry already present is either left alone or moved to the end with
      the new index, the list keeping its length. */
  lemma CleverAppendShape(begins: seq<Begin>, indexes: seq<int>, j: int, p: Begin)
    requires |begins| == |indexes|
    requires p in begins ==> |p.name| > 0
    ensures var (b, x) := CleverAppended(begins, indexes, j, p);
            && |b| == |x|
            && p in b
            && (p !in begins ==> b == begins + [p] && x == indexes + [j])
            && (p in begins ==> |b| == |begins|)
            && (p in begins && Replaces(begins, FirstIndex(begins, p), p) ==> b[|b| - 1] == p && x[|x| - 1] == j)
            && (p in begins && !Replaces(begins, FirstIndex(begins, p), p) ==> b == begins && x == indexes)
  {
    if p in begins {
      var i := FirstIndex(begins, p);
      assert begins[i] in begins;
      assert indexes[i] in indexes;
    }
  }

  predicate Increasing(xs: seq<int>)
  {
    forall a, b :: 0 <= a < b < |xs| ==> xs[a] < xs[b]
  }

  lemma AppendIncreasing(xs: seq<int>, j: int)
    requires Increasing(xs) && forall k :: 0 <= k < |xs| ==> xs[k] < j
    ensures Increasing(xs + [j])
  {
    var x := xs + [j];
    forall a, c | 0 <= a < c < |x|
      ensures x[a] < x[c]
    {
      assert x[a] == xs[a];
    }
  }

  lemma RemoveAtIncreasing(xs: seq<int>, i: nat, j: int)
    requires Increasing(xs) && i < |xs| && forall k :: 0 <= k < |xs| ==> xs[k] < j
    ensures Increasing(xs[..i] + xs[i + 1..] + [j])
  {
    var x := xs[..i] + xs[i + 1..] + [j];
    forall a, c | 0 <= a < c < |x|
      ensures x[a] < x[c]
    {
      var a' := if a < i then a else a + 1;
      if c == |x| - 1 {
        assert x[a] == xs[a'];
      } else {
        var c' := if c < i then c else c + 1;
        assert x[a] == xs[a'] && x[c] == xs[c'];
      }
    }
  }

  /** With the line indexes increasing and the new index after all of
      them, a replaced entry and its index leave from the same position
      `i`, and the indexes stay increasing. */
  lemma CleverAppendKeepsOrder(begins: seq<Begin>, indexes: seq<int>, j: int, p: Begin)
    requires |begins| == |indexes|
    requires p in begins ==> |p.name| > 0
    requires Increasing(indexes) && forall k :: 0 <= k < |indexes| ==> indexes[k] < j
    ensures var (b, x) := CleverAppended(begins, indexes, j, p);
            && Increasing(x)
            && (p in begins && Replaces(begins, FirstIndex(begins, p), p) ==>
                  var i := FirstIndex(begins, p);
                  b == begins[..i] + begins[i + 1..] + [p] && x == indexes[..i] + indexes[i + 1..] + [j])
  {
    hide Replaces, Ordered, NotInPlace, NameIsBold, FirstIndex, RemoveFirst;
    if p !in begins {
      AppendIncreasing(indexes, j);
    }
    if p in begins {
      var i := FirstIndex(begins, p);
      if Replaces(begins, i, p) {
        assert FirstIndex(begins, begins[i]) == i;
        assert indexes[i] in indexes;
        assert FirstIndex(indexes, indexes[i]) == i;
        RemoveAtIncreasing(indexes, i, j);
      }
    }
  }

  /** The two parallel lists of clever_append, updated in place. */
  class Headings {
    var begins: seq<Begin>
    var indexes: seq<int>

    /** The two lists are parallel: one line index per entry. */
    predicate Valid()
      reads this
    {
      |begins| == |indexes|
    }

    constructor ()
      ensures Valid() && begins == [] && indexes == []
    {
      begins := [];
      indexes := [];
    }

    /** clever_append */
    method CleverAppend(j: int, p: Begin)
      requires Valid()
      requires p in begins ==> |p.name| > 0
      modifies this
      ensures Valid()
      ensures (begins, indexes) == CleverAppended(old(begins), old(indexes), j, p)
    {
      if p in begins {
        var i := FirstIndex(begins, p);
        var newBold := NameIsBold(p.name);
        var oldBold := NameIsBold(begins[i].name);
        if (newBold && !oldBold) || Ordered(begins[|begins| - 1].num, p.num) || NotInPlace(begins, i) {
          begins := RemoveFirst(begins, begins[i]);
          indexes := RemoveFirst(indexes, indexes[i]);
          begins := begins + [p];
          indexes := indexes + [j];
        }
      } else {
        begins := begins + [p];
        indexes := indexes + [j];
      }
    }
  }

  // ---------------------------------------------------------------------
  // Numbers

  /** search_to_string: the matched text, or "" for no match. */
  function SearchToString(search: Option<string>): string
  {
    match search
    case Some(text) => text
    case None => ""
  }

  /** num_to_list: the matched number split at its dots, without its
      first empty part. */
  function NumToList(num: Option<string>): seq<string>
  {
    RemoveFirst(Split(SearchToString(num), '.'), "")
  }

  /** No match gives no parts; a number written as non-empty dot-free
      parts joined by dots, with or without a final dot, gives back those
      parts. */
  lemma NumToListReadsParts(parts: seq<string>)
    requires |parts| >= 1
    requires forall k :: 0 <= k < |parts| ==> |parts[k]| > 0 && '.' !in parts[k]
    ensures NumToList(None) == []
    ensures NumToList(Some(Join(parts, "."))) == parts
    ensures NumToList(Some(Join(parts, ".") + ".")) == parts
  {
    assert Split("", '.') == [""];
    SplitJoin(parts, '.');
    assert "" !in parts by {
      forall k | 0 <= k < |parts| ensures parts[k] != "" { }
    }
    JoinAppend(parts, "", ".");
    assert Join(parts, ".") + "." == Join(parts + [""], ".");
    var all := parts + [""];
    assert forall k :: 0 <= k < |all| ==> '.' !in all[k];
    SplitJoin(all, '.');
    assert FirstIndex(all, "") == |parts|;
    assert all[..|parts|] == parts;
  }

  // ---------------------------------------------------------------------
  // End of a theorem

  /** find_end: from the line after the heading, the first line whose
      theoremness falls under the limit, stopping at the end of the text
      or after the longest theorem; `endsTheorem` says whether a line's
      theoremness is under the limit. */
  method FindEnd<L>(lines: seq<L>, lineIndex: nat, endsTheorem: L -> bool) returns (e: nat)
    ensures lineIndex < e <= lineIndex + MaxTheoremLength
    ensures e <= |lines| || e == lineIndex + 1
    ensures forall i :: lineIndex < i < e ==> !endsTheorem(lines[i])
    ensures |lines| <= e || e - lineIndex == MaxTheoremLength || (e < |lines| && endsTheorem(lines[e]))
    ensures e < |lines| && e - lineIndex < MaxTheoremLength ==> endsTheorem(lines[e])
  {
    var i := lineIndex + 1;
    while i < |lines| && i - lineIndex < MaxTheoremLength
      invariant lineIndex < i <= lineIndex + MaxTheoremLength
      invariant i <= |lines| || i == lineIndex + 1
      invariant forall k :: lineIndex < k < i ==> !endsTheorem(lines[k])
      decreases |lines| - i
    {
      if endsTheorem(lines[i]) {
        return i;
      }
      i := i + 1;
    }
    e := i;
  }
}
