/** String helpers with the semantics of the Java and Python library calls
    that the formatter and the labelling scripts rely on: `indexOf`,
    `lastIndexOf`, `replace`, `trim`, `toLowerCase`, `split`, `join`,
    `list.remove`, integer printing and `Integer.parseInt`. */
module Strings {

  datatype Option<+T> = None | Some(value: T)

  /** Java's `char` 0, which the formatter uses as "no letter". */
  const NoChar: char := 0 as char

  /** Integer.MAX_VALUE */
  const MaxInt32: int := 0x7fff_ffff

  // ---------------------------------------------------------------------
  // Occurrences and searching

  predicate OccursAt(s: string, pat: string, k: int)
  {
    0 <= k && k + |pat| <= |s| && s[k..k + |pat|] == pat
  }

  predicate Contains(s: string, pat: string)
  {
    exists k :: 0 <= k <= |s| && OccursAt(s, pat, k)
  }

  predicate StartsWith(s: string, p: string)
  {
    |p| <= |s| && s[..|p|] == p
  }

  predicate EndsWith(s: string, p: string)
  {
    |p| <= |s| && s[|s| - |p|..] == p
  }

  /** Where Java's `indexOf(pat, from)` starts looking: `from` clamped to `[0, |s|]`. */
  function SearchStart(s: string, from: int): (k: nat)
    ensures k <= |s|
  {
    if from < 0 then 0 else if from > |s| then |s| else from
  }

  /** First occurrence of `pat` at or after position `k`, or -1. */
  function SearchFrom(s: string, pat: string, k: nat): (r: int)
    requires k <= |s|
    ensures r != -1 ==> k <= r && OccursAt(s, pat, r)
    ensures r != -1 ==> forall j :: k <= j < r ==> !OccursAt(s, pat, j)
    ensures r == -1 ==> forall j :: k <= j ==> !OccursAt(s, pat, j)
    decreases |s| - k
  {
    if k + |pat| > |s| then -1
    else if s[k..k + |pat|] == pat then k
    else if k == |s| then -1
    else SearchFrom(s, pat, k + 1)
  }

  /** Java's `String.indexOf(String, int)`: the first occurrence of `pat`
      at or after `from`, or -1. */
  function IndexOf(s: string, pat: string, from: int): (r: int)
    ensures r != -1 ==> SearchStart(s, from) <= r && OccursAt(s, pat, r)
    ensures r != -1 ==> forall j :: SearchStart(s, from) <= j < r ==> !OccursAt(s, pat, j)
    ensures r == -1 ==> forall j :: SearchStart(s, from) <= j ==> !OccursAt(s, pat, j)
  {
    SearchFrom(s, pat, SearchStart(s, from))
  }

  /** A pattern that does not occur is not found. */
  lemma IndexOfAbsent(s: string, pat: string)
    requires !Contains(s, pat)
    ensures IndexOf(s, pat, 0) == -1
  {
  }

  /** Java's `String.lastIndexOf(char)`. */
  function LastIndexOf(s: string, c: char): (r: int)
    ensures -1 <= r < |s|
    ensures r != -1 ==> s[r] == c && forall j :: r < j < |s| ==> s[j] != c
    ensures r == -1 ==> forall j :: 0 <= j < |s| ==> s[j] != c
    decreases |s|
  {
    if s == [] then -1
    else if s[|s| - 1] == c then |s| - 1
    else LastIndexOf(s[..|s| - 1], c)
  }

  lemma IndexOfCharFirst(s: string, c: char)
    ensures IndexOf(s, [c], 0) != -1 ==> 0 <= IndexOf(s, [c], 0) < |s| && s[IndexOf(s, [c], 0)] == c
    ensures IndexOf(s, [c], 0) != -1 ==> forall j :: 0 <= j < IndexOf(s, [c], 0) ==> s[j] != c
    ensures IndexOf(s, [c], 0) == -1 ==> forall j :: 0 <= j < |s| ==> s[j] != c
  {
    var r := IndexOf(s, [c], 0);
    if r != -1 {
      assert s[r..r + 1] == [c];
      forall j | 0 <= j < r ensures s[j] != c {
        if s[j] == c { assert s[j..j + 1] == [c]; assert OccursAt(s, [c], j); }
      }
    } else {
      forall j | 0 <= j < |s| ensures s[j] != c {
        if s[j] == c { assert s[j..j + 1] == [c]; assert OccursAt(s, [c], j); }
      }
    }
  }

  // ---------------------------------------------------------------------
  // Character classes and case

  predicate IsDigit(c: char) { '0' <= c <= '9' }

  predicate IsAsciiLetter(c: char) { 'A' <= c <= 'Z' || 'a' <= c <= 'z' }

  /** Java regex `\w`: `[a-zA-Z_0-9]`. */
  predicate IsWordChar(c: char) { IsAsciiLetter(c) || IsDigit(c) || c == '_' }

  /** Java regex `\s`: `[ \t\n\x0B\f\r]`. */
  predicate IsSpaceChar(c: char)
  {
    c == ' ' || c == '\t' || c == '\n' || c == 11 as char || c == 12 as char || c == '\r'
  }

  predicate AllDigits(s: string)
  {
    forall k :: 0 <= k < |s| ==> IsDigit(s[k])
  }

  function LowerChar(c: char): char
  {
    if 'A' <= c <= 'Z' then (c as int + 32) as char else c
  }

  /** `toLowerCase`, restricted to the ASCII letters. */
  function Lower(s: string): (r: string)
    ensures |r| == |s|
    ensures forall k :: 0 <= k < |s| ==> r[k] == LowerChar(s[k])
  {
    seq(|s|, k requires 0 <= k < |s| => LowerChar(s[k]))
  }

  // ---------------------------------------------------------------------
  // Rewriting

  /** Java's `String.replace(CharSequence, CharSequence)`: every
      non-overlapping occurrence of `t`, left to right, becomes `u`. */
  function Replace(s: string, t: string, u: string): (r: string)
    requires t != []
    decreases |s|
  {
    if |s| < |t| then s
    else if s[..|t|] == t then u + Replace(s[|t|..], t, u)
    else [s[0]] + Replace(s[1..], t, u)
  }

  lemma {:induction false} ReplaceCharGone(s: string, c: char, u: string)
    requires c !in u
    ensures c !in Replace(s, [c], u)
    decreases |s|
  {
    if |s| >= 1 {
      ReplaceCharGone(s[1..], c, u);
    }
  }

  lemma {:induction false} ReplaceAbsent(s: string, t: string, u: string)
    requires t != [] && !Contains(s, t)
    ensures Replace(s, t, u) == s
    decreases |s|
  {
    if |s| >= |t| {
      assert !OccursAt(s, t, 0);
      if !Contains(s[1..], t) {
        ReplaceAbsent(s[1..], t, u);
      } else {
        var k :| 0 <= k <= |s[1..]| && OccursAt(s[1..], t, k);
        assert s[1..][k..k + |t|] == s[k + 1..k + 1 + |t|];
        assert OccursAt(s, t, k + 1);
        assert false;
      }
    }
  }

  lemma ConcatAssoc(a: string, b: string, c: string)
    ensures a + (b + c) == (a + b) + c
  {
  }

  /** Moving the next piece of the rest onto what has been built. */
  lemma AppendStep(whole: string, built: string, rest: string, piece: string, next: string)
    requires whole == built + rest && rest == piece + next
    ensures whole == (built + piece) + next
  {
  }

  lemma SliceExtend(s: string, i: nat, j: nat)
    requires i <= j < |s|
    ensures s[i..j] + [s[j]] == s[i..j + 1]
  {
  }

  /** No occurrence of `t` in `a + b` starts inside `a` and ends inside `b`. */
  predicate NoStraddle(a: string, b: string, t: string)
  {
    forall p :: 0 <= p < |a| < p + |t| ==> !OccursAt(a + b, t, p)
  }

  lemma NoStraddleDrop(a: string, b: string, t: string, n: nat)
    requires NoStraddle(a, b, t) && n <= |a|
    ensures NoStraddle(a[n..], b, t)
  {
    var a' := a[n..];
    assert (a + b)[n..] == a' + b;
    forall p | 0 <= p < |a'| < p + |t|
      ensures !OccursAt(a' + b, t, p)
    {
      assert !OccursAt(a + b, t, p + n);
      if p + |t| <= |a' + b| {
        assert (a' + b)[p..p + |t|] == (a + b)[p + n..p + n + |t|];
      }
    }
  }

  /** `replace` distributes over a concatenation when no occurrence of
      the pattern straddles the seam. */
  lemma {:induction false} ReplaceConcat(a: string, b: string, t: string, u: string)
    requires t != [] && NoStraddle(a, b, t)
    ensures Replace(a + b, t, u) == Replace(a, t, u) + Replace(b, t, u)
    decreases |a|
  {
    var s := a + b;
    if a == [] {
      assert s == b;
    } else if |s| < |t| {
    } else if s[..|t|] == t {
      if |a| >= |t| {
        assert a[..|t|] == t;
        assert s[|t|..] == a[|t|..] + b;
        NoStraddleDrop(a, b, t, |t|);
        ReplaceConcat(a[|t|..], b, t, u);
      } else {
        assert OccursAt(s, t, 0);
        assert false;
      }
    } else {
      assert s[1..] == a[1..] + b;
      NoStraddleDrop(a, b, t, 1);
      ReplaceConcat(a[1..], b, t, u);
      if |a| >= |t| {
        assert a[..|t|] == s[..|t|];
      }
    }
  }

  /** With a one-character pattern nothing can straddle a seam. */
  lemma ReplaceCharConcat(a: string, b: string, c: char, u: string)
    ensures Replace(a + b, [c], u) == Replace(a, [c], u) + Replace(b, [c], u)
  {
    ReplaceConcat(a, b, [c], u);
  }

  /** A pattern that holds a character the string lacks does not occur in it. */
  lemma NotContains(s: string, t: string, i: nat)
    requires i < |t| && t[i] !in s
    ensures !Contains(s, t)
  {
    forall k | 0 <= k <= |s|
      ensures !OccursAt(s, t, k)
    {
      if k + |t| <= |s| {
        assert s[k..k + |t|][i] == s[k + i];
      }
    }
  }

  /** A pattern of one or two characters straddles the seam of `a + b`
      only as `a`'s last character followed by `b`'s first. */
  lemma NoStraddleShort(a: string, b: string, t: string)
    requires 1 <= |t| <= 2 && a != []
    requires |t| == 2 ==> a[|a| - 1] != t[0] || (b != [] && b[0] != t[1])
    ensures NoStraddle(a, b, t)
  {
    if |t| == 2 {
      forall p | 0 <= p < |a| < p + |t|
        ensures !OccursAt(a + b, t, p)
      {
        assert (a + b)[p] == a[|a| - 1];
        if b != [] {
          assert (a + b)[p + 1] == b[0];
        }
      }
    }
  }

  /** The characters Java's `trim` removes: code points up to the space. */
  predicate IsTrimmable(c: char) { c <= ' ' }

  predicate IsBlank(s: string)
  {
    forall k :: 0 <= k < |s| ==> IsTrimmable(s[k])
  }

  function TrimStart(s: string): (r: string)
    ensures |r| <= |s| && r == s[|s| - |r|..]
    ensures r != [] ==> !IsTrimmable(r[0])
    ensures r == [] <==> IsBlank(s)
    decreases |s|
  {
    if s != [] && IsTrimmable(s[0]) then TrimStart(s[1..]) else s
  }

  function TrimEnd(s: string): (r: string)
    ensures |r| <= |s| && r == s[..|r|]
    ensures r != [] ==> !IsTrimmable(r[|r| - 1])
    ensures r == [] <==> IsBlank(s)
    decreases |s|
  {
    if s != [] && IsTrimmable(s[|s| - 1]) then TrimEnd(s[..|s| - 1]) else s
  }

  /** Java's `String.trim()`. */
  function Trim(s: string): (r: string)
    ensures r == [] <==> IsBlank(s)
    ensures r != [] ==> !IsTrimmable(r[0]) && !IsTrimmable(r[|r| - 1])
  {
    var t := TrimStart(s);
    assert t == [] ==> IsBlank(s);
    TrimEnd(t)
  }

  // ---------------------------------------------------------------------
  // Python `str.split`, `sep.join` and `list.remove`

  /** Python's `s.split(sep)` for a one-character separator. */
  function Split(s: string, sep: char): (r: seq<string>)
    ensures |r| >= 1
    decreases |s|
  {
    if s == [] then [[]]
    else if s[0] == sep then [[]] + Split(s[1..], sep)
    else
      var rest := Split(s[1..], sep);
      [[s[0]] + rest[0]] + rest[1..]
  }

  /** `sep.join(parts)`. */
  function Join(parts: seq<string>, sep: string): string
    decreases |parts|
  {
    if |parts| == 0 then []
    else if |parts| == 1 then parts[0]
    else parts[0] + sep + Join(parts[1..], sep)
  }

  /** Joining one more part appends the separator and the part. */
  lemma {:induction false} JoinAppend(parts: seq<string>, x: string, sep: string)
    requires |parts| >= 1
    ensures Join(parts + [x], sep) == Join(parts, sep) + sep + x
    decreases |parts|
  {
    var ps := parts + [x];
    if |parts| > 1 {
      assert ps[1..] == parts[1..] + [x];
      JoinAppend(parts[1..], x, sep);
    } else {
      assert ps[1..] == [x];
    }
  }

  /** A join starts with the first part's first character. */
  lemma JoinFirst(parts: seq<string>, sep: string)
    requires |parts| >= 1 && parts[0] != []
    ensures Join(parts, sep) != [] && Join(parts, sep)[0] == parts[0][0]
  {
  }

  /** A join ends with the last part's last character. */
  lemma {:induction false} JoinLast(parts: seq<string>, sep: string)
    requires |parts| >= 1 && parts[|parts| - 1] != []
    ensures Join(parts, sep) != [] && Join(parts, sep)[|Join(parts, sep)| - 1] == parts[|parts| - 1][|parts[|parts| - 1]| - 1]
    decreases |parts|
  {
    if |parts| > 1 {
      JoinLast(parts[1..], sep);
    }
  }

  /** A character found neither in the parts nor in the separator is not in the join. */
  lemma {:induction false} JoinCharFree(parts: seq<string>, sep: string, c: char)
    requires c !in sep && forall k :: 0 <= k < |parts| ==> c !in parts[k]
    ensures c !in Join(parts, sep)
    decreases |parts|
  {
    if |parts| > 1 {
      JoinCharFree(parts[1..], sep, c);
    }
  }

  /** `replace` of a pattern of at most two characters that no part
      contains only rewrites the separators, provided no occurrence
      straddles a part and a separator. */
  lemma {:induction false} ReplaceJoin(parts: seq<string>, sep: string, t: string, u: string)
    requires |parts| >= 1 && 1 <= |t| <= 2 && sep != []
    requires forall k :: 0 <= k < |parts| ==> parts[k] != [] && !Contains(parts[k], t)
    requires |t| == 2 ==> forall k :: 0 <= k < |parts| ==>
               parts[k][|parts[k]| - 1] != t[0] && (sep[|sep| - 1] != t[0] || parts[k][0] != t[1])
    ensures Replace(Join(parts, sep), t, u) == Join(parts, Replace(sep, t, u))
    decreases |parts|
  {
    ReplaceAbsent(parts[0], t, u);
    if |parts| > 1 {
      var rest := parts[1..];
      assert rest[0] == parts[1];
      ReplaceJoin(rest, sep, t, u);
      JoinFirst(rest, sep);
      NoStraddleShort(parts[0] + sep, Join(rest, sep), t);
      ReplaceConcat(parts[0] + sep, Join(rest, sep), t, u);
      NoStraddleShort(parts[0], sep, t);
      ReplaceConcat(parts[0], sep, t, u);
    }
  }

  /** Splitting undoes joining. */
  lemma {:induction false} JoinSplit(s: string, sep: char)
    ensures Join(Split(s, sep), [sep]) == s
    decreases |s|
  {
    if s == [] {
    } else if s[0] == sep {
      JoinSplit(s[1..], sep);
      var rest := Split(s[1..], sep);
      assert Split(s, sep) == [[]] + rest;
      assert Join(Split(s, sep), [sep]) == [] + [sep] + Join(rest, [sep]);
    } else {
      JoinSplit(s[1..], sep);
      var rest := Split(s[1..], sep);
      var r := Split(s, sep);
      assert r == [[s[0]] + rest[0]] + rest[1..];
      if |rest| == 1 {
        assert Join(r, [sep]) == [s[0]] + rest[0];
        assert Join(rest, [sep]) == rest[0];
      } else {
        assert r[1..] == rest[1..];
        assert Join(r, [sep]) == [s[0]] + rest[0] + [sep] + Join(rest[1..], [sep]);
        assert Join(rest, [sep]) == rest[0] + [sep] + Join(rest[1..], [sep]);
      }
    }
  }

  /** A string free of the separator splits into itself. */
  lemma {:induction false} SplitNoSeparator(s: string, sep: char)
    requires sep !in s
    ensures Split(s, sep) == [s]
    decreases |s|
  {
    if s != [] {
      SplitNoSeparator(s[1..], sep);
      assert [s[0]] + s[1..] == s;
    }
  }

  /** Splitting at a separator that follows a separator-free prefix. */
  lemma {:induction false} SplitAtSeparator(a: string, b: string, sep: char)
    requires sep !in a
    ensures Split(a + [sep] + b, sep) == [a] + Split(b, sep)
    decreases |a|
  {
    if a == [] {
      assert a + [sep] + b == [sep] + b;
      assert ([sep] + b)[1..] == b;
    } else {
      SplitAtSeparator(a[1..], b, sep);
      var s := a + [sep] + b;
      assert s[0] == a[0];
      assert s[1..] == a[1..] + [sep] + b;
      var rest := Split(s[1..], sep);
      assert rest == [a[1..]] + Split(b, sep);
      assert [a[0]] + a[1..] == a;
    }
  }

  /** Joining with a separator that no part contains can be undone by splitting. */
  lemma {:induction false} SplitJoin(parts: seq<string>, sep: char)
    requires |parts| >= 1
    requires forall k :: 0 <= k < |parts| ==> sep !in parts[k]
    ensures Split(Join(parts, [sep]), sep) == parts
    decreases |parts|
  {
    if |parts| == 1 {
      SplitNoSeparator(parts[0], sep);
    } else {
      SplitJoin(parts[1..], sep);
      assert Join(parts, [sep]) == parts[0] + [sep] + Join(parts[1..], [sep]);
      SplitAtSeparator(parts[0], Join(parts[1..], [sep]), sep);
      assert [parts[0]] + parts[1..] == parts;
    }
  }

  /** Index of the first `x` in `xs` (Python's `list.index`). */
  function FirstIndex<T(==)>(xs: seq<T>, x: T): (i: nat)
    requires x in xs
    ensures i < |xs| && xs[i] == x && x !in xs[..i]
    decreases |xs|
  {
    if xs[0] == x then 0
    else
      var i := FirstIndex(xs[1..], x);
      assert xs[..i + 1] == [xs[0]] + xs[1..][..i];
      i + 1
  }

  /** Python's `list.remove(x)` with the `ValueError` of a missing `x`
      turned into "nothing removed". */
  function RemoveFirst<T(==)>(xs: seq<T>, x: T): (r: seq<T>)
    ensures x !in xs ==> r == xs
    ensures x in xs ==> r == xs[..FirstIndex(xs, x)] + xs[FirstIndex(xs, x) + 1..]
    decreases |xs|
  {
    if xs == [] then []
    else if xs[0] == x then xs[1..]
    else
      var r := [xs[0]] + RemoveFirst(xs[1..], x);
      assert x in xs ==> xs[..FirstIndex(xs, x)] == [xs[0]] + xs[1..][..FirstIndex(xs[1..], x)];
      r
  }

  // ---------------------------------------------------------------------
  // Decimal numbers

  function DigitChar(d: nat): (c: char)
    requires d < 10
    ensures IsDigit(c)
  {
    ('0' as int + d) as char
  }

  function DigitValue(c: char): nat
    requires IsDigit(c)
  {
    c as int - '0' as int
  }

  /** Decimal digits of a natural number, as Java's string concatenation prints it. */
  function NatToString(n: nat): (r: string)
    ensures |r| >= 1 && AllDigits(r)
    decreases n
  {
    if n < 10 then [DigitChar(n)] else NatToString(n / 10) + [DigitChar(n % 10)]
  }

  /** Java's `"" + n` for an `int`. */
  function IntToString(n: int): (r: string)
    ensures |r| >= 1
  {
    if n < 0 then "-" + NatToString(-n) else NatToString(n)
  }

  /** The value of a string of decimal digits. */
  function DigitsValue(s: string): nat
    requires AllDigits(s)
    decreases |s|
  {
    if s == [] then 0 else DigitsValue(s[..|s| - 1]) * 10 + DigitValue(s[|s| - 1])
  }

  /** Printing a natural number and reading it back gives the number;
      there is no leading zero except for zero itself. */
  lemma {:induction false} NatToStringRoundTrip(n: nat)
    ensures DigitsValue(NatToString(n)) == n
    ensures NatToString(n)[0] == '0' ==> n == 0
    decreases n
  {
    if n >= 10 {
      NatToStringRoundTrip(n / 10);
      var s := NatToString(n);
      assert s[..|s| - 1] == NatToString(n / 10);
      assert s[0] == NatToString(n / 10)[0];
    }
  }

  /** The number of digits printed for small numbers. */
  lemma NatToStringLength(n: nat)
    ensures n < 10 ==> |NatToString(n)| == 1
    ensures 10 <= n < 100 ==> |NatToString(n)| == 2
    ensures 100 <= n < 1000 ==> |NatToString(n)| == 3
    ensures 1000 <= n < 10000 ==> |NatToString(n)| == 4
  {
    if n >= 10 {
      assert NatToString(n) == NatToString(n / 10) + [DigitChar(n % 10)];
      if n >= 100 {
        assert NatToString(n / 10) == NatToString(n / 100) + [DigitChar((n / 10) % 10)];
        if n >= 1000 {
          assert NatToString(n / 100) == NatToString(n / 1000) + [DigitChar((n / 100) % 10)];
        }
      }
    }
  }

  /** Java's `Integer.parseInt` on a string without a sign character:
      it succeeds exactly on a non-empty run of ASCII digits whose value
      fits in 32 bits. */
  function ParseInt32(s: string): (r: Option<int>)
    ensures r.Some? <==> s != [] && AllDigits(s) && DigitsValue(s) <= MaxInt32
    ensures r.Some? ==> r.value == DigitsValue(s)
  {
    if s != [] && AllDigits(s) && DigitsValue(s) <= MaxInt32 then Some(DigitsValue(s)) else None
  }

  /** A printed natural number that fits in 32 bits parses back. */
  lemma ParsePrinted(n: nat)
    requires n <= MaxInt32
    ensures ParseInt32(NatToString(n)) == Some(n)
  {
    NatToStringRoundTrip(n);
  }
}
