/** The Python string builtins the modelled code relies on, written out on
    `seq<char>`: `isspace`, `strip`, `lower`/`upper`, `isalpha`, the `in`
    substring test, `count`, `find`, `replace`, `split` and `join`. */
module Text {

  // ---------------------------------------------------------------------------
  // Whitespace and strip()
  // ---------------------------------------------------------------------------

  /** Python's `str.isspace()` for a single character. */
  predicate IsSpace(c: char)
  {
    c == ' ' || '\t' <= c <= '\r' || '\U{1C}' <= c <= '\U{1F}'
    || c == '\U{85}' || c == '\U{A0}' || c == '\U{1680}'
    || '\U{2000}' <= c <= '\U{200A}' || c == '\U{2028}' || c == '\U{2029}'
    || c == '\U{202F}' || c == '\U{205F}' || c == '\U{3000}'
  }

  /** Every character is whitespace; the empty string is blank. */
  predicate IsBlank(s: string)
  {
    forall i :: 0 <= i < |s| ==> IsSpace(s[i])
  }

  /** No character is whitespace. */
  predicate NoSpace(s: string)
  {
    forall i :: 0 <= i < |s| ==> !IsSpace(s[i])
  }

  /** Neither end of `s` is whitespace: `strip()` leaves it alone. */
  predicate IsStripped(s: string)
  {
    s == [] || (!IsSpace(s[0]) && !IsSpace(s[|s| - 1]))
  }

  function TrimStart(s: string): (r: string)
    ensures |r| <= |s| && r == s[|s| - |r|..]
    ensures IsBlank(s[..|s| - |r|])
    ensures r != [] ==> !IsSpace(r[0])
    decreases |s|
  {
    if s != [] && IsSpace(s[0]) then
      var r := TrimStart(s[1..]);
      BlankPrefixStep(s, |s| - |r|);
      r
    else s
  }

  lemma BlankPrefixStep(s: string, k: nat)
    requires 1 <= k <= |s| && IsSpace(s[0]) && IsBlank(s[1..][..k - 1])
    ensures IsBlank(s[..k])
  {
    forall i | 1 <= i < k
      ensures IsSpace(s[..k][i])
    {
      assert s[..k][i] == s[1..][..k - 1][i - 1];
    }
  }

  lemma BlankSuffixStep(s: string, k: nat)
    requires k < |s| && IsSpace(s[|s| - 1]) && IsBlank(s[..|s| - 1][k..])
    ensures IsBlank(s[k..])
  {
    forall i | 0 <= i < |s| - k - 1
      ensures IsSpace(s[k..][i])
    {
      assert s[k..][i] == s[..|s| - 1][k..][i];
    }
  }

  function TrimEnd(s: string): (r: string)
    ensures |r| <= |s| && r == s[..|r|]
    ensures IsBlank(s[|r|..])
    ensures r != [] ==> !IsSpace(r[|r| - 1])
    decreases |s|
  {
    if s != [] && IsSpace(s[|s| - 1]) then
      var r := TrimEnd(s[..|s| - 1]);
      BlankSuffixStep(s, |r|);
      r
    else s
  }

  /** Python's `str.strip()` with no argument. */
  function Strip(s: string): (r: string)
    ensures |r| <= |s|
    ensures IsStripped(r)
    ensures r == [] <==> IsBlank(s)
  {
    var t := TrimStart(s);
    var r := TrimEnd(t);
    TrimmedEnds(s, t, r);
    r
  }

  /** Stripping keeps one contiguous slice of the input and drops only
      whitespace on either side of it. */
  lemma StripIsSlice(s: string)
    ensures exists i, j :: 0 <= i <= j <= |s| && Strip(s) == s[i..j] && IsBlank(s[..i]) && IsBlank(s[j..])
  {
    var t := TrimStart(s);
    var r := TrimEnd(t);
    var i := |s| - |t|;
    var j := i + |r|;
    assert s[i..j] == t[..|r|];
    assert s[j..] == t[|r|..];
  }

  /** Every character of the stripped string comes from the input. */
  lemma StripChars(s: string)
    ensures forall c :: c in Strip(s) ==> c in s
  {
    TrimmedChars(s, TrimStart(s), Strip(s));
  }

  lemma TrimmedEnds(s: string, t: string, r: string)
    requires t == TrimStart(s) && r == TrimEnd(t)
    ensures IsStripped(r)
    ensures r == [] <==> IsBlank(s)
  {
    TrimmedBlank(s, t, r);
  }

  lemma TrimmedChars(s: string, t: string, r: string)
    requires t == TrimStart(s) && r == TrimEnd(t)
    ensures forall c :: c in r ==> c in s
  {
    PrefixChars(t, |r|);
    SuffixChars(s, |s| - |t|);
  }

  lemma TrimmedBlank(s: string, t: string, r: string)
    requires t == TrimStart(s) && r == TrimEnd(t)
    ensures r == [] <==> IsBlank(s)
  {
    var k := |s| - |t|;
    if r == [] {
      assert t[0..] == t;
      assert t == [];
      assert s[..|s|] == s;
    } else {
      assert t != [] && !IsSpace(t[0]) && t[0] == s[k];
    }
  }

  lemma {:induction false} StripStripped(s: string)
    requires IsStripped(s)
    ensures Strip(s) == s
  {
  }

  lemma StripIdempotent(s: string)
    ensures Strip(Strip(s)) == Strip(s)
  {
    StripStripped(Strip(s));
  }

  /** `[x.strip() for x in xs]`. */
  function StripEach(xs: seq<string>): (r: seq<string>)
    ensures |r| == |xs| && forall i :: 0 <= i < |xs| ==> r[i] == Strip(xs[i])
  {
    seq(|xs|, i requires 0 <= i < |xs| => Strip(xs[i]))
  }

  /** Strips every piece and keeps the non-empty ones:
      `[p.strip() for p in pieces if p.strip()]`. */
  function StrippedNonEmpty(pieces: seq<string>): (r: seq<string>)
    ensures |r| <= |pieces|
  {
    if pieces == [] then []
    else
      var s := Strip(pieces[0]);
      var rest := StrippedNonEmpty(pieces[1..]);
      if s != [] then [s] + rest else rest
  }

  lemma {:induction false} StrippedNonEmptyShape(pieces: seq<string>)
    ensures forall i :: 0 <= i < |StrippedNonEmpty(pieces)| ==>
              StrippedNonEmpty(pieces)[i] != [] && IsStripped(StrippedNonEmpty(pieces)[i])
  {
    if pieces != [] {
      var s, rest := Strip(pieces[0]), StrippedNonEmpty(pieces[1..]);
      StrippedNonEmptyShape(pieces[1..]);
      if s != [] {
        assert StrippedNonEmpty(pieces) == [s] + rest;
        forall i | 0 <= i < |[s] + rest|
          ensures ([s] + rest)[i] != [] && IsStripped(([s] + rest)[i])
        {
          if i > 0 {
            assert ([s] + rest)[i] == rest[i - 1];
          }
        }
      } else {
        assert StrippedNonEmpty(pieces) == rest;
      }
    }
  }

  /** Pieces that are already stripped and non-empty are all kept as they are. */
  lemma {:induction false} StrippedNonEmptyKeeps(pieces: seq<string>)
    requires forall i :: 0 <= i < |pieces| ==> pieces[i] != [] && IsStripped(pieces[i])
    ensures StrippedNonEmpty(pieces) == pieces
  {
    if pieces != [] {
      StripStripped(pieces[0]);
      StrippedNonEmptyKeeps(pieces[1..]);
      assert pieces == [pieces[0]] + pieces[1..];
    }
  }

  /** A character absent from every piece is absent from every result. */
  lemma {:induction false} StrippedNonEmptyAvoids(pieces: seq<string>, c: char)
    requires forall i :: 0 <= i < |pieces| ==> c !in pieces[i]
    ensures forall i :: 0 <= i < |StrippedNonEmpty(pieces)| ==> c !in StrippedNonEmpty(pieces)[i]
  {
    if pieces != [] {
      var s, rest := Strip(pieces[0]), StrippedNonEmpty(pieces[1..]);
      assert forall i :: 0 <= i < |pieces[1..]| ==> c !in pieces[1..][i] by {
        forall i | 0 <= i < |pieces[1..]| ensures c !in pieces[1..][i] {
          assert pieces[1..][i] == pieces[i + 1];
        }
      }
      StrippedNonEmptyAvoids(pieces[1..], c);
      if s != [] {
        assert c !in pieces[0];
        assert StrippedNonEmpty(pieces) == [s] + rest;
        forall i | 0 <= i < |[s] + rest|
          ensures c !in ([s] + rest)[i]
        {
          if i > 0 {
            assert ([s] + rest)[i] == rest[i - 1];
          }
        }
      } else {
        assert StrippedNonEmpty(pieces) == rest;
      }
    }
  }


  // ---------------------------------------------------------------------------
  // lower(), upper(), isalpha() on the ASCII letters
  // ---------------------------------------------------------------------------

  function LowerChar(c: char): char
  {
    if 'A' <= c <= 'Z' then (c as int + 32) as char else c
  }

  function UpperChar(c: char): char
  {
    if 'a' <= c <= 'z' then (c as int - 32) as char else c
  }

  /** `str.lower()`: maps A..Z to a..z, every other character unchanged. */
  function Lower(s: string): (r: string)
  {
    seq(|s|, i requires 0 <= i < |s| => LowerChar(s[i]))
  }

  /** `str.upper()`: maps a..z to A..Z, every other character unchanged. */
  function Upper(s: string): (r: string)
  {
    seq(|s|, i requires 0 <= i < |s| => UpperChar(s[i]))
  }

  predicate IsAlphaChar(c: char)
  {
    'a' <= c <= 'z' || 'A' <= c <= 'Z'
  }

  /** `str.isalpha()`: non-empty and made of letters only. */
  predicate IsAlpha(s: string)
  {
    s != [] && forall i :: 0 <= i < |s| ==> IsAlphaChar(s[i])
  }

  lemma LowerAppend(a: string, b: string)
    ensures Lower(a + b) == Lower(a) + Lower(b)
  {
  }

  lemma LowerIdempotent(s: string)
    ensures Lower(Lower(s)) == Lower(s)
  {
  }

  // ---------------------------------------------------------------------------
  // The `in` test, count() and find()
  // ---------------------------------------------------------------------------

  /** `sub` occurs in `s` starting at index `i`. */
  predicate OccursAt(sub: string, s: string, i: int)
  {
    0 <= i && i + |sub| <= |s| && s[i..i + |sub|] == sub
  }

  /** Python's `sub in s` for strings; the empty string occurs in every string. */
  predicate IsSubstring(sub: string, s: string)
  {
    exists i :: 0 <= i <= |s| - |sub| && OccursAt(sub, s, i)
  }

  lemma EmptyIsSubstring(s: string)
    ensures IsSubstring([], s)
  {
    assert OccursAt([], s, 0);
  }

  lemma CharSubstring(c: char, s: string)
    ensures IsSubstring([c], s) <==> c in s
  {
    if c in s {
      var i :| 0 <= i < |s| && s[i] == c;
      assert OccursAt([c], s, i);
    }
    if IsSubstring([c], s) {
      var i :| 0 <= i <= |s| - 1 && OccursAt([c], s, i);
      assert s[i] == s[i..i + 1][0];
    }
  }

  lemma SubstringOfLarger(sub: string, s: string, pre: string, post: string)
    requires IsSubstring(sub, s)
    ensures IsSubstring(sub, pre + s + post)
  {
    var i :| 0 <= i <= |s| - |sub| && OccursAt(sub, s, i);
    assert (pre + s + post)[|pre| + i..|pre| + i + |sub|] == s[i..i + |sub|];
    assert OccursAt(sub, pre + s + post, |pre| + i);
  }

  /** Python's `s.count(sub)`: non-overlapping occurrences scanned from the
      left; an empty `sub` is counted at every one of the |s| + 1 positions. */
  function Count(s: string, sub: string): (n: nat)
    ensures n > 0 <==> IsSubstring(sub, s)
    decreases |s|
  {
    if sub == [] then
      EmptyIsSubstring(s);
      |s| + 1
    else if |s| < |sub| then
      0
    else if sub <= s then
      assert OccursAt(sub, s, 0);
      1 + Count(s[|sub|..], sub)
    else
      var n := Count(s[1..], sub);
      ShiftSubstring(sub, s);
      n
  }

  lemma ShiftSubstring(sub: string, s: string)
    requires s != [] && sub != [] && !(sub <= s)
    ensures IsSubstring(sub, s) <==> IsSubstring(sub, s[1..])
  {
    assert !OccursAt(sub, s, 0) by {
      if |sub| <= |s| { assert s[0..|sub|] == s[..|sub|]; }
    }
    if IsSubstring(sub, s) {
      var i :| 0 <= i <= |s| - |sub| && OccursAt(sub, s, i);
      assert s[1..][i - 1..i - 1 + |sub|] == s[i..i + |sub|];
      assert OccursAt(sub, s[1..], i - 1);
    }
    if IsSubstring(sub, s[1..]) {
      var i :| 0 <= i <= |s[1..]| - |sub| && OccursAt(sub, s[1..], i);
      assert s[i + 1..i + 1 + |sub|] == s[1..][i..i + |sub|];
      assert OccursAt(sub, s, i + 1);
    }
  }

  /** Python's `s.find(sub, start)`: the lowest index at or after `start`
      where `sub` occurs, or -1. */
  function FindFrom(s: string, sub: string, start: nat): (r: int)
    ensures r == -1 || (start <= r && r + |sub| <= |s|)
    decreases |s| - start
  {
    if start + |sub| > |s| then -1
    else if s[start..start + |sub|] == sub then start
    else FindFrom(s, sub, start + 1)
  }

  /** find() returns an occurrence, and the first one at or after `start`. */
  lemma {:induction false} FindFromFirst(s: string, sub: string, start: nat)
    ensures var r := FindFrom(s, sub, start);
            (r == -1 || OccursAt(sub, s, r))
            && (r == -1 ==> forall i :: start <= i ==> !OccursAt(sub, s, i))
            && (r != -1 ==> forall i :: start <= i < r ==> !OccursAt(sub, s, i))
    decreases |s| - start
  {
    if start + |sub| <= |s| && s[start..start + |sub|] != sub {
      FindFromFirst(s, sub, start + 1);
    }
  }

  /** Python's `s.replace(old, new, 1)`. */
  function ReplaceFirst(s: string, target: string, replacement: string): (r: string)
  {
    var i := FindFrom(s, target, 0);
    if i < 0 then s else s[..i] + replacement + s[i + |target|..]
  }

  /** Python's `s.replace(a, b)` for single characters `a` and `b`. */
  function ReplaceChar(s: string, a: char, b: char): (r: string)
  {
    seq(|s|, i requires 0 <= i < |s| => if s[i] == a then b else s[i])
  }

  // ---------------------------------------------------------------------------
  // split(sep), split() and join()
  // ---------------------------------------------------------------------------

  /** Python's `s.split(d)` for a one-character separator `d`. */
  function SplitOn(s: string, d: char): (r: seq<string>)
    ensures |r| >= 1
    ensures forall i :: 0 <= i < |r| ==> d !in r[i]
    decreases |s|
  {
    if s == [] then [[]]
    else
      var rest := SplitOn(s[1..], d);
      if s[0] == d then [[]] + rest
      else [[s[0]] + rest[0]] + rest[1..]
  }

  /** Python's `sep.join(xs)`. */
  function Join(sep: string, xs: seq<string>): string
  {
    if |xs| == 0 then []
    else if |xs| == 1 then xs[0]
    else xs[0] + sep + Join(sep, xs[1..])
  }

  /** Python's `"".join(xs)`. */
  function Concat(xs: seq<string>): string
  {
    if xs == [] then [] else xs[0] + Concat(xs[1..])
  }

  lemma {:induction false} ConcatAppend(a: seq<string>, b: seq<string>)
    ensures Concat(a + b) == Concat(a) + Concat(b)
  {
    if a != [] {
      assert (a + b)[1..] == a[1..] + b;
      ConcatAppend(a[1..], b);
    } else {
      assert a + b == b;
    }
  }

  lemma {:induction false} SplitOnCount(s: string, d: char)
    ensures |SplitOn(s, d)| == multiset(s)[d] + 1
    decreases |s|
  {
    if s != [] {
      SplitOnCount(s[1..], d);
      assert s == [s[0]] + s[1..];
      assert multiset(s) == multiset([s[0]]) + multiset(s[1..]);
    }
  }

  lemma {:induction false} JoinSplitOn(s: string, d: char)
    ensures Join([d], SplitOn(s, d)) == s
    decreases |s|
  {
    if s != [] {
      var rest := SplitOn(s[1..], d);
      JoinSplitOn(s[1..], d);
      if s[0] == d {
        assert Join([d], [[]] + rest) == [] + [d] + Join([d], rest) by {
          assert ([[]] + rest)[1..] == rest;
        }
      } else if |rest| == 1 {
        assert SplitOn(s, d) == [[s[0]] + rest[0]];
      } else {
        var r := SplitOn(s, d);
        assert r[1..] == rest[1..];
        assert Join([d], rest) == rest[0] + [d] + Join([d], rest[1..]);
      }
    }
  }

  lemma {:induction false} SplitOnFree(s: string, d: char)
    requires d !in s
    ensures SplitOn(s, d) == [s]
    decreases |s|
  {
    if s != [] {
      SplitOnFree(s[1..], d);
      assert s[0] != d;
      assert [s[0]] + s[1..] == s;
    }
  }

  lemma {:induction false} SplitOnAfterField(x: string, t: string, d: char)
    requires d !in x
    ensures SplitOn(x + [d] + t, d) == [x] + SplitOn(t, d)
    decreases |x|
  {
    if x == [] {
      assert x + [d] + t == [d] + t;
      assert ([d] + t)[1..] == t;
    } else {
      assert (x + [d] + t)[1..] == x[1..] + [d] + t;
      SplitOnAfterField(x[1..], t, d);
      assert x[0] != d;
      assert [x[0]] + x[1..] == x;
    }
  }

  /** Splitting a join of separator-free fields gives the fields back. */
  lemma {:induction false} SplitOnJoin(xs: seq<string>, d: char)
    requires |xs| >= 1
    requires forall i :: 0 <= i < |xs| ==> d !in xs[i]
    ensures SplitOn(Join([d], xs), d) == xs
    decreases |xs|
  {
    if |xs| == 1 {
      SplitOnFree(xs[0], d);
    } else {
      SplitOnJoin(xs[1..], d);
      SplitOnAfterField(xs[0], Join([d], xs[1..]), d);
      assert xs == [xs[0]] + xs[1..];
    }
  }

  /** The leading run of non-whitespace characters. */
  function Span(s: string): (w: string)
    ensures w <= s && NoSpace(w)
    ensures |w| < |s| ==> IsSpace(s[|w|])
  {
    if s != [] && !IsSpace(s[0]) then [s[0]] + Span(s[1..]) else []
  }

  /** Python's `s.split()`: the maximal runs of non-whitespace characters. */
  function Words(s: string): (r: seq<string>)
    ensures forall i :: 0 <= i < |r| ==> r[i] != [] && NoSpace(r[i])
    ensures r == [] <==> IsBlank(s)
    decreases |s|
  {
    if s == [] then []
    else if IsSpace(s[0]) then
      var r := Words(s[1..]);
      BlankAfterSpace(s);
      r
    else
      var w := Span(s);
      [w] + Words(s[|w|..])
  }

  /** Every character of every word comes from the input. */
  lemma {:induction false} WordsChars(s: string)
    ensures forall i, c :: 0 <= i < |Words(s)| && c in Words(s)[i] ==> c in s
    decreases |s|
  {
    if s == [] {
    } else if IsSpace(s[0]) {
      WordsChars(s[1..]);
      SuffixChars(s, 1);
    } else {
      var w := Span(s);
      WordsChars(s[|w|..]);
      SuffixChars(s, |w|);
      PrefixChars(s, |w|);
    }
  }

  lemma BlankAfterSpace(s: string)
    requires s != [] && IsSpace(s[0])
    ensures IsBlank(s) <==> IsBlank(s[1..])
  {
    assert forall i :: 1 <= i < |s| ==> s[i] == s[1..][i - 1];
  }

  lemma SuffixChars(s: string, k: nat)
    requires k <= |s|
    ensures forall c :: c in s[k..] ==> c in s
  {
    forall c | c in s[k..]
      ensures c in s
    {
      var i :| 0 <= i < |s| - k && s[k..][i] == c;
      assert s[k + i] == c;
    }
  }

  lemma PrefixChars(s: string, k: nat)
    requires k <= |s|
    ensures forall c :: c in s[..k] ==> c in s
  {
    forall c | c in s[..k]
      ensures c in s
    {
      var i :| 0 <= i < k && s[..k][i] == c;
      assert s[i] == c;
    }
  }
}
