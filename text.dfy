/** The handful of Python `str` operations the engine is built from: the whitespace
    test shared by `str.isspace`, `str.strip` and the `\s` class of `re`, `str.lower`,
    `str.strip`, `str.split` with a one-character separator, `str.join`, and the
    decimal formatting used in the `f"Symptom_{i}"` column names. */
module Text {

  /** Python's whitespace test (`Py_UNICODE_ISSPACE`): the ASCII controls TAB..CR and
      FS..US, the space, and the Unicode separators. `str.isspace`, `str.strip()` and
      `re`'s `\s` on `str` all use this one set. */
  predicate IsSpace(c: char) {
    || ('\t' <= c <= '\r')
    || ('\U{1C}' <= c <= ' ')
    || c == '\U{85}' || c == '\U{A0}' || c == '\U{1680}'
    || ('\U{2000}' <= c <= '\U{200A}')
    || c == '\U{2028}' || c == '\U{2029}' || c == '\U{202F}' || c == '\U{205F}'
    || c == '\U{3000}'
  }

  predicate IsAsciiLower(c: char) {
    'a' <= c <= 'z'
  }

  predicate IsAsciiUpper(c: char) {
    'A' <= c <= 'Z'
  }

  /** `str.lower` on one character. ASCII capitals map to their small letters;
      U+0130 (capital I with dot above) lowers to "i" followed by U+0307, and U+212A
      (the Kelvin sign) to "k": these two are the only characters outside ASCII whose
      lower-case form contains an ASCII letter. Every other character is kept. */
  function LowerChar(c: char): (r: string)
    ensures forall d <- r :: !IsAsciiUpper(d)
    ensures IsAsciiUpper(c) ==> r == [(c as int + 32) as char]
    ensures c != '\U{130}' ==> |r| == 1
    ensures c == '\U{212A}' ==> r == ['k']
    ensures !IsAsciiUpper(c) && c != '\U{130}' && c != '\U{212A}' ==> r == [c]
  {
    if IsAsciiUpper(c) then [(c as int + 32) as char]
    else if c == '\U{130}' then ['i', '\U{307}']
    else if c == '\U{212A}' then ['k']
    else [c]
  }

  /** `str.lower`, character by character. Apart from U+0130, which lowers to two
      characters, every character becomes exactly one, in place. */
  function Lower(s: string): (r: string)
    ensures forall d <- r :: !IsAsciiUpper(d)
    ensures '\U{130}' !in s ==> |r| == |s| && forall k :: 0 <= k < |s| ==> [r[k]] == LowerChar(s[k])
  {
    if s == [] then [] else LowerChar(s[0]) + Lower(s[1..])
  }

  /** A string made only of small ASCII letters and spaces is its own lower-case form. */
  lemma {:induction false} LowerKeepsLettersAndSpaces(s: string)
    requires forall c <- s :: IsAsciiLower(c) || c == ' '
    ensures Lower(s) == s
  {
    if s != [] {
      LowerKeepsLettersAndSpaces(s[1..]);
      assert s[0] in s;
      assert LowerChar(s[0]) == [s[0]];
      assert s == [s[0]] + s[1..];
    }
  }

  /** `str.lower` of a string that starts with `c`. */
  lemma LowerCons(c: char, s: string)
    ensures Lower([c] + s) == LowerChar(c) + Lower(s)
  {
    assert ([c] + s)[1..] == s;
  }

  /** The ends of a chain of equal strings are equal. Used as a lemma of its own, it
      spares the solver from comparing the strings character by character. */
  lemma SameAs(a: string, b: string, c: string, d: string)
    requires a == b && b == c && d == c
    ensures a == d
  {
  }

  /** Regrouping the pieces around a one-character joint. */
  lemma Regroup(x1: string, wx: string, c: char, wy: string, y1: string)
    ensures (x1 + wx) + [c] + (wy + y1) == x1 + (wx + [c] + wy) + y1
  {
  }

  /** Concatenation is associative. */
  lemma ConcatAssoc(x: string, y: string, z: string)
    ensures x + (y + z) == (x + y) + z
  {
  }

  /** `str.lower` works character by character, so it distributes over concatenation. */
  lemma {:induction false} LowerConcat(a: string, b: string)
    ensures Lower(a + b) == Lower(a) + Lower(b)
  {
    if a == [] {
      assert a + b == b;
    } else {
      var c, rest := a[0], a[1..];
      assert a == [c] + rest;
      ConcatAssoc([c], rest, b);
      LowerCons(c, rest + b);
      LowerCons(c, rest);
      LowerConcat(rest, b);
      ConcatAssoc(LowerChar(c), Lower(rest), Lower(b));
    }
  }

  /** The number of whitespace characters `str.lstrip` removes. */
  function LeadingSpaces(s: string): (n: nat)
    ensures n <= |s|
    ensures forall k :: 0 <= k < n ==> IsSpace(s[k])
    ensures n < |s| ==> !IsSpace(s[n])
  {
    if s == [] || !IsSpace(s[0]) then 0 else 1 + LeadingSpaces(s[1..])
  }

  /** The number of whitespace characters `str.rstrip` removes. */
  function TrailingSpaces(s: string): (n: nat)
    ensures n <= |s|
    ensures forall k :: |s| - n <= k < |s| ==> IsSpace(s[k])
    ensures n < |s| ==> !IsSpace(s[|s| - 1 - n])
  {
    if s == [] || !IsSpace(s[|s| - 1]) then 0 else 1 + TrailingSpaces(s[..|s| - 1])
  }

  /** `str.strip()`: the input without its leading and trailing whitespace. The result
      is empty exactly when the input is all whitespace, and otherwise starts and ends
      with a character that is not whitespace. */
  function Strip(s: string): (r: string)
    ensures |r| <= |s|
    ensures r == [] <==> forall k :: 0 <= k < |s| ==> IsSpace(s[k])
    ensures r != [] ==> !IsSpace(r[0]) && !IsSpace(r[|r| - 1])
    ensures LeadingSpaces(s) + |r| <= |s| && r == s[LeadingSpaces(s)..LeadingSpaces(s) + |r|]
    ensures forall k :: LeadingSpaces(s) + |r| <= k < |s| ==> IsSpace(s[k])
  {
    var i := LeadingSpaces(s);
    if i == |s| then []
    else
      var n := TrailingSpaces(s);
      assert !IsSpace(s[i]);
      s[i..|s| - n]
  }

  /** A character missing from the input is missing from its `strip()`. */
  lemma StripAvoids(s: string, c: char)
    requires c !in s
    ensures c !in Strip(s)
  {
  }

  /** A string that neither starts nor ends with whitespace is its own `strip()`. */
  lemma StripKeepsTrimmed(s: string)
    requires s != [] ==> !IsSpace(s[0]) && !IsSpace(s[|s| - 1])
    ensures Strip(s) == s
  {
  }

  /** `LeadingSpaces` is the index of the first character that is not whitespace, or
      the length when there is none. */
  lemma {:induction false} LeadingSpacesIs(s: string, n: nat)
    requires n <= |s|
    requires forall k :: 0 <= k < n ==> IsSpace(s[k])
    requires n < |s| ==> !IsSpace(s[n])
    ensures LeadingSpaces(s) == n
  {
    if n > 0 {
      assert IsSpace(s[0]);
      LeadingSpacesIs(s[1..], n - 1);
    }
  }

  /** `strip()` keeps exactly the stretch `s[i..j]` when only whitespace lies outside
      it and, unless it is empty, it starts and ends with a character that is not. */
  lemma StripIs(s: string, i: nat, j: nat)
    requires i <= j <= |s|
    requires forall k :: 0 <= k < i ==> IsSpace(s[k])
    requires forall k :: j <= k < |s| ==> IsSpace(s[k])
    requires i < j ==> !IsSpace(s[i]) && !IsSpace(s[j - 1])
    ensures Strip(s) == s[i..j]
  {
    var r := Strip(s);
    if i < j {
      LeadingSpacesIs(s, i);
      var e := i + |r|;
      assert r != [] && r[|r| - 1] == s[e - 1];
      assert e - 1 < j;
      assert j - 1 < e;
    }
  }

  /** A slice of the left part of a concatenation. */
  lemma SliceOfLeft(p: string, q: string, i: nat, j: nat)
    requires i <= j <= |p|
    ensures (p + q)[i..j] == p[i..j]
  {
  }

  /** A slice of the right part of a concatenation. */
  lemma SliceOfRight(p: string, q: string, i: nat, j: nat)
    requires i <= j <= |q|
    ensures (p + q)[|p| + i..|p| + j] == q[i..j]
  {
  }

  /** A slice across a one-character joint. */
  lemma SliceAcross(p: string, c: char, q: string, i: nat, j: nat)
    requires i <= |p| && j <= |q|
    ensures (p + [c] + q)[i..|p| + 1 + j] == p[i..|p|] + [c] + q[0..j]
  {
  }

  /** `strip()` of `x` followed by whitespace keeps `x[i..j]` when that is the stretch
      of `x` with only whitespace outside it and none at its ends. */
  lemma StripBeforeSpaces(x: string, v: string, i: nat, j: nat)
    requires forall k :: 0 <= k < |v| ==> IsSpace(v[k])
    requires i <= j <= |x|
    requires forall k :: 0 <= k < i ==> IsSpace(x[k])
    requires forall k :: j <= k < |x| ==> IsSpace(x[k])
    requires i < j ==> !IsSpace(x[i]) && !IsSpace(x[j - 1])
    ensures Strip(x + v) == x[i..j]
  {
    var s := x + v;
    forall k | 0 <= k < i
      ensures IsSpace(s[k])
    {
      assert s[k] == x[k];
    }
    forall k | j <= k < |s|
      ensures IsSpace(s[k])
    {
      assert k < |x| ==> s[k] == x[k];
      assert k >= |x| ==> s[k] == v[k - |x|];
    }
    assert i < j ==> s[i] == x[i] && s[j - 1] == x[j - 1];
    StripIs(s, i, j);
    SliceOfLeft(x, v, i, j);
  }

  /** `strip()` of `x` after whitespace keeps `x[i..j]` when that is the stretch of `x`
      with only whitespace outside it and none at its ends. */
  lemma StripAfterSpaces(u: string, x: string, i: nat, j: nat)
    requires forall k :: 0 <= k < |u| ==> IsSpace(u[k])
    requires i <= j <= |x|
    requires forall k :: 0 <= k < i ==> IsSpace(x[k])
    requires forall k :: j <= k < |x| ==> IsSpace(x[k])
    requires i < j ==> !IsSpace(x[i]) && !IsSpace(x[j - 1])
    ensures Strip(u + x) == x[i..j]
  {
    var s := u + x;
    forall k | 0 <= k < |u| + i
      ensures IsSpace(s[k])
    {
      assert k < |u| ==> s[k] == u[k];
      assert k >= |u| ==> s[k] == x[k - |u|];
    }
    forall k | |u| + j <= k < |s|
      ensures IsSpace(s[k])
    {
      assert s[k] == x[k - |u|];
    }
    assert i < j ==> s[|u| + i] == x[i] && s[|u| + j - 1] == x[j - 1];
    StripIs(s, |u| + i, |u| + j);
    SliceOfRight(u, x, i, j);
  }

  /** Whitespace after `x` does not change its `strip()`, shown from the stretch
      `x[i..j]` that `strip()` keeps of `x`. */
  lemma StripPaddedRight(x: string, v: string, i: nat, j: nat)
    requires forall k :: 0 <= k < |v| ==> IsSpace(v[k])
    requires i <= j <= |x|
    requires forall k :: 0 <= k < i ==> IsSpace(x[k])
    requires forall k :: j <= k < |x| ==> IsSpace(x[k])
    requires i < j ==> !IsSpace(x[i]) && !IsSpace(x[j - 1])
    ensures Strip(x + v) == Strip(x)
  {
    StripBeforeSpaces(x, v, i, j);
    StripIs(x, i, j);
    SameAs(Strip(x + v), x[i..j], x[i..j], Strip(x));
  }

  /** Whitespace before `x` does not change its `strip()`, shown from the stretch
      `x[i..j]` that `strip()` keeps of `x`. */
  lemma StripPaddedLeft(u: string, x: string, i: nat, j: nat)
    requires forall k :: 0 <= k < |u| ==> IsSpace(u[k])
    requires i <= j <= |x|
    requires forall k :: 0 <= k < i ==> IsSpace(x[k])
    requires forall k :: j <= k < |x| ==> IsSpace(x[k])
    requires i < j ==> !IsSpace(x[i]) && !IsSpace(x[j - 1])
    ensures Strip(u + x) == Strip(x)
  {
    StripAfterSpaces(u, x, i, j);
    StripIs(x, i, j);
    SameAs(Strip(u + x), x[i..j], x[i..j], Strip(x));
  }

  /** Whitespace after the text does not change its `strip()`. */
  lemma StripTrailingRun(p: string, w: string)
    requires forall k :: 0 <= k < |w| ==> IsSpace(w[k])
    ensures Strip(p + w) == Strip(p)
  {
    var i, r := LeadingSpaces(p), Strip(p);
    assert r != [] ==> r[0] == p[i] && r[|r| - 1] == p[i + |r| - 1];
    StripPaddedRight(p, w, i, i + |r|);
  }

  /** Whitespace before the text does not change its `strip()`. */
  lemma StripLeadingRun(w: string, q: string)
    requires forall k :: 0 <= k < |w| ==> IsSpace(w[k])
    ensures Strip(w + q) == Strip(q)
  {
    var i, r := LeadingSpaces(q), Strip(q);
    assert r != [] ==> r[0] == q[i] && r[|r| - 1] == q[i + |r| - 1];
    StripPaddedLeft(w, q, i, i + |r|);
  }

  /** `strip()` of text with one space in it, when exactly the stretch from `p[i]` to
      `q[n - 1]` is free of whitespace at both ends. */
  lemma StripAcross(p: string, q: string, i: nat, n: nat)
    requires i < |p| && 0 < n <= |q|
    requires forall k :: 0 <= k < i ==> IsSpace(p[k])
    requires forall k :: n <= k < |q| ==> IsSpace(q[k])
    requires !IsSpace(p[i]) && !IsSpace(q[n - 1])
    ensures Strip(p + [' '] + q) == p[i..|p|] + [' '] + q[0..n]
  {
    var s := p + [' '] + q;
    var j := |p| + 1 + n;
    forall k | 0 <= k < i
      ensures IsSpace(s[k])
    {
      assert s[k] == p[k];
    }
    forall k | j <= k < |s|
      ensures IsSpace(s[k])
    {
      assert s[k] == q[k - |p| - 1];
    }
    assert s[i] == p[i] && s[j - 1] == q[n - 1];
    StripIs(s, i, j);
    SliceAcross(p, ' ', q, i, n);
  }

  /** One space between a part that does not end with whitespace and one that does
      not start with it survives `strip()`, which strips each part on its own. */
  lemma StripAroundSpace(p: string, q: string)
    requires p != [] && !IsSpace(p[|p| - 1])
    requires q != [] && !IsSpace(q[0])
    ensures Strip(p + [' '] + q) == Strip(p) + [' '] + Strip(q)
  {
    var i := LeadingSpaces(p);
    var n := |Strip(q)|;
    StripIs(p, i, |p|);
    StripIs(q, 0, n);
    StripAcross(p, q, i, n);
  }

  /** Two runs of whitespace joined by a whitespace character are one run. */
  lemma JoinedRun(wx: string, c: char, wy: string)
    requires IsSpace(c)
    requires forall k :: 0 <= k < |wx| ==> IsSpace(wx[k])
    requires forall k :: 0 <= k < |wy| ==> IsSpace(wy[k])
    ensures forall k :: 0 <= k < |wx + [c] + wy| ==> IsSpace((wx + [c] + wy)[k])
  {
    var w := wx + [c] + wy;
    forall k | 0 <= k < |w|
      ensures IsSpace(w[k])
    {
      if k < |wx| {
        assert w[k] == wx[k];
      } else if k > |wx| {
        assert w[k] == wy[k - |wx| - 1];
      }
    }
  }

  /** `s.split(sep)` for a one-character separator: the pieces between separators,
      always at least one, none containing the separator. */
  function Split(s: string, sep: char): (parts: seq<string>)
    ensures |parts| >= 1
    ensures forall p <- parts :: sep !in p
  {
    if s == [] then [[]]
    else
      var rest := Split(s[1..], sep);
      if s[0] == sep then [[]] + rest else [[s[0]] + rest[0]] + rest[1..]
  }

  /** `sep.join(parts)`. */
  function Join(parts: seq<string>, sep: string): (r: string)
  {
    if parts == [] then [] else if |parts| == 1 then parts[0] else parts[0] + sep + Join(parts[1..], sep)
  }

  /** Splitting and joining back with the same separator gives the input back. */
  lemma {:induction false} JoinSplit(s: string, sep: char)
    ensures Join(Split(s, sep), [sep]) == s
  {
    if s != [] {
      var rest := Split(s[1..], sep);
      JoinSplit(s[1..], sep);
      if s[0] == sep {
        assert Split(s, sep) == [[]] + rest;
      } else {
        var parts := [[s[0]] + rest[0]] + rest[1..];
        assert Split(s, sep) == parts;
        if |rest| == 1 {
          assert Join(parts, [sep]) == [s[0]] + rest[0];
        } else {
          assert parts[1..] == rest[1..];
          assert Join(parts, [sep]) == [s[0]] + (rest[0] + [sep] + Join(rest[1..], [sep]));
        }
      }
    }
  }

  /** A string that starts with a character other than the separator: the character
      is glued to the front of the first part of the rest. */
  lemma SplitAfterChar(c: char, rest: string, sep: char)
    requires c != sep
    ensures Split([c] + rest, sep) == [[c] + Split(rest, sep)[0]] + Split(rest, sep)[1..]
  {
    assert ([c] + rest)[1..] == rest;
  }

  /** Splitting a string that starts with a separator-free piece: the piece is glued
      to the front of the first part of the rest. */
  lemma {:induction false} SplitAfterPiece(piece: string, rest: string, sep: char)
    requires sep !in piece
    ensures Split(piece + rest, sep) == [piece + Split(rest, sep)[0]] + Split(rest, sep)[1..]
  {
    var tail := Split(rest, sep);
    if piece != [] {
      var c, more := piece[0], piece[1..];
      assert c != sep by { assert c in piece; }
      assert sep !in more by {
        forall d | d in more
          ensures d != sep
        {
          var k :| 0 <= k < |more| && more[k] == d;
          assert piece[k + 1] == d;
        }
      }
      SplitAfterPiece(more, rest, sep);
      assert piece + rest == [c] + (more + rest);
      SplitAfterChar(c, more + rest, sep);
      assert [c] + (more + tail[0]) == piece + tail[0];
    } else {
      assert piece + rest == rest;
      assert piece + tail[0] == tail[0];
      assert [tail[0]] + tail[1..] == tail;
    }
  }

  /** A string that starts with the separator splits into an empty first part
      followed by the parts of the rest. */
  lemma SplitAtSeparator(rest: string, sep: char)
    ensures Split([sep] + rest, sep) == [[]] + Split(rest, sep)
  {
    assert ([sep] + rest)[1..] == rest;
  }

  /** Joining separator-free pieces and splitting again gives the pieces back. */
  lemma {:induction false} SplitJoin(parts: seq<string>, sep: char)
    requires parts != []
    requires forall p <- parts :: sep !in p
    ensures Split(Join(parts, [sep]), sep) == parts
  {
    var first := parts[0];
    assert sep !in first by { assert first in parts; }
    if |parts| == 1 {
      SplitAfterPiece(first, [], sep);
      assert first + [] == first;
    } else {
      var others := parts[1..];
      forall p | p in others
        ensures sep !in p
      {
        var i :| 0 <= i < |others| && others[i] == p;
        assert p == parts[i + 1];
      }
      var rest := Join(others, [sep]);
      SplitJoin(others, sep);
      SplitAtSeparator(rest, sep);
      SplitAfterPiece(first, [sep] + rest, sep);
      assert Join(parts, [sep]) == first + ([sep] + rest);
      assert first + [] == first;
      assert parts == [first] + others;
    }
  }

  function Digit(n: nat): (c: char)
    requires n < 10
    ensures '0' <= c <= '9' && c as int - '0' as int == n
  {
    ('0' as int + n) as char
  }

  /** The number a string of decimal digits denotes. */
  function DigitsValue(r: string): nat
    requires forall k :: 0 <= k < |r| ==> '0' <= r[k] <= '9'
  {
    if r == [] then 0 else 10 * DigitsValue(r[..|r| - 1]) + (r[|r| - 1] as int - '0' as int)
  }

  /** The decimal form Python's `f"{i}"` gives a non-negative integer: digits that
      denote `n`, with no leading zero. */
  function Decimal(n: nat): (r: string)
    ensures r != [] && forall k :: 0 <= k < |r| ==> '0' <= r[k] <= '9'
    ensures DigitsValue(r) == n
    ensures r[0] == '0' ==> r == ['0']
  {
    if n < 10 then [Digit(n)]
    else
      var r := Decimal(n / 10) + [Digit(n % 10)];
      assert r[..|r| - 1] == Decimal(n / 10);
      r
  }

  /** Not a whitespace character. */
  predicate IsNonSpace(c: char) {
    !IsSpace(c)
  }

  /** The characters of `s` that pass `keep`, in order. */
  function Filter(keep: char -> bool, s: string): (r: string)
    ensures |r| <= |s|
  {
    if s == [] then [] else (if keep(s[0]) then [s[0]] else []) + Filter(keep, s[1..])
  }

  /** Filtering a string that starts with `c`. */
  lemma FilterCons(keep: char -> bool, c: char, s: string)
    ensures Filter(keep, [c] + s) == (if keep(c) then [c] else []) + Filter(keep, s)
  {
    assert ([c] + s)[1..] == s;
  }

  /** Filtering a concatenation filters each part. */
  lemma {:induction false} FilterConcat(keep: char -> bool, a: string, b: string)
    ensures Filter(keep, a + b) == Filter(keep, a) + Filter(keep, b)
  {
    if a == [] {
      assert a + b == b;
    } else {
      var head := if keep(a[0]) then [a[0]] else [];
      FilterConcat(keep, a[1..], b);
      assert (a + b)[0] == a[0] && (a + b)[1..] == a[1..] + b;
      assert Filter(keep, a + b) == head + Filter(keep, a[1..] + b);
      assert head + (Filter(keep, a[1..]) + Filter(keep, b)) == (head + Filter(keep, a[1..])) + Filter(keep, b);
    }
  }

  /** A string none of whose characters passes `keep` filters to nothing. */
  lemma {:induction false} FilterNone(keep: char -> bool, s: string)
    requires forall k :: 0 <= k < |s| ==> !keep(s[k])
    ensures Filter(keep, s) == []
  {
    if s != [] {
      FilterNone(keep, s[1..]);
    }
  }

  /** Two strings of one length that agree wherever either has a character passing
      `keep` filter to the same string. */
  lemma {:induction false} FilterPointwise(keep: char -> bool, r: string, s: string)
    requires |r| == |s|
    requires forall k :: 0 <= k < |s| && (keep(r[k]) || keep(s[k])) ==> r[k] == s[k]
    ensures Filter(keep, r) == Filter(keep, s)
  {
    if s != [] {
      FilterPointwise(keep, r[1..], s[1..]);
    }
  }

  /** Filtering by `p` after filtering by a weaker `q` is filtering by `p`. */
  lemma {:induction false} FilterOfFilter(p: char -> bool, q: char -> bool, s: string)
    requires forall c :: p(c) ==> q(c)
    ensures Filter(p, Filter(q, s)) == Filter(p, s)
  {
    if s != [] {
      var head := if q(s[0]) then [s[0]] else [];
      FilterOfFilter(p, q, s[1..]);
      FilterConcat(p, head, Filter(q, s[1..]));
      if q(s[0]) {
        assert Filter(p, head) == if p(s[0]) then [s[0]] else [];
      }
    }
  }

  /** Dropping the leading whitespace keeps every character that is not whitespace. */
  lemma DropLeadingSpaces(s: string)
    ensures Filter(IsNonSpace, s[LeadingSpaces(s)..]) == Filter(IsNonSpace, s)
  {
    var i := LeadingSpaces(s);
    assert s == s[..i] + s[i..];
    FilterNone(IsNonSpace, s[..i]);
    FilterConcat(IsNonSpace, s[..i], s[i..]);
  }

  /** `strip()` removes whitespace only: every character that is not whitespace and
      passes `keep` survives, in order. */
  lemma StripKeepsNonSpace(keep: char -> bool, s: string)
    requires forall c :: keep(c) ==> !IsSpace(c)
    ensures Filter(keep, Strip(s)) == Filter(keep, s)
  {
    var i := LeadingSpaces(s);
    var r := Strip(s);
    var pre, post := s[..i], s[i + |r|..];
    assert s == pre + r + post;
    forall k | 0 <= k < |pre|
      ensures !keep(pre[k])
    {
      assert IsSpace(s[k]);
    }
    forall k | 0 <= k < |post|
      ensures !keep(post[k])
    {
      assert IsSpace(s[i + |r| + k]);
    }
    FilterNone(keep, pre);
    FilterNone(keep, post);
    FilterConcat(keep, pre, r);
    FilterConcat(keep, pre + r, post);
    assert Filter(keep, r) + [] == Filter(keep, r);
  }
}
