/** `normalize_symptom`: the cleaning every symptom goes through, both the dataset's
    `Symptom_i` fields and the segments of a user's query. Lower-case the text, turn
    `_` and `-` into spaces, drop everything that is neither a small ASCII letter nor
    whitespace, replace every run of whitespace by one space, and strip the ends. */
module Normalize {
  import opened Text

  /** A symptom token: small ASCII letters and single spaces, no space at either end.
      Every output of `NormalizeSymptom` is one, and `NormalizeSymptom` leaves every
      one of them unchanged. */
  predicate IsToken(t: string) {
    && (forall c <- t :: IsAsciiLower(c) || c == ' ')
    && (t != [] ==> t[0] != ' ' && t[|t| - 1] != ' ')
    && SingleSpaced(t)
  }

  /** Positions `k` and `k + 1` of `t` are not both spaces. */
  predicate NoDoubleSpaceAt(t: string, k: nat)
    requires k + 1 < |t|
  {
    !(t[k] == ' ' && t[k + 1] == ' ')
  }

  /** No two spaces stand side by side in `t`. */
  predicate SingleSpaced(t: string)
  {
    forall k: nat :: k + 1 < |t| ==> NoDoubleSpaceAt(t, k)
  }

  /** `re.sub(r"[_\-]", " ", text)`: every `_` and `-` becomes a space and every other
      character stays where it is. */
  function SeparatorsToSpaces(s: string): (r: string)
    ensures |r| == |s|
    ensures forall k :: 0 <= k < |s| ==> r[k] == (if s[k] == '_' || s[k] == '-' then ' ' else s[k])
  {
    seq(|s|, k requires 0 <= k < |s| => if s[k] == '_' || s[k] == '-' then ' ' else s[k])
  }

  /** Turning separators into spaces keeps all the small letters, in order. */
  lemma SeparatorsToSpacesKeepsLetters(s: string)
    ensures Filter(IsAsciiLower, SeparatorsToSpaces(s)) == Filter(IsAsciiLower, s)
  {
    FilterPointwise(IsAsciiLower, SeparatorsToSpaces(s), s);
  }

  /** The characters `[a-z\s]` matches. */
  predicate IsLetterOrSpace(c: char) {
    IsAsciiLower(c) || IsSpace(c)
  }

  /** `re.sub(r"[^a-z\s]", "", text)`: drops every character that is neither a small
      ASCII letter nor whitespace; what it keeps comes from the input. */
  function KeepLettersAndSpaces(s: string): (r: string)
    ensures forall c <- r :: IsLetterOrSpace(c) && c in s
  {
    if s == [] then []
    else (if IsLetterOrSpace(s[0]) then [s[0]] else []) + KeepLettersAndSpaces(s[1..])
  }

  /** What `re.sub(r"[^a-z\s]", "", text)` keeps is exactly the small letters and the
      whitespace of the input, each where it stood relative to the others. */
  lemma {:induction false} KeepLettersAndSpacesIsFilter(s: string)
    ensures KeepLettersAndSpaces(s) == Filter(IsLetterOrSpace, s)
  {
    if s != [] {
      KeepLettersAndSpacesIsFilter(s[1..]);
    }
  }

  /** `re.sub(r"\s+", " ", text)`: every maximal run of whitespace becomes one space.
      The result is empty exactly when the input is, starts with the input's first
      character when that is not whitespace, keeps no whitespace but the space, and
      never has two spaces side by side. */
  function CollapseSpaces(s: string): (r: string)
    ensures r == [] <==> s == []
    ensures s != [] && !IsSpace(s[0]) ==> r[0] == s[0]
    ensures forall c <- r :: c == ' ' || (!IsSpace(c) && c in s)
    ensures SingleSpaced(r)
  {
    if s == [] then []
    else if IsSpace(s[0]) then
      var r := CollapseSpaces(s[LeadingSpaces(s)..]);
      PrependKeepsSingleSpaced(' ', r);
      [' '] + r
    else
      var r := CollapseSpaces(s[1..]);
      PrependKeepsSingleSpaced(s[0], r);
      [s[0]] + r
  }

  /** Collapsing keeps every character that is not whitespace, in order. */
  lemma {:induction false} CollapseSpacesKeepsNonSpace(s: string)
    ensures Filter(IsNonSpace, CollapseSpaces(s)) == Filter(IsNonSpace, s)
    decreases |s|
  {
    if s != [] {
      if IsSpace(s[0]) {
        var rest := s[LeadingSpaces(s)..];
        CollapseSpacesKeepsNonSpace(rest);
        FilterCons(IsNonSpace, ' ', CollapseSpaces(rest));
        DropLeadingSpaces(s);
      } else {
        CollapseSpacesKeepsNonSpace(s[1..]);
        FilterCons(IsNonSpace, s[0], CollapseSpaces(s[1..]));
      }
    }
  }

  /** The first step of `CollapseSpaces` on text that ends with a character that is
      not whitespace: the same `head` comes first whatever follows the text. */
  lemma CollapseSpacesFirstStep(a: string, t: string) returns (head: string, rest: string)
    requires a != [] && !IsSpace(a[|a| - 1])
    ensures |rest| < |a| && (rest != [] ==> !IsSpace(rest[|rest| - 1]))
    ensures CollapseSpaces(a + t) == head + CollapseSpaces(rest + t)
    ensures CollapseSpaces(a) == head + CollapseSpaces(rest)
  {
    var s := a + t;
    var i: nat;
    if IsSpace(a[0]) {
      i, head := LeadingSpaces(a), [' '];
      assert i < |a|;
      LeadingSpacesIs(s, i);
    } else {
      i, head := 1, [a[0]];
    }
    rest := a[i..];
    assert rest != [] ==> rest[|rest| - 1] == a[|a| - 1];
    assert s[i..] == rest + t;
  }

  /** Collapsing works run by run: a cut after a character that is not whitespace
      never splits a run, so each side collapses on its own. */
  lemma {:induction false} CollapseSpacesConcat(a: string, t: string)
    requires a != [] ==> !IsSpace(a[|a| - 1])
    ensures CollapseSpaces(a + t) == CollapseSpaces(a) + CollapseSpaces(t)
    decreases |a|
  {
    if a == [] {
      assert a + t == t;
    } else {
      var head, rest := CollapseSpacesFirstStep(a, t);
      CollapseSpacesConcat(rest, t);
      ConcatAssoc(head, CollapseSpaces(rest), CollapseSpaces(t));
    }
  }

  /** Text with no whitespace in it is left as it is. */
  lemma {:induction false} CollapseSpacesKeepsSpaceFree(s: string)
    requires forall k :: 0 <= k < |s| ==> !IsSpace(s[k])
    ensures CollapseSpaces(s) == s
  {
    if s != [] {
      CollapseSpacesKeepsSpaceFree(s[1..]);
      assert s == [s[0]] + s[1..];
    }
  }

  /** A run of whitespace collapses to one space, and no whitespace to nothing. */
  lemma CollapseSpacesOfRun(w: string)
    requires forall k :: 0 <= k < |w| ==> IsSpace(w[k])
    ensures CollapseSpaces(w) == if w == [] then [] else [' ']
  {
    if w != [] {
      LeadingSpacesIs(w, |w|);
      assert w[|w|..] == [];
    }
  }

  /** A run of whitespace in front of text that does not start with whitespace
      collapses on its own. */
  lemma CollapseSpacesLeadingRun(w: string, b: string)
    requires forall k :: 0 <= k < |w| ==> IsSpace(w[k])
    requires b != [] ==> !IsSpace(b[0])
    ensures CollapseSpaces(w + b) == CollapseSpaces(w) + CollapseSpaces(b)
  {
    if w == [] {
      assert w + b == b;
    } else {
      CollapseSpacesOfRun(w);
      LeadingSpacesIs(w + b, |w|);
      assert (w + b)[|w|..] == b;
    }
  }

  /** Collapsing keeps the last character when it is not whitespace. */
  lemma {:induction false} CollapseSpacesLast(s: string)
    requires s != [] && !IsSpace(s[|s| - 1])
    ensures CollapseSpaces(s) != [] && CollapseSpaces(s)[|CollapseSpaces(s)| - 1] == s[|s| - 1]
    decreases |s|
  {
    if IsSpace(s[0]) {
      var i := LeadingSpaces(s);
      assert i < |s|;
      assert s[i..][|s[i..]| - 1] == s[|s| - 1];
      CollapseSpacesLast(s[i..]);
    } else if |s| > 1 {
      assert s[1..][|s| - 2] == s[|s| - 1];
      CollapseSpacesLast(s[1..]);
    }
  }

  /** A run of whitespace between a part that does not end with whitespace and one
      that does not start with it becomes one space, and each part collapses on its
      own: `re.sub(r"\s+", " ", a + w + b) == re.sub(r"\s+", " ", a) + " " +
      re.sub(r"\s+", " ", b)`. */
  lemma CollapseSpacesRun(a: string, w: string, b: string)
    requires w != [] && forall k :: 0 <= k < |w| ==> IsSpace(w[k])
    requires a != [] ==> !IsSpace(a[|a| - 1])
    requires b != [] ==> !IsSpace(b[0])
    ensures CollapseSpaces(a + w + b) == CollapseSpaces(a) + [' '] + CollapseSpaces(b)
  {
    ConcatAssoc(a, w, b);
    CollapseSpacesConcat(a, w + b);
    CollapseSpacesLeadingRun(w, b);
    CollapseSpacesOfRun(w);
    ConcatAssoc(CollapseSpaces(a), [' '], CollapseSpaces(b));
  }

  /** Putting a character in front of single-spaced text keeps it single-spaced,
      unless a space lands before a space. */
  lemma PrependKeepsSingleSpaced(c: char, r: string)
    requires SingleSpaced(r)
    requires c == ' ' && r != [] ==> r[0] != ' '
    ensures SingleSpaced([c] + r)
  {
    var t := [c] + r;
    forall k: nat | k + 1 < |t|
      ensures NoDoubleSpaceAt(t, k)
    {
      if k > 0 {
        assert NoDoubleSpaceAt(r, k - 1);
      }
    }
  }

  /** `normalize_symptom` (app/services/ml_service.py). Total: every string, the empty
      one included, has a normal form, and that form is a symptom token. */
  function NormalizeSymptom(text: string): (token: string)
    ensures IsToken(token)
  {
    var collapsed := CollapseSpaces(KeepLettersAndSpaces(SeparatorsToSpaces(Lower(text))));
    StripOfCollapsedIsToken(collapsed);
    Strip(collapsed)
  }

  /** Stripping a string of small letters and single spaces leaves a token. */
  lemma StripOfCollapsedIsToken(x: string)
    requires forall c <- x :: IsAsciiLower(c) || c == ' '
    requires SingleSpaced(x)
    ensures IsToken(Strip(x))
  {
    var i := LeadingSpaces(x);
    var r := Strip(x);
    forall k: nat | k + 1 < |r|
      ensures NoDoubleSpaceAt(r, k)
    {
      assert NoDoubleSpaceAt(x, i + k);
      assert r[k] == x[i + k] && r[k + 1] == x[i + k + 1];
    }
  }

  lemma {:induction false} KeepLettersAndSpacesKeepsTokens(t: string)
    requires forall c <- t :: IsAsciiLower(c) || c == ' '
    ensures KeepLettersAndSpaces(t) == t
  {
    if t != [] {
      assert t[0] in t;
      KeepLettersAndSpacesKeepsTokens(t[1..]);
      assert t == [t[0]] + t[1..];
    }
  }

  lemma {:induction false} CollapseSpacesKeepsTokens(t: string)
    requires forall c <- t :: IsAsciiLower(c) || c == ' '
    requires SingleSpaced(t)
    ensures CollapseSpaces(t) == t
  {
    if t != [] {
      LettersAndSingleSpacesTail(t);
      CollapseSpacesKeepsTokens(t[1..]);
      CollapseOneStep(t);
      assert t == [t[0]] + t[1..];
    }
  }

  /** The tail of a string of small letters and single spaces is one too, and a space
      at its head is followed by a letter. */
  lemma LettersAndSingleSpacesTail(t: string)
    requires t != []
    requires forall c <- t :: IsAsciiLower(c) || c == ' '
    requires SingleSpaced(t)
    ensures forall c <- t[1..] :: IsAsciiLower(c) || c == ' '
    ensures SingleSpaced(t[1..])
    ensures IsAsciiLower(t[0]) || t[0] == ' '
    ensures t[0] == ' ' && |t| > 1 ==> IsAsciiLower(t[1])
  {
    var rest := t[1..];
    forall k: nat | k + 1 < |rest|
      ensures NoDoubleSpaceAt(rest, k)
    {
      assert NoDoubleSpaceAt(t, k + 1);
    }
    forall c | c in rest
      ensures IsAsciiLower(c) || c == ' '
    {
      var k :| 0 <= k < |rest| && rest[k] == c;
      assert t[k + 1] == c;
    }
    assert t[0] in t;
    if |t| > 1 {
      assert t[1] in t;
      assert NoDoubleSpaceAt(t, 0);
    }
  }

  /** One step of `CollapseSpaces` on text whose first character is a letter, or a
      single space followed by a letter. */
  lemma CollapseOneStep(t: string)
    requires t != []
    requires IsAsciiLower(t[0]) || t[0] == ' '
    requires t[0] == ' ' && |t| > 1 ==> IsAsciiLower(t[1])
    ensures CollapseSpaces(t) == [t[0]] + CollapseSpaces(t[1..])
  {
    if t[0] == ' ' {
      assert |t| > 1 ==> !IsSpace(t[1]);
      assert LeadingSpaces(t[1..]) == 0;
      assert LeadingSpaces(t) == 1;
    } else {
      assert !IsSpace(t[0]);
    }
  }

  /** A symptom token is already in normal form. */
  lemma NormalizeKeepsTokens(t: string)
    requires IsToken(t)
    ensures NormalizeSymptom(t) == t
  {
    LowerKeepsLettersAndSpaces(t);
    forall k | 0 <= k < |t|
      ensures SeparatorsToSpaces(t)[k] == t[k]
    {
      assert t[k] in t;
    }
    assert SeparatorsToSpaces(t) == t;
    KeepLettersAndSpacesKeepsTokens(t);
    CollapseSpacesKeepsTokens(t);
    StripKeepsTrimmed(t);
  }

  /** Normalising keeps exactly the small ASCII letters of the lower-cased text, in
      order: only separators, whitespace and other characters are dropped or changed. */
  lemma NormalizeKeepsLetters(text: string)
    ensures Filter(IsAsciiLower, NormalizeSymptom(text)) == Filter(IsAsciiLower, Lower(text))
  {
    var separated := SeparatorsToSpaces(Lower(text));
    var kept := KeepLettersAndSpaces(separated);
    var collapsed := CollapseSpaces(kept);
    StripKeepsNonSpace(IsAsciiLower, collapsed);
    FilterOfFilter(IsAsciiLower, IsNonSpace, collapsed);
    CollapseSpacesKeepsNonSpace(kept);
    FilterOfFilter(IsAsciiLower, IsNonSpace, kept);
    KeepLettersAndSpacesIsFilter(separated);
    FilterOfFilter(IsAsciiLower, IsLetterOrSpace, separated);
    SeparatorsToSpacesKeepsLetters(Lower(text));
  }

  /** Normalising twice is normalising once. */
  lemma NormalizeIsIdempotent(text: string)
    ensures NormalizeSymptom(NormalizeSymptom(text)) == NormalizeSymptom(text)
  {
    NormalizeKeepsTokens(NormalizeSymptom(text));
  }

  /** Turning separators into spaces works character by character. */
  lemma SeparatorsToSpacesConcat(x: string, y: string)
    ensures SeparatorsToSpaces(x + y) == SeparatorsToSpaces(x) + SeparatorsToSpaces(y)
  {
    var r, rx, ry := SeparatorsToSpaces(x + y), SeparatorsToSpaces(x), SeparatorsToSpaces(y);
    forall k | 0 <= k < |r|
      ensures r[k] == (rx + ry)[k]
    {
      if k < |x| {
        assert (x + y)[k] == x[k];
      } else {
        assert (x + y)[k] == y[k - |x|];
      }
    }
  }

  /** Dropping the other characters works character by character. */
  lemma KeepLettersAndSpacesConcat(x: string, y: string)
    ensures KeepLettersAndSpaces(x + y) == KeepLettersAndSpaces(x) + KeepLettersAndSpaces(y)
  {
    KeepLettersAndSpacesIsFilter(x + y);
    KeepLettersAndSpacesIsFilter(x);
    KeepLettersAndSpacesIsFilter(y);
    FilterConcat(IsLetterOrSpace, x, y);
  }

  /** Lower-casing leaves a separator `_` or `-` or a whitespace character as it is
      and lower-cases the text on either side of it on its own. */
  lemma LowerAtSeparator(a: string, c: char, b: string)
    requires c == '_' || c == '-' || IsSpace(c)
    ensures Lower(a + [c] + b) == Lower(a) + [c] + Lower(b)
  {
    LowerConcat(a + [c], b);
    LowerConcat(a, [c]);
    LowerCons(c, []);
    assert [c] + [] == [c];
  }

  /** Turning separators into spaces makes a separator or whitespace character `c`
      a whitespace character. */
  lemma SeparatorsToSpacesAt(x: string, c: char, y: string)
    requires c == '_' || c == '-' || IsSpace(c)
    ensures SeparatorsToSpaces(x + [c] + y)
         == SeparatorsToSpaces(x) + [if IsSpace(c) then c else ' '] + SeparatorsToSpaces(y)
  {
    SeparatorsToSpacesConcat(x + [c], y);
    SeparatorsToSpacesConcat(x, [c]);
  }

  /** Dropping the other characters keeps a whitespace character `c`. */
  lemma KeepLettersAndSpacesAt(x: string, c: char, y: string)
    requires IsSpace(c)
    ensures KeepLettersAndSpaces(x + [c] + y) == KeepLettersAndSpaces(x) + [c] + KeepLettersAndSpaces(y)
  {
    KeepLettersAndSpacesConcat(x + [c], y);
    KeepLettersAndSpacesConcat(x, [c]);
    assert KeepLettersAndSpaces([c]) == [c] + KeepLettersAndSpaces([]);
  }

  /** The first three steps of the normaliser, up to collapsing whitespace, turn a
      separator `_` or `-` or a whitespace character into one whitespace character
      and treat the text on either side of it on its own. */
  lemma CleanAtSeparator(a: string, c: char, b: string)
    requires c == '_' || c == '-' || IsSpace(c)
    ensures KeepLettersAndSpaces(SeparatorsToSpaces(Lower(a + [c] + b)))
         == KeepLettersAndSpaces(SeparatorsToSpaces(Lower(a))) + [if IsSpace(c) then c else ' ']
            + KeepLettersAndSpaces(SeparatorsToSpaces(Lower(b)))
  {
    LowerAtSeparator(a, c, b);
    SeparatorsToSpacesAt(Lower(a), c, Lower(b));
    KeepLettersAndSpacesAt(SeparatorsToSpaces(Lower(a)), if IsSpace(c) then c else ' ', SeparatorsToSpaces(Lower(b)));
  }

  /** Text made only of whitespace collapses and strips to nothing. */
  lemma StripCollapseOfRun(x: string)
    ensures (forall k :: 0 <= k < |x| ==> IsSpace(x[k])) ==> Strip(CollapseSpaces(x)) == []
  {
    if forall k :: 0 <= k < |x| ==> IsSpace(x[k]) {
      CollapseSpacesOfRun(x);
    }
  }

  /** Text whose normal form is not empty has a character that is not whitespace. */
  lemma CollapsedHasNonSpace(x: string)
    requires Strip(CollapseSpaces(x)) != []
    ensures LeadingSpaces(x) < |x| && TrailingSpaces(x) < |x|
  {
    StripCollapseOfRun(x);
  }

  /** `x` is the text up to its last character that is not whitespace, then a run of
      whitespace. */
  lemma SplitTrailingSpaces(x: string) returns (x1: string, wx: string)
    requires TrailingSpaces(x) < |x|
    ensures x == x1 + wx
    ensures x1 != [] && !IsSpace(x1[|x1| - 1])
    ensures forall k :: 0 <= k < |wx| ==> IsSpace(wx[k])
  {
    var n := |x| - TrailingSpaces(x);
    x1, wx := x[..n], x[n..];
    assert x1[|x1| - 1] == x[n - 1];
    forall k | 0 <= k < |wx|
      ensures IsSpace(wx[k])
    {
      assert wx[k] == x[n + k];
    }
  }

  /** `y` is a run of whitespace, then the text from its first character that is not
      whitespace on. */
  lemma SplitLeadingSpaces(y: string) returns (wy: string, y1: string)
    requires LeadingSpaces(y) < |y|
    ensures y == wy + y1
    ensures y1 != [] && !IsSpace(y1[0])
    ensures forall k :: 0 <= k < |wy| ==> IsSpace(wy[k])
  {
    var n := LeadingSpaces(y);
    wy, y1 := y[..n], y[n..];
    assert y1[0] == y[n];
    forall k | 0 <= k < |wy|
      ensures IsSpace(wy[k])
    {
      assert wy[k] == y[k];
    }
  }

  /** Whitespace after text that ends with a letter does not change what collapsing
      and stripping leave of it. */
  lemma StripCollapseTrailing(x1: string, wx: string)
    requires x1 != [] && !IsSpace(x1[|x1| - 1])
    requires forall k :: 0 <= k < |wx| ==> IsSpace(wx[k])
    ensures Strip(CollapseSpaces(x1 + wx)) == Strip(CollapseSpaces(x1))
  {
    CollapseSpacesConcat(x1, wx);
    CollapseSpacesOfRun(wx);
    StripTrailingRun(CollapseSpaces(x1), CollapseSpaces(wx));
  }

  /** Whitespace before text that starts with a letter does not change what
      collapsing and stripping leave of it. */
  lemma StripCollapseLeading(wy: string, y1: string)
    requires forall k :: 0 <= k < |wy| ==> IsSpace(wy[k])
    requires y1 != [] && !IsSpace(y1[0])
    ensures Strip(CollapseSpaces(wy + y1)) == Strip(CollapseSpaces(y1))
  {
    CollapseSpacesLeadingRun(wy, y1);
    CollapseSpacesOfRun(wy);
    StripLeadingRun(CollapseSpaces(wy), CollapseSpaces(y1));
  }

  /** The whitespace around a whitespace character `c` joins it into one run, which
      collapses to one space between the collapsed parts on either side. */
  lemma CollapseAroundSpace(x1: string, wx: string, c: char, wy: string, y1: string)
    requires IsSpace(c)
    requires forall k :: 0 <= k < |wx| ==> IsSpace(wx[k])
    requires forall k :: 0 <= k < |wy| ==> IsSpace(wy[k])
    requires x1 != [] && !IsSpace(x1[|x1| - 1])
    requires y1 != [] && !IsSpace(y1[0])
    ensures CollapseSpaces((x1 + wx) + [c] + (wy + y1))
         == CollapseSpaces(x1) + [' '] + CollapseSpaces(y1)
  {
    JoinedRun(wx, c, wy);
    Regroup(x1, wx, c, wy, y1);
    CollapseSpacesRun(x1, wx + [c] + wy, y1);
  }

  /** Collapsing and stripping text with a whitespace character in it: when the text
      on each side has a non-empty result, the whole is the two results joined by
      one space. */
  lemma StripCollapseAtSpace(x: string, c: char, y: string)
    requires IsSpace(c)
    requires Strip(CollapseSpaces(x)) != [] && Strip(CollapseSpaces(y)) != []
    ensures Strip(CollapseSpaces(x + [c] + y))
         == Strip(CollapseSpaces(x)) + [' '] + Strip(CollapseSpaces(y))
  {
    CollapsedHasNonSpace(x);
    CollapsedHasNonSpace(y);
    var x1, wx := SplitTrailingSpaces(x);
    var wy, y1 := SplitLeadingSpaces(y);
    StripCollapseAroundSpace(x1, wx, c, wy, y1);
  }

  /** The same, with each side split at the whitespace next to `c`. */
  lemma StripCollapseAroundSpace(x1: string, wx: string, c: char, wy: string, y1: string)
    requires IsSpace(c)
    requires forall k :: 0 <= k < |wx| ==> IsSpace(wx[k])
    requires forall k :: 0 <= k < |wy| ==> IsSpace(wy[k])
    requires x1 != [] && !IsSpace(x1[|x1| - 1])
    requires y1 != [] && !IsSpace(y1[0])
    ensures Strip(CollapseSpaces((x1 + wx) + [c] + (wy + y1)))
         == Strip(CollapseSpaces(x1 + wx)) + [' '] + Strip(CollapseSpaces(wy + y1))
  {
    CollapseAroundSpace(x1, wx, c, wy, y1);
    CollapseSpacesLast(x1);
    StripAroundSpace(CollapseSpaces(x1), CollapseSpaces(y1));
    StripCollapseTrailing(x1, wx);
    StripCollapseLeading(wy, y1);
    SameAs(Strip(CollapseSpaces((x1 + wx) + [c] + (wy + y1))),
           Strip(CollapseSpaces(x1) + [' '] + CollapseSpaces(y1)),
           Strip(CollapseSpaces(x1)) + [' '] + Strip(CollapseSpaces(y1)),
           Strip(CollapseSpaces(x1 + wx)) + [' '] + Strip(CollapseSpaces(wy + y1)));
  }

  /** `_`, `-` and whitespace are word boundaries: normalising text with one of them
      in it gives the normal forms of the two sides joined by one space, whenever
      both are non-empty. */
  lemma NormalizeAtSeparator(a: string, c: char, b: string)
    requires c == '_' || c == '-' || IsSpace(c)
    requires NormalizeSymptom(a) != [] && NormalizeSymptom(b) != []
    ensures NormalizeSymptom(a + [c] + b) == NormalizeSymptom(a) + [' '] + NormalizeSymptom(b)
  {
    CleanAtSeparator(a, c, b);
    StripCollapseAtSpace(KeepLettersAndSpaces(SeparatorsToSpaces(Lower(a))), if IsSpace(c) then c else ' ',
                         KeepLettersAndSpaces(SeparatorsToSpaces(Lower(b))));
  }
}
