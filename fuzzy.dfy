/** `map_to_known_symptoms`: every segment of the user's text is normalised and handed
    to rapidfuzz's `process.extractOne` together with the known symptoms and a score
    cutoff of 60. The library call is a parameter here, an oracle `bestMatch` whose
    only promise is `HonoursCutoff`: what it returns is one of the candidates, scored
    at least the cutoff. When it returns nothing, the source's tuple unpacking raises;
    the model returns `Failure(NoMatch(i))` for the first such segment `i`. A match
    equal to the empty string is dropped by the `if match:` test. */
module Fuzzy {
  import opened Wrappers
  import opened Normalize

  /** `score_cutoff=60`, on rapidfuzz's 0..100 scale. */
  const ScoreCutoff: real := 60.0

  /** The `(match, score)` part of the tuple `extractOne` returns. */
  datatype Match = Match(choice: string, score: real)

  /** `process.extractOne(query, choices, score_cutoff=cutoff)`. */
  type BestMatch = (string, seq<string>, real) -> Option<Match>

  /** The contract of `extractOne` with a cutoff: a result is one of the choices and
      scores at least the cutoff. */
  ghost predicate HonoursCutoff(bestMatch: BestMatch) {
    forall query, choices, cutoff :: bestMatch(query, choices, cutoff).Some? ==>
      && bestMatch(query, choices, cutoff).value.choice in choices
      && bestMatch(query, choices, cutoff).value.score >= cutoff
  }

  /** The source raises (`TypeError`, unpacking `None`) at the segment `index`. */
  datatype MapError = NoMatch(index: nat)

  /** The normalised segments: the queries handed to the oracle, in order. */
  function Queries(segments: seq<string>): (queries: seq<string>)
    ensures |queries| == |segments|
  {
    seq(|segments|, i requires 0 <= i < |segments| => NormalizeSymptom(segments[i]))
  }

  /** The oracle's answers to the queries, in order. */
  function AnswersTo(bestMatch: BestMatch, queries: seq<string>, known: seq<string>): (answers: seq<Option<Match>>)
    ensures |answers| == |queries|
  {
    seq(|queries|, i requires 0 <= i < |queries| => bestMatch(queries[i], known, ScoreCutoff))
  }

  /** The oracle's answers for all segments, in order. */
  function Answers(bestMatch: BestMatch, segments: seq<string>, known: seq<string>): seq<Option<Match>>
  {
    AnswersTo(bestMatch, Queries(segments), known)
  }

  /** Answer `i` is the oracle's answer for the normalised segment `i`. */
  lemma AnswerAt(bestMatch: BestMatch, segments: seq<string>, known: seq<string>, i: nat)
    requires i < |segments|
    ensures |Answers(bestMatch, segments, known)| == |segments|
    ensures Answers(bestMatch, segments, known)[i] == bestMatch(NormalizeSymptom(segments[i]), known, ScoreCutoff)
  {
    assert Queries(segments)[i] == NormalizeSymptom(segments[i]);
  }

  /** The answers to the first `i + 1` queries extend those to the first `i`. */
  lemma AnswersToStep(bestMatch: BestMatch, queries: seq<string>, known: seq<string>, i: nat)
    requires i < |queries|
    ensures AnswersTo(bestMatch, queries, known)[..i + 1] ==
      AnswersTo(bestMatch, queries, known)[..i] + [bestMatch(queries[i], known, ScoreCutoff)]
  {
    var answers := AnswersTo(bestMatch, queries, known);
    assert answers[..i + 1] == answers[..i] + [answers[i]];
  }

  /** Under `HonoursCutoff`, every answer is a known symptom scored at least 60. */
  lemma AnswersHonourCutoff(bestMatch: BestMatch, segments: seq<string>, known: seq<string>)
    requires HonoursCutoff(bestMatch)
    ensures forall i :: 0 <= i < |segments| && Answers(bestMatch, segments, known)[i].Some? ==>
      && Answers(bestMatch, segments, known)[i].value.choice in known
      && Answers(bestMatch, segments, known)[i].value.score >= ScoreCutoff
  {
    forall i | 0 <= i < |segments| && Answers(bestMatch, segments, known)[i].Some?
      ensures Answers(bestMatch, segments, known)[i].value.choice in known
      ensures Answers(bestMatch, segments, known)[i].value.score >= ScoreCutoff
    {
      var found := bestMatch(NormalizeSymptom(segments[i]), known, ScoreCutoff);
      assert Answers(bestMatch, segments, known)[i] == found;
    }
  }

  /** What `map_to_known_symptoms` returns, or raises, given the oracle's answers for
      its segments: the answers are taken in order; a `None` raises, a match equal to
      the empty string adds nothing, any other match is appended. */
  function Mapped(answers: seq<Option<Match>>): Result<seq<string>, MapError>
    decreases |answers|
  {
    if answers == [] then Success([])
    else
      var n := |answers| - 1;
      match Mapped(answers[..n])
      case Failure(e) => Failure(e)
      case Success(mapped) =>
        match answers[n]
        case None => Failure(NoMatch(n))
        case Some(m) => Success(if m.choice != [] then mapped + [m.choice] else mapped)
  }

  /** The positions of the answers whose match is kept, in ascending order. */
  ghost function Kept(answers: seq<Option<Match>>): (kept: seq<nat>)
    ensures forall k :: 0 <= k < |kept| ==> kept[k] < |answers|
    decreases |answers|
  {
    if answers == [] then []
    else
      var n := |answers| - 1;
      Kept(answers[..n]) + (if answers[n].Some? && answers[n].value.choice != [] then [n] else [])
  }

  /** The mapping raises exactly when some segment has no match above the cutoff, and
      it raises at the first of them. */
  lemma {:induction false} MappedFailsAtFirstUnmatched(answers: seq<Option<Match>>)
    ensures Mapped(answers).Failure? <==> exists i :: 0 <= i < |answers| && answers[i].None?
    ensures Mapped(answers).Failure? ==>
      var i := Mapped(answers).error.index;
      && i < |answers|
      && answers[i].None?
      && forall j :: 0 <= j < i ==> answers[j].Some?
    decreases |answers|
  {
    if answers != [] {
      var n := |answers| - 1;
      var init := answers[..n];
      MappedFailsAtFirstUnmatched(init);
      assert forall i :: 0 <= i < n ==> init[i] == answers[i];
    }
  }

  /** Mapping a list of segments raises exactly when the oracle finds no match for some
      normalised segment, and it raises at the first such segment. */
  lemma MappingFailsAtFirstUnmatchedSegment(bestMatch: BestMatch, segments: seq<string>, known: seq<string>)
    ensures Mapped(Answers(bestMatch, segments, known)).Failure? <==>
      exists i :: 0 <= i < |segments| && bestMatch(NormalizeSymptom(segments[i]), known, ScoreCutoff).None?
    ensures Mapped(Answers(bestMatch, segments, known)).Failure? ==>
      var i := Mapped(Answers(bestMatch, segments, known)).error.index;
      && i < |segments|
      && bestMatch(NormalizeSymptom(segments[i]), known, ScoreCutoff).None?
      && forall j :: 0 <= j < i ==> bestMatch(NormalizeSymptom(segments[j]), known, ScoreCutoff).Some?
  {
    var answers := Answers(bestMatch, segments, known);
    MappedFailsAtFirstUnmatched(answers);
    forall i | 0 <= i < |segments|
      ensures answers[i] == bestMatch(NormalizeSymptom(segments[i]), known, ScoreCutoff)
    {
      AnswerAt(bestMatch, segments, known, i);
    }
  }

  /** The kept positions are in strictly ascending order. */
  lemma {:induction false} KeptAscend(answers: seq<Option<Match>>)
    ensures forall k, l :: 0 <= k < l < |Kept(answers)| ==> Kept(answers)[k] < Kept(answers)[l]
    decreases |answers|
  {
    if answers != [] {
      var n := |answers| - 1;
      var init := answers[..n];
      KeptAscend(init);
      var kept0, kept := Kept(init), Kept(answers);
      assert kept == kept0 + if answers[n].Some? && answers[n].value.choice != [] then [n] else [];
      forall k, l | 0 <= k < l < |kept|
        ensures kept[k] < kept[l]
      {
        assert kept[k] == kept0[k] < n;
      }
    }
  }

  /** A position is kept exactly when its answer is a match other than the empty
      string. */
  lemma {:induction false} KeptAreTheNonEmptyMatches(answers: seq<Option<Match>>)
    ensures forall i :: 0 <= i < |answers| ==>
      (i in Kept(answers) <==> answers[i].Some? && answers[i].value.choice != [])
    decreases |answers|
  {
    if answers != [] {
      var n := |answers| - 1;
      var init := answers[..n];
      KeptAreTheNonEmptyMatches(init);
      var kept0, kept := Kept(init), Kept(answers);
      assert kept == kept0 + if answers[n].Some? && answers[n].value.choice != [] then [n] else [];
      forall i | 0 <= i < |answers|
        ensures i in kept <==> answers[i].Some? && answers[i].value.choice != []
      {
        if i < n {
          assert init[i] == answers[i];
          assert i in kept <==> i in kept0;
        } else {
          assert n !in kept0;
        }
      }
    }
  }

  /** On success every answer is a match, and element `k` of the result is the match
      at the `k`-th kept position. */
  lemma {:induction false} MappedAlongKept(answers: seq<Option<Match>>)
    requires Mapped(answers).Success?
    ensures var mapped := Mapped(answers).value;
      var kept := Kept(answers);
      && |mapped| == |kept|
      && (forall i :: 0 <= i < |answers| ==> answers[i].Some?)
      && (forall k :: 0 <= k < |kept| ==> mapped[k] == answers[kept[k]].value.choice)
    decreases |answers|
  {
    if answers != [] {
      var n := |answers| - 1;
      var init, last := answers[..n], answers[n];
      assert answers == init + [last];
      MappedStep(init, last);
      assert Mapped(init).Success? && last.Some?;
      MappedAlongKept(init);
      var mapped0, kept0 := Mapped(init).value, Kept(init);
      var mapped, kept := Mapped(answers).value, Kept(answers);
      var keep := last.value.choice != [];
      assert kept == kept0 + if keep then [n] else [];
      assert mapped == if keep then mapped0 + [last.value.choice] else mapped0;
      forall i | 0 <= i < n
        ensures answers[i].Some?
      {
        assert init[i] == answers[i];
      }
      forall k | 0 <= k < |kept|
        ensures mapped[k] == answers[kept[k]].value.choice
      {
        if k < |kept0| {
          assert kept[k] == kept0[k] && mapped[k] == mapped0[k] && init[kept0[k]] == answers[kept[k]];
        }
      }
    }
  }

  /** On success, the result holds one element per kept answer, in segment order: that
      answer's match. An answer is kept exactly when its match is not the empty
      string. */
  lemma MappedFollowsSegments(answers: seq<Option<Match>>)
    requires Mapped(answers).Success?
    ensures var mapped := Mapped(answers).value;
      var kept := Kept(answers);
      && |mapped| == |kept|
      && (forall k, l :: 0 <= k < l < |kept| ==> kept[k] < kept[l])
      && (forall k :: 0 <= k < |kept| ==> answers[kept[k]].Some? && mapped[k] == answers[kept[k]].value.choice)
      && (forall i :: 0 <= i < |answers| ==> answers[i].Some? && (i in kept <==> answers[i].value.choice != []))
  {
    KeptAscend(answers);
    KeptAreTheNonEmptyMatches(answers);
    MappedAlongKept(answers);
  }

  /** On success, every mapped symptom is a known symptom that the oracle scored at
      least 60 for one of the segments, and there are at most as many mapped symptoms
      as segments. */
  lemma MappedAreKnownAndAboveCutoff(bestMatch: BestMatch, segments: seq<string>, known: seq<string>)
    requires HonoursCutoff(bestMatch)
    requires Mapped(Answers(bestMatch, segments, known)).Success?
    ensures var answers := Answers(bestMatch, segments, known);
      var mapped := Mapped(answers).value;
      && |mapped| <= |segments|
      && forall k :: 0 <= k < |mapped| ==>
           && mapped[k] in known
           && exists i :: 0 <= i < |segments| && answers[i].Some? && answers[i].value.choice == mapped[k]
                          && answers[i].value.score >= ScoreCutoff
  {
    var answers := Answers(bestMatch, segments, known);
    var kept := Kept(answers);
    MappedFollowsSegments(answers);
    AnswersHonourCutoff(bestMatch, segments, known);
    StrictlyIncreasingBounded(kept, |segments|);
    var mapped := Mapped(answers).value;
    forall k | 0 <= k < |mapped|
      ensures exists i :: 0 <= i < |segments| && answers[i].Some? && answers[i].value.choice == mapped[k]
                          && answers[i].value.score >= ScoreCutoff
    {
      var i := kept[k];
      assert answers[i].Some? && answers[i].value.choice == mapped[k];
    }
  }

  /** A strictly increasing sequence of naturals below `n` has at most `n` elements. */
  lemma {:induction false} StrictlyIncreasingBounded(s: seq<nat>, n: nat)
    requires forall k :: 0 <= k < |s| ==> s[k] < n
    requires forall k, l :: 0 <= k < l < |s| ==> s[k] < s[l]
    ensures |s| <= n
    decreases n
  {
    if s != [] {
      var last := s[|s| - 1];
      StrictlyIncreasingBounded(s[..|s| - 1], last);
    }
  }

  /** Once a prefix of the answers raises, the whole list raises with the same error. */
  lemma {:induction false} MappedFailureIsFinal(answers: seq<Option<Match>>, n: nat)
    requires n <= |answers|
    requires Mapped(answers[..n]).Failure?
    ensures Mapped(answers) == Mapped(answers[..n])
    decreases |answers| - n
  {
    if n < |answers| {
      assert answers[..n + 1][..n] == answers[..n];
      assert Mapped(answers[..n + 1]) == Mapped(answers[..n]);
      MappedFailureIsFinal(answers, n + 1);
    } else {
      assert answers[..n] == answers;
    }
  }

  /** Segments are mapped independently: mapping two lists of segments one after the
      other is mapping their concatenation, the error index counting from the start. */
  lemma {:induction false} MappedConcat(a: seq<Option<Match>>, b: seq<Option<Match>>)
    ensures Mapped(a + b) ==
      match Mapped(a)
      case Failure(e) => Failure(e)
      case Success(x) =>
        match Mapped(b)
        case Failure(e) => Failure(NoMatch(|a| + e.index))
        case Success(y) => Success(x + y)
    decreases |b|
  {
    if b == [] {
      assert a + b == a;
      if Mapped(a).Success? {
        assert Mapped(a).value + [] == Mapped(a).value;
      }
    } else {
      var n := |b| - 1;
      MappedConcat(a, b[..n]);
      assert (a + b)[..|a| + n] == a + b[..n];
      assert (a + b)[|a| + n] == b[n];
      if Mapped(a).Success? && Mapped(b[..n]).Success? {
        var x, y := Mapped(a).value, Mapped(b[..n]).value;
        match b[n]
        case None =>
          assert Mapped(b) == Failure(NoMatch(n));
        case Some(m) =>
          if m.choice == [] {
            assert x + y + [] == x + y;
          } else {
            assert x + y + [m.choice] == x + (y + [m.choice]);
          }
      }
    }
  }

  /** One more answer: a `None` raises at its position, an empty match is dropped, any
      other match is appended. */
  lemma MappedStep(answers: seq<Option<Match>>, next: Option<Match>)
    ensures Mapped(answers + [next]) ==
      match Mapped(answers)
      case Failure(e) => Failure(e)
      case Success(mapped) =>
        match next
        case None => Failure(NoMatch(|answers|))
        case Some(m) => Success(if m.choice != [] then mapped + [m.choice] else mapped)
  {
    assert (answers + [next])[..|answers|] == answers;
  }

  /** `map_to_known_symptoms(user_symptoms, known_symptoms)`. */
  method MapToKnownSymptoms(userSymptoms: seq<string>, knownSymptoms: seq<string>, bestMatch: BestMatch)
    returns (r: Result<seq<string>, MapError>)
    ensures r == Mapped(Answers(bestMatch, userSymptoms, knownSymptoms))
  {
    ghost var queries := Queries(userSymptoms);
    ghost var answers := AnswersTo(bestMatch, queries, knownSymptoms);
    var mapped: seq<string> := [];
    for i := 0 to |userSymptoms|
      invariant Mapped(answers[..i]) == Success(mapped)
    {
      var sym := NormalizeSymptom(userSymptoms[i]);
      var found := bestMatch(sym, knownSymptoms, ScoreCutoff);
      assert queries[i] == NormalizeSymptom(userSymptoms[i]);
      AnswersToStep(bestMatch, queries, knownSymptoms, i);
      MappedStep(answers[..i], found);
      if found.None? {
        MappedFailureIsFinal(answers, i + 1);
        return Failure(NoMatch(i));
      }
      if found.value.choice != [] {
        mapped := mapped + [found.value.choice];
      }
    }
    assert answers[..|answers|] == answers;
    r := Success(mapped);
  }
}
