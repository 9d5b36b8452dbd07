/** `get_all_symptoms`: the union of every record's symptoms, as a sorted list without
    duplicates. Sorting uses Python's order on `str` (code point by code point, a
    proper prefix first), specified here as `Less`. */
module Vocabulary {
  import opened Dataset

  /** Python's `a < b` on `str`. */
  predicate Less(a: string, b: string)
  {
    if a == [] then b != []
    else if b == [] then false
    else a[0] < b[0] || (a[0] == b[0] && Less(a[1..], b[1..]))
  }

  lemma {:induction false} LessIsIrreflexive(a: string)
    ensures !Less(a, a)
  {
    if a != [] {
      LessIsIrreflexive(a[1..]);
    }
  }

  lemma {:induction false} LessIsAsymmetric(a: string, b: string)
    ensures !(Less(a, b) && Less(b, a))
  {
    if a != [] && b != [] && a[0] == b[0] {
      LessIsAsymmetric(a[1..], b[1..]);
    }
  }

  lemma {:induction false} LessIsTransitive(a: string, b: string, c: string)
    requires Less(a, b) && Less(b, c)
    ensures Less(a, c)
  {
    if a != [] && b != [] && c != [] && a[0] == b[0] && b[0] == c[0] {
      LessIsTransitive(a[1..], b[1..], c[1..]);
    }
  }

  /** Two different strings are ordered one way or the other. */
  lemma {:induction false} LessIsTotal(a: string, b: string)
    ensures Less(a, b) || a == b || Less(b, a)
  {
    if a != [] && b != [] && a[0] == b[0] {
      LessIsTotal(a[1..], b[1..]);
      assert a == [a[0]] + a[1..] && b == [b[0]] + b[1..];
    }
  }

  predicate StrictlyAscending(s: seq<string>)
  {
    forall k, l :: 0 <= k < l < |s| ==> Less(s[k], s[l])
  }

  /** `m` is the smallest element of `s`. */
  predicate IsLeast(m: string, s: set<string>)
  {
    m in s && forall x <- s :: x == m || Less(m, x)
  }

  /** Every finite non-empty set of strings has a smallest element. */
  lemma {:induction false} LeastExists(s: set<string>)
    requires s != {}
    ensures exists m :: IsLeast(m, s)
    decreases |s|
  {
    var y :| y in s;
    if s - {y} == {} {
      assert s == {y};
      assert IsLeast(y, s);
    } else {
      LeastExists(s - {y});
      var m :| IsLeast(m, s - {y});
      LessIsTotal(m, y);
      if Less(m, y) {
        assert IsLeast(m, s);
      } else {
        forall x | x in s && x != y
          ensures Less(y, x)
        {
          if x != m {
            LessIsTransitive(y, m, x);
          }
        }
        assert IsLeast(y, s);
      }
    }
  }

  /** `sorted(list(s))`: the elements of `s`, each once, in ascending order. */
  function SortedList(s: set<string>): (r: seq<string>)
    ensures StrictlyAscending(r)
    ensures forall x :: x in r <==> x in s
    ensures |r| == |s|
    decreases |s|
  {
    if s == {} then []
    else
      LeastExists(s);
      assert forall m, m' :: IsLeast(m, s) && IsLeast(m', s) ==> m == m' by {
        forall m, m' | IsLeast(m, s) && IsLeast(m', s)
          ensures m == m'
        {
          LessIsAsymmetric(m, m');
        }
      }
      var m :| IsLeast(m, s);
      var rest := SortedList(s - {m});
      forall j | 0 <= j < |rest|
        ensures Less(m, rest[j])
      {
        assert rest[j] in rest;
      }
      AscendingCons(m, rest);
      [m] + rest
  }

  /** A string below every element of an ascending list can go in front. */
  lemma AscendingCons(m: string, rest: seq<string>)
    requires StrictlyAscending(rest)
    requires forall j :: 0 <= j < |rest| ==> Less(m, rest[j])
    ensures StrictlyAscending([m] + rest)
  {
    var r := [m] + rest;
    forall k, l | 0 <= k < l < |r|
      ensures Less(r[k], r[l])
    {
      assert r[l] == rest[l - 1];
      if k > 0 {
        assert r[k] == rest[k - 1];
      }
    }
  }

  /** There is only one strictly ascending list of a given set of strings, so the
      vocabulary list is determined by the set of symptoms. */
  lemma {:induction false} AscendingListIsUnique(a: seq<string>, b: seq<string>)
    requires StrictlyAscending(a) && StrictlyAscending(b)
    requires forall x :: x in a <==> x in b
    ensures a == b
    decreases |a|
  {
    assert a != [] ==> a[0] in b;
    assert b != [] ==> b[0] in a;
    if a != [] && b != [] {
      assert a[0] in b && b[0] in a;
      if a[0] != b[0] {
        var i :| 0 <= i < |b| && b[i] == a[0];
        var j :| 0 <= j < |a| && a[j] == b[0];
        LessIsAsymmetric(a[0], b[0]);
        assert false;
      }
      forall x
        ensures x in a[1..] <==> x in b[1..]
      {
        if x in a[1..] {
          var k :| 1 <= k < |a| && a[k] == x;
          LessIsIrreflexive(a[0]);
          assert x in b && x != b[0];
          var l :| 0 <= l < |b| && b[l] == x;
          assert x in b[1..] by { assert b[1..][l - 1] == x; }
        }
        if x in b[1..] {
          var l :| 1 <= l < |b| && b[l] == x;
          LessIsIrreflexive(b[0]);
          assert x in a && x != a[0];
          var k :| 0 <= k < |a| && a[k] == x;
          assert x in a[1..] by { assert a[1..][k - 1] == x; }
        }
      }
      AscendingListIsUnique(a[1..], b[1..]);
      assert a == [a[0]] + a[1..] && b == [b[0]] + b[1..];
    }
  }

  /** Every symptom some record lists. */
  function SymptomSet(data: seq<Record>): (symptoms: set<string>)
    ensures forall x :: x in symptoms <==> exists k :: 0 <= k < |data| && x in data[k].symptoms
  {
    set k, x | 0 <= k < |data| && x in data[k].symptoms :: x
  }

  /** The list `get_all_symptoms` returns: strictly ascending, and a string is in it
      exactly when some record lists it. */
  function KnownSymptoms(data: seq<Record>): (r: seq<string>)
    ensures StrictlyAscending(r)
    ensures forall x :: x in r <==> exists k :: 0 <= k < |data| && x in data[k].symptoms
  {
    SortedList(SymptomSet(data))
  }

  /** `get_all_symptoms`: the set update loop, then `sorted`. */
  method AllSymptoms(data: seq<Record>) returns (r: seq<string>)
    ensures r == KnownSymptoms(data)
  {
    var symSet: set<string> := {};
    for k := 0 to |data|
      invariant forall x :: x in symSet <==> exists j :: 0 <= j < k && x in data[j].symptoms
    {
      symSet := symSet + set x | x in data[k].symptoms;
    }
    assert symSet == SymptomSet(data);
    r := SortedList(symSet);
  }
}
