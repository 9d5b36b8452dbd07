/** The dataset both classifiers load: CSV rows with a `Disease` column, up to
    seventeen `Symptom_1`..`Symptom_17` columns and, for symptom_classifier.py, a
    `Description` column. A row becomes a `Record` when its symptom list is not
    empty; `row["Disease"]` is read for every row, so a row without that column
    raises. The two classifiers differ only in how they clean a symptom field, so the
    record list is specified here once, over the symptom lists extracted from the
    rows. */
module Dataset {
  import opened Wrappers
  import opened Text

  /** A CSV row as `csv.DictReader` yields it: column name to field. A missing column
      (or a field `DictReader` fills with `None`) is a key the map does not have. */
  type Row = map<string, string>

  /** One entry of the classifier's `data` list. */
  datatype Record = Record(disease: string, symptoms: seq<string>)

  /** `row["Disease"]` raised `KeyError` at the row with this position. */
  datatype LoadError = MissingDisease(row: nat)

  const DiseaseColumn: string := "Disease"
  const DescriptionColumn: string := "Description"

  /** The loops run `for i in range(1, 18)`. */
  const SymptomColumnCount: nat := 17

  /** `f"Symptom_{i}"`. */
  function SymptomColumn(i: nat): string
  {
    "Symptom_" + Decimal(i)
  }

  /** Different column numbers name different columns, so no field is read twice. */
  lemma SymptomColumnIsInjective(i: nat, j: nat)
    requires SymptomColumn(i) == SymptomColumn(j)
    ensures i == j
  {
    assert Decimal(i) == SymptomColumn(i)[8..];
    assert Decimal(j) == SymptomColumn(j)[8..];
  }

  /** Column `Symptom_i` is in the row, its field passes `keep`, and `clean` turns it
      into `x`. */
  predicate ColumnGives(row: Row, i: nat, keep: string -> bool, clean: string -> string, x: string)
  {
    SymptomColumn(i) in row && keep(row[SymptomColumn(i)]) && x == clean(row[SymptomColumn(i)])
  }

  /** The symptom list of one row: for the columns `Symptom_1`..`Symptom_m` in order,
      each field that is there and passes `keep`, turned into a symptom by `clean`.
      The two loaders differ only in `keep` and `clean`. */
  function SymptomFieldsUpTo(row: Row, m: nat, keep: string -> bool, clean: string -> string): (symptoms: seq<string>)
    ensures |symptoms| <= m
  {
    if m == 0 then []
    else
      var column := SymptomColumn(m);
      SymptomFieldsUpTo(row, m - 1, keep, clean) +
        (if column in row && keep(row[column]) then [clean(row[column])] else [])
  }

  /** A string is in a row's symptom list exactly when some column among the first `m`
      gives it. */
  lemma {:induction false} SymptomFieldsUpToMembers(
    row: Row, m: nat, keep: string -> bool, clean: string -> string, x: string)
    ensures x in SymptomFieldsUpTo(row, m, keep, clean) <==> exists i :: 1 <= i <= m && ColumnGives(row, i, keep, clean, x)
  {
    if m > 0 {
      SymptomFieldsUpToMembers(row, m - 1, keep, clean, x);
      var column := SymptomColumn(m);
      var tail := if column in row && keep(row[column]) then [clean(row[column])] else [];
      assert SymptomFieldsUpTo(row, m, keep, clean) == SymptomFieldsUpTo(row, m - 1, keep, clean) + tail;
      if x in tail {
        assert ColumnGives(row, m, keep, clean, x);
      }
      if exists i :: 1 <= i <= m && ColumnGives(row, i, keep, clean, x) {
        var i :| 1 <= i <= m && ColumnGives(row, i, keep, clean, x);
        if i == m {
          assert x in tail;
        }
      }
    }
  }

  /** The record list (or the error) the load loop produces, given the rows and the
      symptom list extracted from each row: rows are taken in order; a row without a
      `Disease` column raises; a row whose symptom list is empty is skipped. */
  function Records(rows: seq<Row>, extracted: seq<seq<string>>): Result<seq<Record>, LoadError>
    requires |extracted| == |rows|
    decreases |rows|
  {
    if rows == [] then Success([])
    else
      var n := |rows| - 1;
      match Records(rows[..n], extracted[..n])
      case Failure(e) => Failure(e)
      case Success(data) =>
        if DiseaseColumn !in rows[n] then Failure(MissingDisease(n))
        else Success(if extracted[n] != [] then data + [Record(rows[n][DiseaseColumn], extracted[n])] else data)
  }

  /** One more row: the load fails if it did, the row raises without a `Disease`
      column, and otherwise its record is appended when its symptom list is not
      empty. */
  lemma RecordsStep(rows: seq<Row>, extracted: seq<seq<string>>, n: nat)
    requires |extracted| == |rows|
    requires n < |rows|
    ensures Records(rows[..n + 1], extracted[..n + 1]) ==
      match Records(rows[..n], extracted[..n])
      case Failure(e) => Failure(e)
      case Success(data) =>
        if DiseaseColumn !in rows[n] then Failure(MissingDisease(n))
        else Success(if extracted[n] != [] then data + [Record(rows[n][DiseaseColumn], extracted[n])] else data)
  {
    assert rows[..n + 1][..n] == rows[..n] && extracted[..n + 1][..n] == extracted[..n];
  }

  /** The positions of the rows that become records, in ascending order. */
  ghost function KeptRows(extracted: seq<seq<string>>): (kept: seq<nat>)
    ensures forall k :: 0 <= k < |kept| ==> kept[k] < |extracted|
    ensures |kept| <= |extracted|
    decreases |extracted|
  {
    if extracted == [] then []
    else
      var n := |extracted| - 1;
      KeptRows(extracted[..n]) + (if extracted[n] != [] then [n] else [])
  }

  /** Loading fails exactly when some row has no `Disease` column, and it fails at the
      first such row. */
  lemma {:induction false} RecordsFailAtFirstMissingDisease(rows: seq<Row>, extracted: seq<seq<string>>)
    requires |extracted| == |rows|
    ensures Records(rows, extracted).Failure? <==> exists i :: 0 <= i < |rows| && DiseaseColumn !in rows[i]
    ensures Records(rows, extracted).Failure? ==>
      var i := Records(rows, extracted).error.row;
      && i < |rows|
      && DiseaseColumn !in rows[i]
      && forall j :: 0 <= j < i ==> DiseaseColumn in rows[j]
    decreases |rows|
  {
    if rows != [] {
      var n := |rows| - 1;
      RecordsFailAtFirstMissingDisease(rows[..n], extracted[..n]);
      assert forall i :: 0 <= i < n ==> rows[..n][i] == rows[i];
    }
  }

  /** The kept rows are in strictly ascending order. */
  lemma {:induction false} KeptRowsAscend(extracted: seq<seq<string>>)
    ensures forall k, l :: 0 <= k < l < |KeptRows(extracted)| ==> KeptRows(extracted)[k] < KeptRows(extracted)[l]
    decreases |extracted|
  {
    if extracted != [] {
      var n := |extracted| - 1;
      var init := extracted[..n];
      KeptRowsAscend(init);
      var kept0, kept := KeptRows(init), KeptRows(extracted);
      assert kept == kept0 + if extracted[n] != [] then [n] else [];
      forall k, l | 0 <= k < l < |kept|
        ensures kept[k] < kept[l]
      {
        assert kept[k] == kept0[k] < n;
      }
    }
  }

  /** A row is kept exactly when its symptom list is not empty. */
  lemma {:induction false} KeptRowsAreTheNonEmpty(extracted: seq<seq<string>>)
    ensures forall i :: 0 <= i < |extracted| ==> (i in KeptRows(extracted) <==> extracted[i] != [])
    decreases |extracted|
  {
    if extracted != [] {
      var n := |extracted| - 1;
      var init := extracted[..n];
      KeptRowsAreTheNonEmpty(init);
      var kept0, kept := KeptRows(init), KeptRows(extracted);
      assert kept == kept0 + if extracted[n] != [] then [n] else [];
      forall i | 0 <= i < |extracted|
        ensures i in kept <==> extracted[i] != []
      {
        if i < n {
          assert init[i] == extracted[i];
          assert i in kept <==> i in kept0;
        } else {
          assert n !in kept0;
        }
      }
    }
  }

  /** On success there is one record per row with a non-empty symptom list, in row
      order, carrying that row's disease and symptom list; every row has a disease. */
  lemma {:induction false} RecordsFollowRows(rows: seq<Row>, extracted: seq<seq<string>>)
    requires |extracted| == |rows|
    requires Records(rows, extracted).Success?
    ensures var data := Records(rows, extracted).value;
      var kept := KeptRows(extracted);
      && |data| == |kept| <= |rows|
      && (forall k, l :: 0 <= k < l < |kept| ==> kept[k] < kept[l])
      && (forall i :: 0 <= i < |rows| ==> DiseaseColumn in rows[i] && (i in kept <==> extracted[i] != []))
      && (forall k :: 0 <= k < |kept| ==> data[k] == Record(rows[kept[k]][DiseaseColumn], extracted[kept[k]]))
    decreases |rows|
  {
    KeptRowsAscend(extracted);
    KeptRowsAreTheNonEmpty(extracted);
    RecordsAlongKeptRows(rows, extracted);
  }

  /** On success every row has a disease, and record `k` is made from the `k`-th kept
      row. */
  lemma {:induction false} RecordsAlongKeptRows(rows: seq<Row>, extracted: seq<seq<string>>)
    requires |extracted| == |rows|
    requires Records(rows, extracted).Success?
    ensures var data := Records(rows, extracted).value;
      var kept := KeptRows(extracted);
      && |data| == |kept|
      && (forall i :: 0 <= i < |rows| ==> DiseaseColumn in rows[i])
      && (forall k :: 0 <= k < |kept| ==> data[k] == Record(rows[kept[k]][DiseaseColumn], extracted[kept[k]]))
    decreases |rows|
  {
    if rows != [] {
      var n := |rows| - 1;
      var init, einit := rows[..n], extracted[..n];
      RecordsAlongKeptRows(init, einit);
      var data0, kept0 := Records(init, einit).value, KeptRows(einit);
      var data, kept := Records(rows, extracted).value, KeptRows(extracted);
      assert kept == kept0 + if extracted[n] != [] then [n] else [];
      assert DiseaseColumn in rows[n];
      assert data == if extracted[n] != [] then data0 + [Record(rows[n][DiseaseColumn], extracted[n])] else data0;
      forall i | 0 <= i < n
        ensures DiseaseColumn in rows[i]
      {
        assert init[i] == rows[i];
      }
      forall k | 0 <= k < |kept|
        ensures data[k] == Record(rows[kept[k]][DiseaseColumn], extracted[kept[k]])
      {
        if k < |kept0| {
          assert kept[k] == kept0[k] && data[k] == data0[k];
          assert init[kept0[k]] == rows[kept[k]] && einit[kept0[k]] == extracted[kept[k]];
        }
      }
    }
  }

  /** Once a prefix of the rows fails to load, the whole list fails with that error. */
  lemma {:induction false} RecordsFailureIsFinal(rows: seq<Row>, extracted: seq<seq<string>>, n: nat)
    requires |extracted| == |rows|
    requires n <= |rows|
    requires Records(rows[..n], extracted[..n]).Failure?
    ensures Records(rows, extracted) == Records(rows[..n], extracted[..n])
    decreases |rows| - n
  {
    if n < |rows| {
      assert rows[..n + 1][..n] == rows[..n];
      assert extracted[..n + 1][..n] == extracted[..n];
      assert Records(rows[..n + 1], extracted[..n + 1]) == Records(rows[..n], extracted[..n]);
      RecordsFailureIsFinal(rows, extracted, n + 1);
    } else {
      assert rows[..n] == rows && extracted[..n] == extracted;
    }
  }

  /** `disease_corpus`: each record's symptoms joined with single spaces, one entry per
      record, in record order. */
  function Corpus(data: seq<Record>): (corpus: seq<string>)
    ensures |corpus| == |data|
    ensures forall i :: 0 <= i < |data| ==> corpus[i] == Join(data[i].symptoms, " ")
  {
    seq(|data|, i requires 0 <= i < |data| => Join(data[i].symptoms, " "))
  }

  /** A corpus entry splits back on spaces into its record's symptom list when no
      symptom holds a space itself. */
  lemma CorpusSplitsIntoSymptoms(data: seq<Record>, i: nat)
    requires i < |data|
    requires data[i].symptoms != []
    requires forall s <- data[i].symptoms :: ' ' !in s
    ensures Split(Corpus(data)[i], ' ') == data[i].symptoms
  {
    SplitJoin(data[i].symptoms, ' ');
  }
}
