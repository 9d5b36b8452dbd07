/** `SymptomClassifier` of symptom_classifier.py, the standalone application's
    classifier. Loading keeps every row's symptom fields as they are, only stripped
    and lower-cased. It also remembers a description per disease, the one from the
    last row of that disease. `predict` compares the lower-cased text itself with every
    record: there is no fuzzy mapping. Each entry it reports carries the disease's
    description. The TF-IDF/cosine similarity is the `similarity` parameter. */
module StandaloneClassifier {
  import opened Wrappers
  import opened Text
  import opened Dataset
  import opened Ranking

  /** A loaded classifier: `data`, `descriptions` and `disease_corpus`. */
  datatype Classifier = Classifier(data: seq<Record>, descriptions: map<string, string>, corpus: seq<string>)

  /** One entry of the list `predict` returns, without the rounding of the score. */
  datatype Described = Described(disease: string, similarity: real, matchedSymptoms: seq<string>, description: string)

  /** `row.get(f"Symptom_{i}")` is truthy: the field is not empty. A field of blanks
      passes, and gives an empty symptom. */
  predicate IsPresent(field: string)
  {
    field != []
  }

  /** `.strip().lower()`. */
  function StripLower(field: string): string
  {
    Lower(Strip(field))
  }

  /** The symptom list `__init__` builds for one row: each present `Symptom_i` field,
      stripped and lower-cased, in column order. */
  function RawSymptoms(row: Row): seq<string>
  {
    SymptomFieldsUpTo(row, SymptomColumnCount, IsPresent, StripLower)
  }

  /** A string is among a row's symptoms exactly when it is the stripped, lower-cased
      field of a present `Symptom_i` column, and then it has no ASCII capital letter.
      A row yields at most seventeen symptoms. */
  lemma RawSymptomsMembers(row: Row, x: string)
    ensures x in RawSymptoms(row) <==>
      exists i :: 1 <= i <= SymptomColumnCount && ColumnGives(row, i, IsPresent, StripLower, x)
    ensures x in RawSymptoms(row) ==> forall c <- x :: !IsAsciiUpper(c)
    ensures |RawSymptoms(row)| <= SymptomColumnCount
  {
    SymptomFieldsUpToMembers(row, SymptomColumnCount, IsPresent, StripLower, x);
  }

  /** The symptom list of every row. */
  function RawRows(rows: seq<Row>): (extracted: seq<seq<string>>)
    ensures |extracted| == |rows|
  {
    seq(|rows|, n requires 0 <= n < |rows| => RawSymptoms(rows[n]))
  }

  /** `row.get("Description", "")`. */
  function DescriptionOf(row: Row): string
  {
    if DescriptionColumn in row then row[DescriptionColumn] else ""
  }

  /** `descriptions` once the rows are read: every row with a disease, in order, maps
      that disease to its own description, rows without symptoms included. */
  function Descriptions(rows: seq<Row>): map<string, string>
    decreases |rows|
  {
    if rows == [] then map[]
    else
      var n := |rows| - 1;
      var descriptions := Descriptions(rows[..n]);
      if DiseaseColumn in rows[n] then descriptions[rows[n][DiseaseColumn] := DescriptionOf(rows[n])]
      else descriptions
  }

  /** One more row: a row with a disease sets that disease's description to its own. */
  lemma DescriptionsStep(rows: seq<Row>, n: nat)
    requires n < |rows|
    ensures Descriptions(rows[..n + 1]) ==
      if DiseaseColumn in rows[n] then Descriptions(rows[..n])[rows[n][DiseaseColumn] := DescriptionOf(rows[n])]
      else Descriptions(rows[..n])
  {
    assert rows[..n + 1][..n] == rows[..n];
  }

  /** Row `i` is the last row of disease `x`. */
  predicate IsLastRowOf(rows: seq<Row>, i: nat, x: string)
  {
    && i < |rows|
    && DiseaseColumn in rows[i]
    && rows[i][DiseaseColumn] == x
    && forall j :: i < j < |rows| && DiseaseColumn in rows[j] ==> rows[j][DiseaseColumn] != x
  }

  /** Row `i` names disease `x`. */
  predicate NamesDisease(rows: seq<Row>, i: nat, x: string)
  {
    i < |rows| && DiseaseColumn in rows[i] && rows[i][DiseaseColumn] == x
  }

  /** A disease has a description exactly when some row names it. */
  lemma {:induction false} DescribedDiseases(rows: seq<Row>, x: string)
    ensures x in Descriptions(rows) <==> exists i: nat :: NamesDisease(rows, i, x)
    decreases |rows|
  {
    if rows != [] {
      var n := |rows| - 1;
      var init := rows[..n];
      DescribedDiseases(init, x);
      DescriptionsStep(rows, n);
      assert rows[..n + 1] == rows;
      if exists i: nat :: NamesDisease(rows, i, x) {
        var i: nat :| NamesDisease(rows, i, x);
        if i < n {
          assert NamesDisease(init, i, x);
        }
      }
      if x in Descriptions(init) {
        var i: nat :| NamesDisease(init, i, x);
        assert init[i] == rows[i];
        assert NamesDisease(rows, i, x);
      }
      if NamesDisease(rows, n, x) {
        assert x in Descriptions(rows);
      }
    }
  }

  /** A last row of `x` among the first `n` rows stays the last one when row `n` does
      not name `x`. */
  lemma LastRowExtends(rows: seq<Row>, n: nat, i: nat, x: string)
    requires n < |rows|
    requires IsLastRowOf(rows[..n], i, x)
    requires !NamesDisease(rows, n, x)
    ensures IsLastRowOf(rows[..n + 1], i, x)
  {
    var init, next := rows[..n], rows[..n + 1];
    forall j | i < j < |next| && DiseaseColumn in next[j]
      ensures next[j][DiseaseColumn] != x
    {
      if j < n {
        assert next[j] == init[j];
      }
    }
  }

  /** The description of a described disease is the one in the last row that names
      it. */
  lemma {:induction false} DescriptionsFromLastRow(rows: seq<Row>, x: string)
    requires x in Descriptions(rows)
    ensures exists i: nat :: IsLastRowOf(rows, i, x) && Descriptions(rows)[x] == DescriptionOf(rows[i])
    decreases |rows|
  {
    var n := |rows| - 1;
    var init := rows[..n];
    DescriptionsStep(rows, n);
    assert rows[..n + 1] == rows;
    if NamesDisease(rows, n, x) {
      assert IsLastRowOf(rows, n, x);
    } else {
      DescriptionsFromLastRow(init, x);
      var i: nat :| IsLastRowOf(init, i, x) && Descriptions(init)[x] == DescriptionOf(init[i]);
      LastRowExtends(rows, n, i, x);
      assert init[i] == rows[i];
    }
  }

  /** Every loaded record's disease has a description entry. */
  lemma LoadedDiseasesHaveDescriptions(rows: seq<Row>)
    requires Records(rows, RawRows(rows)).Success?
    ensures forall r <- Records(rows, RawRows(rows)).value :: r.disease in Descriptions(rows)
  {
    var extracted := RawRows(rows);
    var data := Records(rows, extracted).value;
    RecordsFollowRows(rows, extracted);
    forall r | r in data
      ensures r.disease in Descriptions(rows)
    {
      var k :| 0 <= k < |data| && data[k] == r;
      var i := KeptRows(extracted)[k];
      DescribedDiseases(rows, r.disease);
      assert NamesDisease(rows, i, r.disease);
    }
  }

  /** `SymptomClassifier(csv_path)`, given the rows the CSV reader yields: the records,
      the descriptions and the corpus, or the row at which `row["Disease"]` raises. */
  method Load(rows: seq<Row>) returns (r: Result<Classifier, LoadError>)
    ensures match Records(rows, RawRows(rows))
      case Failure(e) => r == Failure(e)
      case Success(data) => r == Success(Classifier(data, Descriptions(rows), Corpus(data)))
  {
    ghost var extracted := RawRows(rows);
    var data: seq<Record> := [];
    var descriptions: map<string, string> := map[];
    for n := 0 to |rows|
      invariant Records(rows[..n], extracted[..n]) == Success(data)
      invariant descriptions == Descriptions(rows[..n])
    {
      var row := rows[n];
      var symptoms := RawSymptoms(row);
      RecordsStep(rows, extracted, n);
      DescriptionsStep(rows, n);
      if DiseaseColumn !in row {
        RecordsFailureIsFinal(rows, extracted, n + 1);
        return Failure(MissingDisease(n));
      }
      var disease := row[DiseaseColumn];
      if symptoms != [] {
        data := data + [Record(disease, symptoms)];
      }
      descriptions := descriptions[disease := DescriptionOf(row)];
    }
    assert rows[..|rows|] == rows && extracted[..|rows|] == extracted;
    r := Success(Classifier(data, descriptions, Corpus(data)));
  }

  /** `self.descriptions.get(disease, "")`. */
  function DescriptionFor(descriptions: map<string, string>, disease: string): string
  {
    if disease in descriptions then descriptions[disease] else ""
  }

  /** What `predict(symptom_text, top_n)` returns. */
  function Prediction(c: Classifier, text: string, topN: int, similarity: string -> seq<real>): seq<Described>
    requires forall q :: |similarity(q)| == |c.data|
  {
    var report := Report(c.data, similarity(Lower(text)), topN);
    seq(|report|, k requires 0 <= k < |report| =>
      Described(report[k].disease, report[k].similarity, report[k].matchedSymptoms,
                DescriptionFor(c.descriptions, report[k].disease)))
  }

  /** `predict`: lower-case the text, rank the records by their similarity to it, and
      report the best record of each disease with the disease's description. */
  method Predict(c: Classifier, symptomText: string, similarity: string -> seq<real>, topN: int := DefaultTopN)
    returns (results: seq<Described>)
    requires forall q :: |similarity(q)| == |c.data|
    ensures results == Prediction(c, symptomText, topN, similarity)
  {
    var text := Lower(symptomText);
    var scores := similarity(text);
    var indexed := RankOrder(scores);
    var picked := TopDistinct(Diseases(c.data), indexed, topN);
    results := seq(|picked|, k requires 0 <= k < |picked| =>
      var i := picked[k];
      var disease := c.data[i].disease;
      Described(disease, scores[i], c.data[i].symptoms, DescriptionFor(c.descriptions, disease)));
  }

  /** The reported entries: `min(top_n, #diseases)` of them (one when `top_n <= 0`),
      no disease twice, in order of non-increasing similarity, each the disease, score
      and symptom list of the best-ranked record of its disease, with the description
      stored for that disease or the empty string. */
  lemma PredictionProperties(c: Classifier, text: string, topN: int, similarity: string -> seq<real>, results: seq<Described>)
    requires forall q :: |similarity(q)| == |c.data|
    requires results == Prediction(c, text, topN, similarity)
    ensures |results| ==
      if Target(topN) <= |DistinctNames(Diseases(c.data))| then Target(topN) else |DistinctNames(Diseases(c.data))|
    ensures forall k, l :: 0 <= k < l < |results| ==>
      results[k].disease != results[l].disease && results[k].similarity >= results[l].similarity
    ensures forall k :: 0 <= k < |results| ==>
      IsBestEntry(c.data, similarity(Lower(text)), Picked(Diseases(c.data), similarity(Lower(text)), topN)[k],
                  Ranked(results[k].disease, results[k].similarity, results[k].matchedSymptoms))
    ensures forall k :: 0 <= k < |results| ==>
      results[k].description == (if results[k].disease in c.descriptions then c.descriptions[results[k].disease] else "")
  {
    var scores := similarity(Lower(text));
    var report := Report(c.data, scores, topN);
    ReportProperties(c.data, scores, topN, report);
    assert forall k :: 0 <= k < |results| ==>
      Ranked(results[k].disease, results[k].similarity, results[k].matchedSymptoms) == report[k];
  }
}
