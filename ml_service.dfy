/** `SymptomClassifier` of app/services/ml_service.py. Loading turns each CSV row into
    a record of its disease and its normalised symptoms. `predict` splits the user's
    text on commas, maps each piece to a known symptom by fuzzy matching, and ranks the
    records by the similarity between the mapped symptoms and each record. It reports
    the best record of each disease, at most `top_n` of them. The fuzzy matcher and the
    TF-IDF/cosine similarity are parameters: `bestMatch` (see `Fuzzy`) and
    `similarity`, which maps the query text to one score per record. */
module MlService {
  import opened Wrappers
  import opened Text
  import opened Normalize
  import opened Fuzzy
  import opened Dataset
  import opened Vocabulary
  import opened Ranking

  /** A loaded classifier: its `data` and its `disease_corpus`. The fitted vectorizer
      is what the `similarity` parameter of `Predict` stands for. */
  datatype Classifier = Classifier(data: seq<Record>, corpus: seq<string>)

  /** `symp and symp.strip()`: the field is not blank. */
  predicate IsFilled(field: string)
  {
    Strip(field) != []
  }

  /** The symptom list `__init__` builds for one row: the normal form of each filled
      `Symptom_i` field, in column order, blank and missing columns skipped. */
  function NormalizedSymptoms(row: Row): seq<string>
  {
    SymptomFieldsUpTo(row, SymptomColumnCount, IsFilled, NormalizeSymptom)
  }

  /** A string is among a row's symptoms exactly when some filled `Symptom_i` field
      normalises to it, and then it is a symptom token. A row yields at most seventeen
      symptoms. */
  lemma NormalizedSymptomsMembers(row: Row, x: string)
    ensures x in NormalizedSymptoms(row) <==>
      exists i :: 1 <= i <= SymptomColumnCount && ColumnGives(row, i, IsFilled, NormalizeSymptom, x)
    ensures x in NormalizedSymptoms(row) ==> IsToken(x)
    ensures |NormalizedSymptoms(row)| <= SymptomColumnCount
  {
    SymptomFieldsUpToMembers(row, SymptomColumnCount, IsFilled, NormalizeSymptom, x);
  }

  /** The symptom loop over `range(1, 18)` for one row. */
  method ExtractSymptoms(row: Row) returns (symptoms: seq<string>)
    ensures symptoms == NormalizedSymptoms(row)
  {
    symptoms := [];
    for i := 1 to SymptomColumnCount + 1
      invariant symptoms == SymptomFieldsUpTo(row, i - 1, IsFilled, NormalizeSymptom)
    {
      var column := SymptomColumn(i);
      if column in row && Strip(row[column]) != [] {
        var normalized := NormalizeSymptom(row[column]);
        symptoms := symptoms + [normalized];
      }
    }
  }

  /** The symptom list extracted from every row. */
  function ExtractedRows(rows: seq<Row>): (extracted: seq<seq<string>>)
    ensures |extracted| == |rows|
  {
    seq(|rows|, n requires 0 <= n < |rows| => NormalizedSymptoms(rows[n]))
  }

  /** Every loaded record has between one and seventeen symptoms, each a symptom token. */
  lemma LoadedRecordsAreClean(rows: seq<Row>)
    requires Records(rows, ExtractedRows(rows)).Success?
    ensures forall r <- Records(rows, ExtractedRows(rows)).value ::
      && 1 <= |r.symptoms| <= SymptomColumnCount
      && forall s <- r.symptoms :: IsToken(s)
  {
    var extracted := ExtractedRows(rows);
    var data := Records(rows, extracted).value;
    RecordsFollowRows(rows, extracted);
    forall r | r in data
      ensures 1 <= |r.symptoms| <= SymptomColumnCount && forall s <- r.symptoms :: IsToken(s)
    {
      var k :| 0 <= k < |data| && data[k] == r;
      var kept := KeptRows(extracted);
      assert r.symptoms == extracted[kept[k]] == NormalizedSymptoms(rows[kept[k]]);
      forall s | s in r.symptoms
        ensures IsToken(s)
      {
        NormalizedSymptomsMembers(rows[kept[k]], s);
      }
      NormalizedSymptomsMembers(rows[kept[k]], "");
    }
  }

  /** The row loop of `__init__`. */
  method LoadRecords(rows: seq<Row>) returns (r: Result<seq<Record>, LoadError>)
    ensures r == Records(rows, ExtractedRows(rows))
  {
    ghost var extracted := ExtractedRows(rows);
    var data: seq<Record> := [];
    for n := 0 to |rows|
      invariant Records(rows[..n], extracted[..n]) == Success(data)
    {
      var symptoms := ExtractSymptoms(rows[n]);
      RecordsStep(rows, extracted, n);
      assert extracted[n] == symptoms;
      if DiseaseColumn !in rows[n] {
        RecordsFailureIsFinal(rows, extracted, n + 1);
        return Failure(MissingDisease(n));
      }
      var disease := rows[n][DiseaseColumn];
      if symptoms != [] {
        data := data + [Record(disease, symptoms)];
      }
    }
    assert rows[..|rows|] == rows && extracted[..|rows|] == extracted;
    r := Success(data);
  }

  /** `SymptomClassifier(csv_path)`, given the rows the CSV reader yields: the records
      and their corpus, or the row at which `row["Disease"]` raises. */
  method Load(rows: seq<Row>) returns (r: Result<Classifier, LoadError>)
    ensures match Records(rows, ExtractedRows(rows))
      case Failure(e) => r == Failure(e)
      case Success(data) => r == Success(Classifier(data, Corpus(data)))
  {
    var loaded := LoadRecords(rows);
    if loaded.Failure? {
      return Failure(loaded.error);
    }
    r := Success(Classifier(loaded.value, Corpus(loaded.value)));
  }

  /** `[s.strip() for s in symptom_text.split(",")]`: at least one segment, none with a
      comma or with whitespace at either end. */
  function Segments(text: string): (segments: seq<string>)
    ensures |segments| == |Split(text, ',')| >= 1
    ensures forall s <- segments :: ',' !in s && (s != [] ==> !IsSpace(s[0]) && !IsSpace(s[|s| - 1]))
  {
    var parts := Split(text, ',');
    var segments := seq(|parts|, i requires 0 <= i < |parts| => Strip(parts[i]));
    forall i | 0 <= i < |parts|
      ensures ',' !in segments[i]
      ensures segments[i] != [] ==> !IsSpace(segments[i][0]) && !IsSpace(segments[i][|segments[i]| - 1])
    {
      assert parts[i] in parts;
      StripIsTrimmedSegment(parts[i]);
    }
    segments
  }

  /** A stripped comma-free piece is a segment: comma-free, with no whitespace at
      either end. */
  lemma StripIsTrimmedSegment(p: string)
    requires ',' !in p
    ensures ',' !in Strip(p)
    ensures Strip(p) != [] ==> !IsSpace(Strip(p)[0]) && !IsSpace(Strip(p)[|Strip(p)| - 1])
  {
    StripAvoids(p, ',');
  }

  /** Segment `i` is the `i`-th comma-separated piece of the text with its leading and
      trailing whitespace removed, and the pieces joined back with commas give the text. */
  lemma SegmentsAreStrippedPieces(text: string)
    ensures |Segments(text)| == |Split(text, ',')|
    ensures forall i :: 0 <= i < |Segments(text)| ==> Segments(text)[i] == Strip(Split(text, ',')[i])
    ensures Join(Split(text, ','), [',']) == text
  {
    JoinSplit(text, ',');
  }

  /** Joining trimmed, comma-free pieces with commas gives a text whose segments are
      those pieces. */
  lemma SegmentsOfJoined(pieces: seq<string>)
    requires pieces != []
    requires forall p <- pieces :: ',' !in p && (p != [] ==> !IsSpace(p[0]) && !IsSpace(p[|p| - 1]))
    ensures Segments(Join(pieces, [','])) == pieces
  {
    SplitJoin(pieces, ',');
    forall i | 0 <= i < |pieces|
      ensures Strip(pieces[i]) == pieces[i]
    {
      assert pieces[i] in pieces;
      StripKeepsTrimmed(pieces[i]);
    }
  }

  /** What `predict(symptom_text, top_n)` returns or raises. */
  function Prediction(c: Classifier, text: string, topN: int, bestMatch: BestMatch, similarity: string -> seq<real>)
    : Result<seq<Ranked>, MapError>
    requires forall q :: |similarity(q)| == |c.data|
  {
    match Mapped(Answers(bestMatch, Segments(text), KnownSymptoms(c.data)))
    case Failure(e) => Failure(e)
    case Success(mapped) =>
      if mapped == [] then Success([])
      else Success(Report(c.data, similarity(Join(mapped, "")), topN))
  }

  /** `predict`: split and strip the text, map the pieces onto the vocabulary, return
      nothing when nothing maps, otherwise rank the records by the similarity of the
      concatenated mapped symptoms and report the best record of each disease. */
  method Predict(c: Classifier, symptomText: string, bestMatch: BestMatch, similarity: string -> seq<real>, topN: int := DefaultTopN)
    returns (r: Result<seq<Ranked>, MapError>)
    requires forall q :: |similarity(q)| == |c.data|
    ensures r == Prediction(c, symptomText, topN, bestMatch, similarity)
  {
    var userSymptomList := Segments(symptomText);
    var allSymptoms := AllSymptoms(c.data);
    var mapped := MapToKnownSymptoms(userSymptomList, allSymptoms, bestMatch);
    if mapped.Failure? {
      return Failure(mapped.error);
    }
    if mapped.value == [] {
      return Success([]);
    }
    var scores := similarity(Join(mapped.value, ""));
    var results := RankAndReport(c.data, scores, topN);
    r := Success(results);
  }

  /** `predict` raises exactly when the mapping of its segments raises, with the same
      error. */
  lemma PredictionFailsWithMapping(
    c: Classifier, text: string, topN: int, bestMatch: BestMatch, similarity: string -> seq<real>)
    requires forall q :: |similarity(q)| == |c.data|
    ensures var mapped := Mapped(Answers(bestMatch, Segments(text), KnownSymptoms(c.data)));
      && (Prediction(c, text, topN, bestMatch, similarity).Failure? <==> mapped.Failure?)
      && (mapped.Failure? ==> Prediction(c, text, topN, bestMatch, similarity).error == mapped.error)
  {
  }

  /** `predict` raises exactly when some segment of the text has no known symptom
      scoring at least 60, and it raises at the first such segment. */
  lemma PredictionFailsAtFirstUnmatchedSegment(
    c: Classifier, text: string, topN: int, bestMatch: BestMatch, similarity: string -> seq<real>)
    requires forall q :: |similarity(q)| == |c.data|
    ensures Prediction(c, text, topN, bestMatch, similarity).Failure? <==>
      exists i :: 0 <= i < |Segments(text)| &&
        bestMatch(NormalizeSymptom(Segments(text)[i]), KnownSymptoms(c.data), ScoreCutoff).None?
    ensures Prediction(c, text, topN, bestMatch, similarity).Failure? ==>
      var i := Prediction(c, text, topN, bestMatch, similarity).error.index;
      && i < |Segments(text)|
      && bestMatch(NormalizeSymptom(Segments(text)[i]), KnownSymptoms(c.data), ScoreCutoff).None?
      && forall j :: 0 <= j < i ==>
           bestMatch(NormalizeSymptom(Segments(text)[j]), KnownSymptoms(c.data), ScoreCutoff).Some?
  {
    MappingFailsAtFirstUnmatchedSegment(bestMatch, Segments(text), KnownSymptoms(c.data));
    PredictionFailsWithMapping(c, text, topN, bestMatch, similarity);
  }

  /** With a matcher that honours its cutoff, a successful `predict` returns `[]`
      exactly when no segment maps to a non-empty symptom. */
  lemma PredictionIsEmptyOnlyWhenNothingMapped(
    c: Classifier, text: string, topN: int, bestMatch: BestMatch, similarity: string -> seq<real>)
    requires forall q :: |similarity(q)| == |c.data|
    requires HonoursCutoff(bestMatch)
    requires Prediction(c, text, topN, bestMatch, similarity).Success?
    ensures Prediction(c, text, topN, bestMatch, similarity).value == [] <==>
      Mapped(Answers(bestMatch, Segments(text), KnownSymptoms(c.data))).value == []
  {
    var mapped := Mapped(Answers(bestMatch, Segments(text), KnownSymptoms(c.data))).value;
    if mapped != [] {
      MappedAreKnownAndAboveCutoff(bestMatch, Segments(text), KnownSymptoms(c.data));
      assert mapped[0] in KnownSymptoms(c.data);
      assert c.data != [];
      var scores := similarity(Join(mapped, ""));
      PickedCount(Diseases(c.data), scores, topN);
      assert Diseases(c.data)[0] in DistinctNames(Diseases(c.data));
    }
  }
}
