/** The request handlers of the fake-job-posting service: assembling the
    feature row of a posting, scoring it (with the sparse-to-dense retry and
    the threshold decision), and explaining the score by ranked feature
    contributions. Every handler is a pure function of the request, the
    loaded artifacts and, for scoring, the configured threshold. */
module App {
  import opened Outcomes
  import opened PySlice
  import opened Ranking
  import opened Artifacts

  /** The request body: a posting's text and metadata. */
  datatype JobPost = JobPost(text: string,
                             employmentType: string,
                             requiredExperience: string,
                             requiredEducation: string,
                             telecommuting: int,
                             hasCompanyLogo: int,
                             hasQuestions: int)

  /** The columns the encoder was fitted on, in its order. */
  const CategoricalColumns: seq<string> := ["employment_type", "required_experience", "required_education"]

  /** The names of the three raw numeric columns, in row order. */
  const NumericColumns: seq<string> := ["telecommuting", "has_company_logo", "has_questions"]

  /** The artifacts were fitted together: valid, with the encoder fitted on
      the request's three categorical columns under the names and in the
      order the handlers give them. */
  ghost predicate Fitted(art: Artifacts)
  {
    art.Valid() && art.encoder.columns == CategoricalColumns
  }

  /** The one-row categorical record handed to the encoder. */
  function CategoricalRecord(post: JobPost): seq<string>
  {
    [post.employmentType, post.requiredExperience, post.requiredEducation]
  }

  /** The numeric segment of the row. */
  function NumericSegment(post: JobPost): seq<real>
  {
    [post.telecommuting as real, post.hasCompanyLogo as real, post.hasQuestions as real]
  }

  /** A request that gives only the text: every categorical field is
      "Unknown" and every flag is 0. */
  function PostWithDefaults(text: string): (post: JobPost)
    ensures post.text == text
    ensures CategoricalRecord(post) == ["Unknown", "Unknown", "Unknown"]
    ensures NumericSegment(post) == [0.0, 0.0, 0.0]
  {
    JobPost(text, "Unknown", "Unknown", "Unknown", 0, 0, 0)
  }

  /** The number of entries per ranked list when the explanation request
      gives none. */
  const DefaultTopN: int := 10

  function TextWidth(art: Artifacts): nat
  {
    |art.vectorizer.vocabulary|
  }

  function CategoricalWidth(art: Artifacts): nat
  {
    Width(art.encoder.categories)
  }

  /* ---------------------------------------------------------------------
     Feature assembly
     --------------------------------------------------------------------- */

  /** The combined row of a posting: text segment, then categorical segment,
      then the three numeric flags. Fails only when the encoder was not
      fitted on the three categorical columns, by name and in order. */
  function BuildCombinedRow(art: Artifacts, post: JobPost): (r: Outcome<seq<real>>)
    ensures r.Ok? <==> art.encoder.columns == CategoricalColumns && |art.encoder.categories| == 3
    ensures r.Ok? ==> |r.value| == |art.vectorizer.transform(post.text)| + CategoricalWidth(art) + 3
    ensures r.Ok? ==> r.value[|r.value| - 3..] == NumericSegment(post)
  {
    var textVec := art.vectorizer.transform(post.text);
    match art.encoder.Transform(CategoricalColumns, CategoricalRecord(post))
    case Fail => Fail
    case Ok(catVec) => Ok(textVec + catVec + NumericSegment(post))
  }

  /** With artifacts fitted together, every posting, whatever its
      categorical values, assembles to a row of the same width made of the
      three segments in order. */
  lemma AssembledLayout(art: Artifacts, post: JobPost)
    requires Fitted(art)
    ensures BuildCombinedRow(art, post).Ok?
    ensures var row, t, c := BuildCombinedRow(art, post).value, TextWidth(art), CategoricalWidth(art);
      && |row| == t + c + 3
      && row[..t] == art.vectorizer.transform(post.text)
      && row[t..t + c] == Indicators(art.encoder.categories, CategoricalRecord(post))
      && row[t + c..] == NumericSegment(post)
  {
  }

  /** The columns of an assembled row that encode categorical field `f`. */
  function FieldColumns(art: Artifacts, row: seq<real>, f: nat): (r: seq<real>)
    requires f < |art.encoder.categories|
    requires |row| == TextWidth(art) + CategoricalWidth(art) + 3
    ensures |r| == |art.encoder.categories[f]|
  {
    BlockInBounds(art.encoder.categories, f);
    var lo := TextWidth(art) + Offset(art.encoder.categories, f);
    row[lo..lo + |art.encoder.categories[f]|]
  }

  /** A categorical value the encoder never saw leaves the row's width as
      it is and sets none of that field's columns. */
  lemma UnknownCategoryEncodesZero(art: Artifacts, post: JobPost, f: nat)
    requires Fitted(art)
    requires f < 3 && CategoricalRecord(post)[f] !in art.encoder.categories[f]
    ensures BuildCombinedRow(art, post).Ok?
    ensures |BuildCombinedRow(art, post).value| == TextWidth(art) + CategoricalWidth(art) + 3
    ensures forall j :: 0 <= j < |art.encoder.categories[f]| ==>
              FieldColumns(art, BuildCombinedRow(art, post).value, f)[j] == 0.0
  {
    FieldColumnsAreBlock(art, post, f);
    UnknownCategoryIsZero(art.encoder.categories, CategoricalRecord(post), f);
  }

  /** The columns of field `f` in an assembled row are the encoder's block
      for that field. */
  lemma FieldColumnsAreBlock(art: Artifacts, post: JobPost, f: nat)
    requires Fitted(art) && f < 3
    ensures BuildCombinedRow(art, post).Ok?
    ensures |BuildCombinedRow(art, post).value| == TextWidth(art) + CategoricalWidth(art) + 3
    ensures FieldColumns(art, BuildCombinedRow(art, post).value, f)
         == Block(art.encoder.categories, CategoricalRecord(post), f)
  {
    var cats, record := art.encoder.categories, CategoricalRecord(post);
    var row := BuildCombinedRow(art, post).value;
    AssembledLayout(art, post);
    var t, c, lo := TextWidth(art), CategoricalWidth(art), Offset(cats, f);
    BlockInBounds(cats, f);
    assert row[t..t + c][lo..lo + |cats[f]|] == row[t + lo..t + lo + |cats[f]|];
  }

  /** The feature-name index: vocabulary terms, then the encoder's
      `<column>_<category>` names, then the numeric column names. */
  function FeatureNames(art: Artifacts): (r: Outcome<seq<string>>)
    ensures r.Ok? <==> art.encoder.columns == CategoricalColumns && |art.encoder.categories| == 3
    ensures r.Ok? ==> |r.value| == TextWidth(art) + CategoricalWidth(art) + 3
    ensures r.Ok? ==> r.value[|r.value| - 3..] == NumericColumns
  {
    match art.encoder.FeatureNamesOut(CategoricalColumns)
    case Fail => Fail
    case Ok(catNames) => Ok(art.vectorizer.vocabulary + catNames + NumericColumns)
  }

  /** Position i of the feature-name index names column i of every
      assembled row: the index is as wide as the row, and each segment's
      names sit over that segment's values. */
  lemma NamesAlignWithRow(art: Artifacts, post: JobPost)
    requires Fitted(art)
    ensures BuildCombinedRow(art, post).Ok? && FeatureNames(art).Ok?
    ensures var row, names := BuildCombinedRow(art, post).value, FeatureNames(art).value;
      var t, c, cats := TextWidth(art), CategoricalWidth(art), art.encoder.categories;
      && |names| == |row|
      && (forall i :: 0 <= i < t ==>
            names[i] == art.vectorizer.vocabulary[i] && row[i] == art.vectorizer.transform(post.text)[i])
      && (forall k :: 0 <= k < 3 ==>
            names[t + c + k] == NumericColumns[k] && row[t + c + k] == NumericSegment(post)[k])
  {
  }

  /** Column `t + Offset(f) + j` of the row, inside the categorical segment,
      is named `<column f>_<category j of f>` and holds 1 exactly when the
      posting's value for field `f` is that category. */
  lemma CategoricalColumnAligned(art: Artifacts, post: JobPost, f: nat, j: nat)
    requires Fitted(art)
    requires f < 3 && j < |art.encoder.categories[f]|
    ensures BuildCombinedRow(art, post).Ok? && FeatureNames(art).Ok?
    ensures var row, names := BuildCombinedRow(art, post).value, FeatureNames(art).value;
      var cats := art.encoder.categories;
      var i := TextWidth(art) + Offset(cats, f) + j;
      && TextWidth(art) <= i < TextWidth(art) + CategoricalWidth(art)
      && names[i] == CategoricalColumns[f] + "_" + cats[f][j]
      && row[i] == if cats[f][j] == CategoricalRecord(post)[f] then 1.0 else 0.0
  {
    BlockInBounds(art.encoder.categories, f);
    CategoricalNameAt(art, f, j);
    CategoricalValueAt(art, post, f, j);
  }

  /** The name half of `CategoricalColumnAligned`. */
  lemma CategoricalNameAt(art: Artifacts, f: nat, j: nat)
    requires Fitted(art)
    requires f < 3 && j < |art.encoder.categories[f]|
    ensures FeatureNames(art).Ok?
    ensures var names, cats := FeatureNames(art).value, art.encoder.categories;
      var i := TextWidth(art) + Offset(cats, f) + j;
      i < |names| && names[i] == CategoricalColumns[f] + "_" + cats[f][j]
  {
    var names, cats := FeatureNames(art).value, art.encoder.categories;
    var catNames := ColumnNames(cats, CategoricalColumns);
    assert names == art.vectorizer.vocabulary + catNames + NumericColumns;
    EncodedColumn(cats, CategoricalColumns, CategoricalColumns, f, j);
  }

  /** The value half of `CategoricalColumnAligned`. */
  lemma CategoricalValueAt(art: Artifacts, post: JobPost, f: nat, j: nat)
    requires Fitted(art)
    requires f < 3 && j < |art.encoder.categories[f]|
    ensures BuildCombinedRow(art, post).Ok?
    ensures var row, cats := BuildCombinedRow(art, post).value, art.encoder.categories;
      var i := TextWidth(art) + Offset(cats, f) + j;
      i < |row| && row[i] == if cats[f][j] == CategoricalRecord(post)[f] then 1.0 else 0.0
  {
    var cats, record := art.encoder.categories, CategoricalRecord(post);
    var text, ind := art.vectorizer.transform(post.text), Indicators(cats, record);
    assert |text| == TextWidth(art);
    assert BuildCombinedRow(art, post).value == text + ind + NumericSegment(post);
    EncodedColumn(cats, record, CategoricalColumns, f, j);
  }

  /* ---------------------------------------------------------------------
     Scoring
     --------------------------------------------------------------------- */

  datatype Label = Fake | Real

  /** The threshold rule: a probability at or above the threshold is
      "Fake". */
  function Decide(probaFake: real, threshold: real): (verdict: Label)
    ensures verdict == Fake <==> probaFake >= threshold
  {
    if probaFake >= threshold then Fake else Real
  }

  /** The label is monotone in the probability, and the threshold itself
      counts as "Fake". */
  lemma DecideIsMonotone(p1: real, p2: real, threshold: real)
    requires p1 <= p2
    ensures Decide(p1, threshold) == Fake ==> Decide(p2, threshold) == Fake
    ensures Decide(p2, threshold) == Real ==> Decide(p1, threshold) == Real
    ensures Decide(threshold, threshold) == Fake
  {
  }

  /** The probability obtained for a row, with the classifier calls made to
      obtain it, in order. */
  datatype Scoring = Scoring(proba: Outcome<real>, calls: seq<Layout>)

  /** Asks the classifier about the sparse row and, only if that raises,
      once more about the dense row. */
  function ScoreRow(clf: Classifier, row: seq<real>): (s: Scoring)
    ensures s.calls == [Sparse] || s.calls == [Sparse, Dense]
    ensures Dense in s.calls <==> clf.predictProba(Sparse, row).Fail?
    ensures s.proba.Ok? <==> clf.predictProba(Sparse, row).Ok? || clf.predictProba(Dense, row).Ok?
    ensures s.proba == clf.predictProba(s.calls[|s.calls| - 1], row)
    ensures clf.Valid() && s.proba.Ok? ==> 0.0 <= s.proba.value <= 1.0
  {
    match clf.predictProba(Sparse, row)
    case Ok(p) => Scoring(Ok(p), [Sparse])
    case Fail => Scoring(clf.predictProba(Dense, row), [Sparse, Dense])
  }

  /** The response of the scoring handler. */
  datatype Prediction = Prediction(verdict: Label, probaFake: real, thresholdUsed: real)

  /** The scoring handler: assemble, score with fallback, decide. The
      threshold is the configured one at the time of the call. */
  function Predict(art: Artifacts, post: JobPost, threshold: real): (r: Outcome<Prediction>)
    ensures r.Ok? ==> r.value.thresholdUsed == threshold
    ensures r.Ok? ==> (r.value.verdict == Fake <==> r.value.probaFake >= r.value.thresholdUsed)
    ensures art.Valid() && r.Ok? ==> 0.0 <= r.value.probaFake <= 1.0
  {
    match BuildCombinedRow(art, post)
    case Fail => Fail
    case Ok(row) =>
      match ScoreRow(art.classifier, row).proba
      case Fail => Fail
      case Ok(p) => Ok(Prediction(Decide(p, threshold), p, threshold))
  }

  /** With artifacts fitted together, the scoring handler fails exactly when
      the classifier rejects both the sparse and the dense row; otherwise it
      reports the sparse answer when there is one, and the dense one
      else. */
  lemma PredictFailsOnlyWhenBothCallsFail(art: Artifacts, post: JobPost, threshold: real)
    requires Fitted(art)
    ensures BuildCombinedRow(art, post).Ok?
    ensures var row, clf := BuildCombinedRow(art, post).value, art.classifier;
      && (Predict(art, post, threshold).Fail? <==>
            clf.predictProba(Sparse, row).Fail? && clf.predictProba(Dense, row).Fail?)
      && (clf.predictProba(Sparse, row).Ok? ==>
            Predict(art, post, threshold).value.probaFake == clf.predictProba(Sparse, row).value)
      && (clf.predictProba(Sparse, row).Fail? && clf.predictProba(Dense, row).Ok? ==>
            Predict(art, post, threshold).value.probaFake == clf.predictProba(Dense, row).value)
  {
  }

  /* ---------------------------------------------------------------------
     Explanation
     --------------------------------------------------------------------- */

  /** One entry of a ranked list: a feature name and its contribution. */
  datatype Attribution = Attribution(feature: string, contrib: real)

  /** The response of the explanation handler. */
  datatype Explanation = Explanation(bias: real, positive: seq<Attribution>, negative: seq<Attribution>)

  /** `[{"feature": names[i], "contrib": values[i]} for i in idx]`; raises
      when an index is past the end of the name index. */
  function Attributions(names: seq<string>, values: seq<real>, idx: seq<nat>): (r: Outcome<seq<Attribution>>)
    requires InRange(idx, |values|)
    ensures r.Ok? <==> InRange(idx, |names|)
    ensures r.Ok? ==> |r.value| == |idx|
    ensures r.Ok? ==> forall k :: 0 <= k < |idx| ==>
              r.value[k].feature == names[idx[k]] && r.value[k].contrib == values[idx[k]]
  {
    if forall k :: 0 <= k < |idx| ==> idx[k] < |names| then
      Ok(seq(|idx|, k requires 0 <= k < |idx| => Attribution(names[idx[k]], values[idx[k]])))
    else Fail
  }

  /** The explanation of a contribution vector: the bias is its last entry,
      the per-feature contributions all the others; these are ranked by
      `argsort` and the largest and smallest `topN` are named. Fails on an
      empty vector and when a selected feature has no name. */
  function ExplainContributions(names: seq<string>, contribs: seq<real>, topN: int,
                                argsort: seq<real> -> seq<nat>): (r: Outcome<Explanation>)
    requires IsArgsortFunction(argsort)
    ensures r.Ok? ==> |contribs| >= 1 && r.value.bias == contribs[|contribs| - 1]
    ensures |contribs| >= 1 && |contribs| - 1 <= |names| ==> r.Ok?
  {
    if |contribs| == 0 then Fail
    else
      var bias := contribs[|contribs| - 1];
      var perFeature := contribs[..|contribs| - 1];
      var order := argsort(perFeature);
      var posIdx, negIdx := TopPositive(order, topN), TopNegative(order, topN);
      PositiveSelection(perFeature, order, topN);
      NegativeSelection(perFeature, order, topN);
      match (Attributions(names, perFeature, posIdx), Attributions(names, perFeature, negIdx))
      case (Ok(positive), Ok(negative)) => Ok(Explanation(bias, positive, negative))
      case _ => Fail
  }

  /** Each entry of the positive list is the name and contribution of the
      column at that place in the argsort selection `order[-topN:][::-1]`,
      whose indices lie below the number of per-column contributions. */
  lemma PositiveEntries(names: seq<string>, contribs: seq<real>, topN: int,
                        argsort: seq<real> -> seq<nat>)
    requires IsArgsortFunction(argsort)
    requires ExplainContributions(names, contribs, topN, argsort).Ok?
    ensures |contribs| >= 1
    ensures var e, n := ExplainContributions(names, contribs, topN, argsort).value, |contribs| - 1;
      var pos := TopPositive(argsort(contribs[..n]), topN);
      && InRange(pos, n) && InRange(pos, |names|) && |e.positive| == |pos|
      && (forall k :: 0 <= k < |pos| ==> e.positive[k] == Attribution(names[pos[k]], contribs[pos[k]]))
  {
    var e, n := ExplainContributions(names, contribs, topN, argsort).value, |contribs| - 1;
    var v := contribs[..n];
    var pos := TopPositive(argsort(v), topN);
    PositiveSelection(v, argsort(v), topN);
    assert Attributions(names, v, pos).Ok? && e.positive == Attributions(names, v, pos).value;
    AttributionsOfPrefix(names, contribs, n, pos);
  }

  /** Each entry of the negative list is the name and contribution of the
      column at that place in the argsort selection `order[:topN]`, whose
      indices lie below the number of per-column contributions. */
  lemma NegativeEntries(names: seq<string>, contribs: seq<real>, topN: int,
                        argsort: seq<real> -> seq<nat>)
    requires IsArgsortFunction(argsort)
    requires ExplainContributions(names, contribs, topN, argsort).Ok?
    ensures |contribs| >= 1
    ensures var e, n := ExplainContributions(names, contribs, topN, argsort).value, |contribs| - 1;
      var neg := TopNegative(argsort(contribs[..n]), topN);
      && InRange(neg, n) && InRange(neg, |names|) && |e.negative| == |neg|
      && (forall k :: 0 <= k < |neg| ==> e.negative[k] == Attribution(names[neg[k]], contribs[neg[k]]))
  {
    var e, n := ExplainContributions(names, contribs, topN, argsort).value, |contribs| - 1;
    var v := contribs[..n];
    var neg := TopNegative(argsort(v), topN);
    NegativeSelection(v, argsort(v), topN);
    assert Attributions(names, v, neg).Ok? && e.negative == Attributions(names, v, neg).value;
    AttributionsOfPrefix(names, contribs, n, neg);
  }

  /** Attributions drawn from a prefix of a vector carry that vector's entries. */
  lemma AttributionsOfPrefix(names: seq<string>, contribs: seq<real>, n: nat, idx: seq<nat>)
    requires n <= |contribs| && InRange(idx, n)
    requires Attributions(names, contribs[..n], idx).Ok?
    ensures InRange(idx, |names|)
    ensures var r := Attributions(names, contribs[..n], idx).value;
      |r| == |idx| && forall k :: 0 <= k < |idx| ==> r[k] == Attribution(names[idx[k]], contribs[idx[k]])
  {
    var r := Attributions(names, contribs[..n], idx).value;
    forall k | 0 <= k < |idx| ensures r[k] == Attribution(names[idx[k]], contribs[idx[k]]) {
      assert r[k].feature == names[idx[k]] && r[k].contrib == contribs[..n][idx[k]];
    }
  }

  /** For `n` per-feature contributions: with `1 <= topN` each list has
      `min(topN, n)` entries; with `topN == 0` the positive list has all `n`
      (the slice `[-0:]` is the whole order) and the negative list none. No
      column appears twice in a list. */
  lemma ExplanationLengths(names: seq<string>, contribs: seq<real>, topN: int,
                           argsort: seq<real> -> seq<nat>)
    requires IsArgsortFunction(argsort)
    requires ExplainContributions(names, contribs, topN, argsort).Ok?
    ensures |contribs| >= 1
    ensures var e, n := ExplainContributions(names, contribs, topN, argsort).value, |contribs| - 1;
      && (1 <= topN ==> |e.positive| == |e.negative| == Min(topN, n))
      && (topN == 0 ==> |e.positive| == n && e.negative == [])
      && Distinct(TopPositive(argsort(contribs[..n]), topN))
      && Distinct(TopNegative(argsort(contribs[..n]), topN))
  {
  }

  /** The positive list is non-increasing in contribution, and no feature
      left out of it contributes more than one in it. */
  lemma PositiveListRanking(names: seq<string>, contribs: seq<real>, topN: int,
                            argsort: seq<real> -> seq<nat>)
    requires IsArgsortFunction(argsort)
    requires ExplainContributions(names, contribs, topN, argsort).Ok?
    ensures |contribs| >= 1
    ensures var e, n := ExplainContributions(names, contribs, topN, argsort).value, |contribs| - 1;
      var pos := TopPositive(argsort(contribs[..n]), topN);
      && (forall a, b :: 0 <= a <= b < |e.positive| ==> e.positive[a].contrib >= e.positive[b].contrib)
      && (forall k, j :: 0 <= k < |e.positive| && 0 <= j < n && j !in pos ==> e.positive[k].contrib >= contribs[j])
  {
    var e, n := ExplainContributions(names, contribs, topN, argsort).value, |contribs| - 1;
    var v := contribs[..n];
    var pos := TopPositive(argsort(v), topN);
    PositiveEntries(names, contribs, topN, argsort);
    PositiveSelection(v, argsort(v), topN);
    forall a, b | 0 <= a <= b < |e.positive| ensures e.positive[a].contrib >= e.positive[b].contrib {
      assert e.positive[a].contrib == v[pos[a]] && e.positive[b].contrib == v[pos[b]];
    }
    forall k, j | 0 <= k < |e.positive| && 0 <= j < n && j !in pos
      ensures e.positive[k].contrib >= contribs[j]
    {
      assert pos[k] in pos && e.positive[k].contrib == v[pos[k]] && v[j] == contribs[j];
    }
  }

  /** The negative list is non-decreasing in contribution, and no feature
      left out of it contributes less than one in it. */
  lemma NegativeListRanking(names: seq<string>, contribs: seq<real>, topN: int,
                            argsort: seq<real> -> seq<nat>)
    requires IsArgsortFunction(argsort)
    requires ExplainContributions(names, contribs, topN, argsort).Ok?
    ensures |contribs| >= 1
    ensures var e, n := ExplainContributions(names, contribs, topN, argsort).value, |contribs| - 1;
      var neg := TopNegative(argsort(contribs[..n]), topN);
      && (forall a, b :: 0 <= a <= b < |e.negative| ==> e.negative[a].contrib <= e.negative[b].contrib)
      && (forall k, j :: 0 <= k < |e.negative| && 0 <= j < n && j !in neg ==> e.negative[k].contrib <= contribs[j])
  {
    var e, n := ExplainContributions(names, contribs, topN, argsort).value, |contribs| - 1;
    var v := contribs[..n];
    var neg := TopNegative(argsort(v), topN);
    NegativeEntries(names, contribs, topN, argsort);
    NegativeSelection(v, argsort(v), topN);
    forall a, b | 0 <= a <= b < |e.negative| ensures e.negative[a].contrib <= e.negative[b].contrib {
      assert e.negative[a].contrib == v[neg[a]] && e.negative[b].contrib == v[neg[b]];
    }
    forall k, j | 0 <= k < |e.negative| && 0 <= j < n && j !in neg
      ensures e.negative[k].contrib <= contribs[j]
    {
      assert neg[k] in neg && e.negative[k].contrib == v[neg[k]] && v[j] == contribs[j];
    }
  }

  /** The explanation handler: assemble, ask for the contributions, build
      the name index, rank. */
  function Explain(art: Artifacts, post: JobPost, topN: int, argsort: seq<real> -> seq<nat>): (r: Outcome<Explanation>)
    requires IsArgsortFunction(argsort)
    ensures r.Ok? ==> BuildCombinedRow(art, post).Ok?
                      && art.classifier.predictContribs(BuildCombinedRow(art, post).value).Ok?
    ensures r.Ok? ==> var contribs := art.classifier.predictContribs(BuildCombinedRow(art, post).value).value;
                      |contribs| >= 1 && r.value.bias == contribs[|contribs| - 1]
  {
    match BuildCombinedRow(art, post)
    case Fail => Fail
    case Ok(row) =>
      match art.classifier.predictContribs(row)
      case Fail => Fail
      case Ok(contribs) =>
        match FeatureNames(art)
        case Fail => Fail
        case Ok(names) => ExplainContributions(names, contribs, topN, argsort)
  }

  /** With artifacts fitted together the name index always covers the
      contributions: the explanation handler fails only when the classifier
      does, its bias is the last contribution, and every ranked entry pairs
      a contribution with the name of its own column. */
  lemma ExplainFailsOnlyWhenClassifierFails(art: Artifacts, post: JobPost, topN: int,
                                            argsort: seq<real> -> seq<nat>)
    requires Fitted(art) && IsArgsortFunction(argsort)
    ensures BuildCombinedRow(art, post).Ok? && FeatureNames(art).Ok?
    ensures var row := BuildCombinedRow(art, post).value;
      var contribs := art.classifier.predictContribs(row);
      && (Explain(art, post, topN, argsort).Ok? <==> contribs.Ok?)
      && (contribs.Ok? ==> |contribs.value| == |row| + 1 == |FeatureNames(art).value| + 1)
      && (contribs.Ok? ==> Explain(art, post, topN, argsort)
                             == ExplainContributions(FeatureNames(art).value, contribs.value, topN, argsort))
      && (contribs.Ok? ==> Explain(art, post, topN, argsort).value.bias == contribs.value[|row|])
  {
  }
}
