/** The three fitted artifacts the service loads at start-up, seen only
    through the capabilities the request handlers use. */
module Artifacts {
  import opened Outcomes

  /** The fitted TF-IDF vectorizer: its vocabulary in term-id order
      (`get_feature_names_out()`) and its `transform`, which is left
      abstract. */
  datatype Vectorizer = Vectorizer(vocabulary: seq<string>, transform: string -> seq<real>)
  {
    /** Every text is mapped to one weight per vocabulary term. */
    ghost predicate Valid()
    {
      forall text :: |transform(text)| == |vocabulary|
    }
  }

  /** The fitted one-hot encoder, configured to ignore unknown categories
      and to drop none: the column names it was fitted on
      (`feature_names_in_`) and, for each of those columns, its categories
      in the order of `categories_`. */
  datatype Encoder = Encoder(columns: seq<string>, categories: seq<seq<string>>)
  {
    /** The encoder has one category list per fitted column. */
    ghost predicate Valid()
    {
      |columns| == |categories|
    }

    /** `transform` on a one-row frame with column names `names` and values
        `record`: one indicator block per column. A frame whose column names
        are not the fitted ones, in the fitted order, raises. */
    function Transform(names: seq<string>, record: seq<string>): (r: Outcome<seq<real>>)
      requires |names| == |record|
      ensures r.Ok? <==> names == columns && |record| == |categories|
      ensures r.Ok? ==> |r.value| == Width(categories)
    {
      if names != columns || |record| != |categories| then Fail
      else Ok(Indicators(categories, record))
    }

    /** `get_feature_names_out(inputFeatures)`: one name per output column,
        `<column>_<category>`. A list that is not the fitted column names
        raises. */
    function FeatureNamesOut(inputFeatures: seq<string>): (r: Outcome<seq<string>>)
      ensures r.Ok? <==> inputFeatures == columns && |inputFeatures| == |categories|
      ensures r.Ok? ==> |r.value| == Width(categories)
    {
      if inputFeatures != columns || |inputFeatures| != |categories| then Fail
      else Ok(ColumnNames(categories, inputFeatures))
    }
  }

  /** Number of output columns of the encoder. */
  function Width(categories: seq<seq<string>>): nat
  {
    if categories == [] then 0 else |categories[0]| + Width(categories[1..])
  }

  /** First output column of input column `f`. */
  function Offset(categories: seq<seq<string>>, f: nat): nat
    requires f <= |categories|
  {
    if f == 0 then 0 else |categories[0]| + Offset(categories[1..], f - 1)
  }

  /** The indicator block of one column: 1 where the category equals the
      value, 0 elsewhere; all 0 for a value never seen in fitting. */
  function Indicator(cats: seq<string>, value: string): (r: seq<real>)
    ensures |r| == |cats|
  {
    seq(|cats|, j requires 0 <= j < |cats| => if cats[j] == value then 1.0 else 0.0)
  }

  function Indicators(categories: seq<seq<string>>, record: seq<string>): (r: seq<real>)
    requires |record| == |categories|
    ensures |r| == Width(categories)
  {
    if categories == [] then []
    else Indicator(categories[0], record[0]) + Indicators(categories[1..], record[1..])
  }

  function ColumnNames(categories: seq<seq<string>>, inputFeatures: seq<string>): (r: seq<string>)
    requires |inputFeatures| == |categories|
    ensures |r| == Width(categories)
  {
    if categories == [] then []
    else
      seq(|categories[0]|, j requires 0 <= j < |categories[0]| => inputFeatures[0] + "_" + categories[0][j])
      + ColumnNames(categories[1..], inputFeatures[1..])
  }

  /** Output column `Offset(f) + j` of the encoder is category `j` of input
      column `f`: it is named after that pair and holds 1 exactly when the
      record's value in column `f` is that category. */
  lemma {:induction false} EncodedColumn(categories: seq<seq<string>>, record: seq<string>,
                                         inputFeatures: seq<string>, f: nat, j: nat)
    requires |record| == |categories| == |inputFeatures|
    requires f < |categories| && j < |categories[f]|
    ensures Offset(categories, f) + |categories[f]| <= Width(categories)
    ensures Indicators(categories, record)[Offset(categories, f) + j]
            == if categories[f][j] == record[f] then 1.0 else 0.0
    ensures ColumnNames(categories, inputFeatures)[Offset(categories, f) + j]
            == inputFeatures[f] + "_" + categories[f][j]
  {
    if f == 0 {
    } else {
      EncodedColumn(categories[1..], record[1..], inputFeatures[1..], f - 1, j);
    }
  }

  lemma {:induction false} BlockInBounds(categories: seq<seq<string>>, f: nat)
    requires f < |categories|
    ensures Offset(categories, f) + |categories[f]| <= Width(categories)
  {
    if f > 0 {
      BlockInBounds(categories[1..], f - 1);
    }
  }

  /** The output columns that encode input column `f`. */
  function Block(categories: seq<seq<string>>, record: seq<string>, f: nat): (r: seq<real>)
    requires |record| == |categories| && f < |categories|
    ensures |r| == |categories[f]|
  {
    BlockInBounds(categories, f);
    Indicators(categories, record)[Offset(categories, f)..Offset(categories, f) + |categories[f]|]
  }

  /** A value the encoder never saw encodes as an all-zero block rather
      than raising (`handle_unknown='ignore'`). */
  lemma UnknownCategoryIsZero(categories: seq<seq<string>>, record: seq<string>, f: nat)
    requires |record| == |categories|
    requires f < |categories| && record[f] !in categories[f]
    ensures forall k :: 0 <= k < |categories[f]| ==> Block(categories, record, f)[k] == 0.0
  {
    forall k | 0 <= k < |categories[f]| ensures Block(categories, record, f)[k] == 0.0 {
      EncodedColumn(categories, record, record, f, k);
    }
  }

  /** A seen value, among distinct categories, sets exactly one column of
      its block: the one of its category. */
  lemma KnownCategoryIsOneHot(categories: seq<seq<string>>, record: seq<string>, f: nat, j: nat)
    requires |record| == |categories|
    requires f < |categories| && j < |categories[f]| && categories[f][j] == record[f]
    requires forall a, b :: 0 <= a < b < |categories[f]| ==> categories[f][a] != categories[f][b]
    ensures forall k :: 0 <= k < |categories[f]| ==>
              Block(categories, record, f)[k] == if k == j then 1.0 else 0.0
  {
    forall k | 0 <= k < |categories[f]|
      ensures Block(categories, record, f)[k] == if k == j then 1.0 else 0.0
    {
      EncodedColumn(categories, record, record, f, k);
    }
  }

  /** How the classifier is fed: the sparse row as built, or the same row
      materialised densely (`toarray()`). The values are the same; only the
      representation differs. */
  datatype Layout = Sparse | Dense

  /** The fitted XGBoost classifier. `predictProba` is the probability of
      the positive ("fake") class of `predict_proba`, and fails when the
      classifier rejects the input; `predictContribs` is the booster's
      `pred_contribs` output for a one-row matrix. Both are left abstract. */
  datatype Classifier = Classifier(predictProba: (Layout, seq<real>) -> Outcome<real>,
                                   predictContribs: seq<real> -> Outcome<seq<real>>)
  {
    /** Probabilities lie in [0, 1]; contributions are one per column plus
        the bias, last. */
    ghost predicate Valid()
    {
      && (forall layout, row :: predictProba(layout, row).Ok? ==>
            0.0 <= predictProba(layout, row).value <= 1.0)
      && (forall row :: predictContribs(row).Ok? ==> |predictContribs(row).value| == |row| + 1)
    }
  }

  datatype Artifacts = Artifacts(vectorizer: Vectorizer, encoder: Encoder, classifier: Classifier)
  {
    /** Each artifact keeps its own promises. */
    ghost predicate Valid()
    {
      vectorizer.Valid() && encoder.Valid() && classifier.Valid()
    }
  }
}
