# Fake job posting detector: request pipeline model

This project models the request-time pipeline of a service that scores a job
posting for the probability that it is fraudulent, and explains the score.
The posting's text and metadata go through three steps. First they are
assembled into one feature row. The pre-fitted XGBoost classifier then scores
that row, and a threshold turns the probability into a "Fake"/"Real" label.
On request, the booster's per-feature contributions are ranked, and the
largest and smallest are reported by feature name.

Everything in the modelled core is a pure computation over values, so the
model is written as datatypes, functions and lemmas:

- `Outcomes` — `Outcome<T> = Ok(value) | Fail`. Every exception in a handler
  ends in the same generic failure (an HTTP 500 in the service).
- `PySlice` — Python's `s[k:]`, `s[:k]` and `s[::-1]`. These include the
  negative-bound rule and the fact that `-0` is `0`, so `s[-0:]` is all of `s`.
- `Ranking` — `np.argsort` and the top-N selections built from it.
  numpy's default sort is not stable, so argsort is any function that
  returns, for every vector, a permutation of its indices in non-decreasing
  order of value (`IsArgsortFunction`). Every ranking property is proved for
  all such functions. `InsertionArgsort` is one such function. It shows that
  the requirement can be met.
- `Artifacts` — the three fitted artifacts, seen only through what the
  handlers use:
  - the TF-IDF vectorizer: a vocabulary plus an abstract `transform` of fixed
    width;
  - the one-hot encoder, fitted with `handle_unknown='ignore'`: the column
    names it was fitted on and a list of
    categories per input column;
  - the classifier: an abstract `predictProba`, which takes a layout (sparse
    or dense) and a row and may fail, and an abstract `predictContribs`.
- `App` — the request schema `JobPost` with its defaults, the feature row
  (`BuildCombinedRow`), the feature-name index (`FeatureNames`), scoring
  with the sparse-then-dense retry (`ScoreRow`, `Predict`), the threshold
  decision (`Decide`) and the explanation (`ExplainContributions`,
  `Explain`).

Points where the code's behaviour is not what a reader would expect of
such a service; the model follows the code:

- The code does not check `top_n`; callers are expected to pass a positive
  value (the default is 10, app.py:93). With `top_n = 0` the positive list
  holds every column, because `[-0:]` is the whole order, and the negative
  list is empty. With a negative `top_n` both lists hold `n + top_n` columns
  (none if that is negative). Lists of `min(top_n, n)` entries are proved
  only for `1 <= top_n`.
- Ties between equal contributions are left to `np.argsort`, which is
  unstable, so no tie order is promised; in particular the lowest column
  position does not win ties. Even a stable argsort would put the highest
  position first in the positive list, because that list is reversed. The
  model fixes no tie order.
- The two lists can share a column: they overlap exactly when
  `2 * min(top_n, n) > n` (`SelectionsOverlap`). With 5 to 9 columns and
  `top_n = 5`, they do overlap.
- Names in the feature-name index need not be unique (a vocabulary term can
  equal a numeric column name such as "telecommuting"), so what is proved
  is that no column repeats within a list, not that no name does.
- The flags are meant to be 0 or 1, but the request schema accepts any
  integer. Within ±2^53 the value goes into the row as given; see
  `App.BuildCombinedRow` under "## Left out" for the rest.

## Model

| member | source | states |
|---|---|---|
| `App.PostWithDefaults` | app.py:35-42 | a request with only a text has categorical record ["Unknown","Unknown","Unknown"] and numeric segment [0,0,0] |
| `App.BuildCombinedRow` | app.py:61-73 | the row exists iff the encoder was fitted on exactly the columns employment_type, required_experience, required_education, in that order; its width is text width + encoder width + 3; its last three entries are [telecommuting, has_company_logo, has_questions] |
| `App.AssembledLayout` | app.py:63-72 | with fitted artifacts every posting assembles, to the same width; the row is the text segment, then the categorical segment, then the numeric segment, in that order |
| `App.UnknownCategoryEncodesZero` | app.py:64-69 | a categorical value the encoder never saw leaves the width unchanged and every column of that field 0 |
| `Artifacts.Encoder.Transform` | app.py:69 | encoding succeeds iff the frame's column names are the fitted ones, in the fitted order, and the record has one value per fitted column; the result then has the encoder's fixed width |
| `Artifacts.EncodedColumn` | app.py:69 | output column Offset(f)+j is category j of column f: named `<column>_<category>` and 1 exactly when the value is that category |
| `Artifacts.UnknownCategoryIsZero` | tests/test_model.py:47 | with handle_unknown='ignore', an unseen value gives an all-zero block instead of an error |
| `Artifacts.KnownCategoryIsOneHot` | app.py:69 | a seen value, among distinct categories, sets exactly its own column of the block |
| `Artifacts.Encoder.FeatureNamesOut` | app.py:103 | the name list exists iff the given names are the fitted column names, in order, and then has the encoder's width |
| `App.FeatureNames` | app.py:102-105 | the name index exists iff the encoder was fitted on the three categorical column names in order; it ends with the three numeric names, and its width is text width + encoder width + 3, the row's width |
| `App.NamesAlignWithRow` | app.py:102-105 | with fitted artifacts the name index is exactly as wide as every assembled row (app.py:72); position i of the text and numeric segments names column i |
| `App.CategoricalColumnAligned` | app.py:103 | inside the categorical segment, the name at column i is `<field>_<category>` and the row holds 1 there exactly when the posting has that category |
| `App.Decide` | app.py:85 | the label is Fake iff proba >= threshold |
| `App.DecideIsMonotone` | app.py:85 | the label is monotone in the probability; proba equal to the threshold is Fake |
| `App.ScoreRow` | app.py:79-83 | the sparse call is made first; the dense call is made iff the sparse call failed, and only once; the result is that of the last call made; it succeeds iff one of them did; a valid classifier's probability is in [0,1] |
| `App.Predict` | app.py:76-89 | a response carries the threshold it was decided with, its label is Fake iff its proba >= that threshold, and its proba is in [0,1] |
| `App.PredictFailsOnlyWhenBothCallsFail` | app.py:77-89 | with fitted artifacts the request fails iff both the sparse and the dense call fail; proba is the sparse answer when there is one, else the dense one |
| `PySlice.Bound` | app.py:107-108 | a slice bound is clamped to 0..n, and a negative one counts from the end |
| `Ranking.TopPositive` | app.py:107 | `order[-top_n:][::-1]`: min(top_n, n) entries for top_n >= 1; the whole order reversed for top_n = 0; entry a is order[n-1-a] |
| `Ranking.TopNegative` | app.py:108 | `order[:top_n]`: min(top_n, n) entries for top_n >= 1; empty for top_n = 0; entry a is order[a] |
| `Ranking.PositiveSelection` | app.py:107 | for every argsort: the positive indices are in range and distinct; their values are non-increasing; every selected value is >= every unselected one |
| `Ranking.NegativeSelection` | app.py:108 | for every argsort: the negative indices are in range and distinct; their values are non-decreasing; every selected value is <= every unselected one |
| `Ranking.SelectionsOverlap` | app.py:107-108 | for top_n >= 1 the two selections share a feature iff 2*min(top_n, n) > n |
| `Ranking.InsertionArgsort` | app.py:107 | an argsort exists for every vector: a permutation of the indices, sorted by value |
| `App.Attributions` | app.py:110-111 | the list exists iff every selected index has a name; entry k pairs the name and the contribution of the k-th selected index |
| `App.ExplainContributions` | app.py:98-113 | bias is the last contribution; an empty vector fails; when there are at least as many names as per-feature contributions, it never fails |
| `App.PositiveEntries` | app.py:107-111 | each positive-list entry is (all_feats[i], feature_contribs[i]) for the i at that place in order[-top_n:][::-1]; those indices are below len(contribs)-1 |
| `App.NegativeEntries` | app.py:107-111 | each negative-list entry is (all_feats[i], feature_contribs[i]) for the i at that place in order[:top_n]; those indices are below len(contribs)-1 |
| `App.ExplanationLengths` | app.py:107-108 | for top_n >= 1 both lists have min(top_n, n) entries; for top_n = 0 positive has all n and negative none; no column repeats within a list |
| `App.PositiveListRanking` | app.py:107-110 | the positive list is non-increasing in contribution, and every listed contribution is >= every unlisted one |
| `App.NegativeListRanking` | app.py:108-111 | the negative list is non-decreasing in contribution, and every listed contribution is <= every unlisted one |
| `App.Explain` | app.py:93-116 | an explanation exists only when the row assembled and the contributions were obtained, and its bias is the last contribution |
| `App.ExplainFailsOnlyWhenClassifierFails` | app.py:95-113 | with fitted artifacts the contributions are one longer than the name index, so explaining fails iff the contribution call fails, and the bias is contribs[-1] |

## Left out

- Artifact loading (`joblib.load`, the model directory, logging) and the
  degraded start when loading fails (app.py:15-32) are not modelled. The
  model takes the loaded artifacts as a parameter. The health endpoint
  (app.py:52-59) is left out too. It depends on a Python `NameError` when
  loading failed.
- The transport layer is not modelled: the FastAPI app, CORS, the route
  decorators and the static mount (app.py:44-51, 118). Each
  `HTTPException(500)` is the `Fail` outcome.
- The threshold is read from the environment on every call (app.py:84). The
  model takes it as a parameter. A `THRESHOLD` value that does not parse as a
  float also ends in a 500. That case is not modelled.
- The TF-IDF weighting is not modelled: `transform` is abstract, of fixed
  width. XGBoost's probability and contribution computations are abstract
  too. The promise that bias plus contributions sum to the margin belongs to
  XGBoost, over floats, and is not stated.
- An encoder fitted without column names (on a plain array) is not
  modelled: scikit-learn only warns when such an encoder is given a named
  frame. "Fitted artifacts" (`App.Fitted`) means the encoder was fitted on
  the three categorical columns under the names app.py uses, in that order.
- The one-hot encoder is modelled as scikit-learn's plain one-hot encoding
  with unknown categories ignored. Dropped and infrequent categories are not
  modelled.
- `predict_proba(...)[:,1][0]` is folded into the classifier's
  `predictProba`. A failure anywhere in that expression is a failed call,
  which is also what triggers the dense retry in the code.
- `pred_contribs` is modelled for a binary classifier only: one row, one
  contribution per column plus the bias. Multi-class output shapes are not
  modelled.
- Floating-point arithmetic is not modelled: probabilities and contributions
  are reals, and `float(...)` conversions are the identity. Sparse and dense
  rows hold the same values, so `Layout` only tags which call was made.
- App.BuildCombinedRow: does not model flags outside numpy's 64-bit integer
  range, for which `np.array` makes an object array that `csr_matrix`
  rejects, so the source fails with a 500; the model builds the row. It also
  takes every flag exactly, whereas `hstack` stores float64 and rounds values
  above 2^53. Both come from numpy's dtype rules, which are not modelled.
- The default `top_n = 10` of the explanation endpoint (app.py:93) is the
  constant `App.DefaultTopN`; `App.Explain` takes `topN` as a parameter, and
  every lemma holds for every `topN`.
- Logging of failures and of the dense fallback is not modelled.
- tests/test_model.py is not part of this model. It is a script that takes
  its label from `model.predict`, not from the threshold rule, and its
  assembly repeats app.py:61-73. Frontend/script.js (browser UI code) is not
  part of this model either.
- A score being repeatable for the same request is not stated as a lemma. It
  holds by construction, because every handler is a Dafny function.
