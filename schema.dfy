/**
 * What the training job fixes for the service: the feature list in model
 * order, the two risk-band thresholds, and the column order its preprocessing
 * transform produces.
 */
module Schema {

  /** One validated request field: an integer field, a float field, or a choice. */
  datatype Value = Int(n: int) | Num(x: real) | Text(s: string)

  /** A validated request: field name to value (Python's `validated_data` dict). */
  type Features = map<string, Value>

  /** The feature list in training order, as stored in the model metadata. */
  const FEATURES: seq<string> := [
    "age", "gender", "pulse_rate", "systolic_bp", "diastolic_bp", "glucose",
    "height", "weight", "bmi", "family_diabetes", "hypertensive",
    "family_hypertension", "cvd", "stroke"
  ]

  /** The risk-band thresholds the training job writes into the metadata. */
  const LOW_T: real := 0.20
  const HIGH_T: real := 0.50

  /** The feature columns whose training data is not numeric: `gender` is text, the rest numbers. */
  const CATEGORICAL: set<string> := {"gender"}

  /** `[c for c in features if c not in categorical]` or `... if c in categorical`. */
  function Select(features: seq<string>, categorical: set<string>, wantCategorical: bool): (cols: seq<string>)
    ensures |cols| <= |features|
    ensures forall c :: c in cols <==> c in features && (c in categorical <==> wantCategorical)
  {
    if features == [] then []
    else
      var rest := Select(features[1..], categorical, wantCategorical);
      if (features[0] in categorical) == wantCategorical then [features[0]] + rest else rest
  }

  /**
   * The order of the columns the fitted preprocessing transform emits: its
   * numeric branch (in feature order) followed by its categorical branch.
   */
  function TransformedColumns(features: seq<string>, categorical: set<string>): (cols: seq<string>)
    ensures |cols| == |features|
    ensures forall c :: c in cols <==> c in features
  {
    SelectSizes(features, categorical);
    Select(features, categorical, false) + Select(features, categorical, true)
  }

  /** Each feature goes to exactly one of the two branches. */
  lemma {:induction false} SelectSizes(features: seq<string>, categorical: set<string>)
    ensures |Select(features, categorical, false)| + |Select(features, categorical, true)| == |features|
  {
    if features != [] {
      SelectSizes(features[1..], categorical);
    }
  }

  /** Every column of the transform is a feature and every feature has one column. */
  lemma {:induction false} TransformedColumnsPermute(features: seq<string>, categorical: set<string>)
    ensures multiset(TransformedColumns(features, categorical)) == multiset(features)
  {
    if features != [] {
      TransformedColumnsPermute(features[1..], categorical);
      assert features == [features[0]] + features[1..];
    }
  }

  /** With no categorical feature the transform keeps the feature order. */
  lemma {:induction false} AllNumericKeepsOrder(features: seq<string>, categorical: set<string>)
    requires forall c :: c in features ==> c !in categorical
    ensures Select(features, categorical, false) == features
    ensures Select(features, categorical, true) == []
    ensures TransformedColumns(features, categorical) == features
  {
    if features != [] {
      AllNumericKeepsOrder(features[1..], categorical);
    }
  }

  /** No name occurs twice in `s`. */
  predicate Distinct(s: seq<string>) {
    forall a, b :: 0 <= a < b < |s| ==> s[a] != s[b]
  }

  /** The trained feature list names each feature once. */
  lemma FeaturesDistinct()
    ensures Distinct(FEATURES)
  {
    var keys := seq(|FEATURES|, i requires 0 <= i < |FEATURES| => (|FEATURES[i]|, FEATURES[i][0]));
    assert keys == [(3, 'a'), (6, 'g'), (10, 'p'), (11, 's'), (12, 'd'), (7, 'g'), (6, 'h'),
                    (6, 'w'), (3, 'b'), (15, 'f'), (12, 'h'), (19, 'f'), (3, 'c'), (6, 's')];
  }

  /** When only the first feature is categorical, the others are all numeric. */
  lemma HeadOnlyCategorical(features: seq<string>, categorical: set<string>)
    requires features != []
    requires forall j :: 0 < j < |features| ==> features[j] !in categorical
    ensures forall c :: c in features[1..] ==> c !in categorical
  {
    forall c | c in features[1..]
      ensures c !in categorical
    {
      var j :| 0 <= j < |features| - 1 && features[1..][j] == c;
      assert features[j + 1] == c;
    }
  }

  /** The other features of `rest` are all numeric. */
  lemma TailNumeric(features: seq<string>, categorical: set<string>, k: nat)
    requires 0 < k < |features|
    requires forall j :: 0 <= j < |features| && j != k ==> features[j] !in categorical
    ensures forall j :: 0 <= j < |features| - 1 && j != k - 1 ==> features[1..][j] !in categorical
  {
    forall j | 0 <= j < |features| - 1 && j != k - 1
      ensures features[1..][j] !in categorical
    {
      assert features[1..][j] == features[j + 1];
    }
  }

  /** With exactly one categorical feature, the numeric branch is the rest, in order. */
  lemma {:induction false} OneCategoricalNumeric(features: seq<string>, categorical: set<string>, k: nat)
    requires k < |features| && features[k] in categorical
    requires forall j :: 0 <= j < |features| && j != k ==> features[j] !in categorical
    ensures Select(features, categorical, false) == features[..k] + features[k + 1..]
  {
    var rest := features[1..];
    if k == 0 {
      HeadOnlyCategorical(features, categorical);
      AllNumericKeepsOrder(rest, categorical);
    } else {
      TailNumeric(features, categorical, k);
      OneCategoricalNumeric(rest, categorical, k - 1);
      calc {
        Select(features, categorical, false);
        [features[0]] + Select(rest, categorical, false);
        [features[0]] + (rest[..k - 1] + rest[k..]);
        { assert [features[0]] + rest[..k - 1] == features[..k]; }
        features[..k] + features[k + 1..];
      }
    }
  }

  /** With exactly one categorical feature, the categorical branch is that feature alone. */
  lemma {:induction false} OneCategoricalOnly(features: seq<string>, categorical: set<string>, k: nat)
    requires k < |features| && features[k] in categorical
    requires forall j :: 0 <= j < |features| && j != k ==> features[j] !in categorical
    ensures Select(features, categorical, true) == [features[k]]
  {
    var rest := features[1..];
    if k == 0 {
      HeadOnlyCategorical(features, categorical);
      AllNumericKeepsOrder(rest, categorical);
    } else {
      TailNumeric(features, categorical, k);
      OneCategoricalOnly(rest, categorical, k - 1);
    }
  }

  /** With exactly one categorical feature, that feature moves to the end. */
  lemma OneCategoricalLast(features: seq<string>, categorical: set<string>, k: nat)
    requires k < |features| && features[k] in categorical
    requires forall j :: 0 <= j < |features| && j != k ==> features[j] !in categorical
    ensures TransformedColumns(features, categorical) == features[..k] + features[k + 1..] + [features[k]]
  {
    OneCategoricalNumeric(features, categorical, k);
    OneCategoricalOnly(features, categorical, k);
  }

  /**
   * With `gender` the only categorical feature, the transform emits the other
   * thirteen features in their order and `gender` last.
   */
  lemma GenderLast()
    ensures TransformedColumns(FEATURES, CATEGORICAL) == FEATURES[..1] + FEATURES[2..] + ["gender"]
  {
    FeaturesDistinct();
    forall j | 0 <= j < |FEATURES| && j != 1
      ensures FEATURES[j] !in CATEGORICAL
    {
      assert FEATURES[j] != FEATURES[1];
    }
    OneCategoricalLast(FEATURES, CATEGORICAL, 1);
  }
}
