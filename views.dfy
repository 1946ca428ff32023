/**
 * The prediction endpoint around the two models: risk banding, assembly of the
 * one-row feature vector, and the ranked explanation built from the explainer's
 * signed attributions. The probability and the attributions themselves come
 * from the models and are inputs here.
 */
module Views {
  import opened Common
  import opened PyStr
  import opened Schema
  import opened Serializers

  // ---------------------------------------------------------------- banding

  datatype RiskBand = Low | Medium | High {
    /** The string the response carries. */
    function Name(): string {
      match this
      case Low => "Low"
      case Medium => "Medium"
      case High => "High"
    }

    /** Position in the order Low < Medium < High. */
    function Rank(): nat {
      match this
      case Low => 0
      case Medium => 1
      case High => 2
    }
  }

  /**
   * `band_from_prob`: below the low threshold is Low, below the high one is
   * Medium, anything else High; a probability equal to a threshold goes to the
   * higher band.
   */
  function BandFromProb(p: real, low: real, high: real): (b: RiskBand)
    ensures b == Low <==> p < low
    ensures b == Medium <==> low <= p < high
    ensures b == High <==> low <= p && high <= p
  {
    if p < low then Low else if p < high then Medium else High
  }

  /** Every band name is one the response's `risk_band` field accepts. */
  lemma BandNamesAllowed(b: RiskBand)
    ensures b.Name() in BAND_CHOICES
  {
  }

  /** With ordered thresholds a higher probability never gets a lower band. */
  lemma BandMonotone(p1: real, p2: real, low: real, high: real)
    requires low <= high && p1 <= p2
    ensures BandFromProb(p1, low, high).Rank() <= BandFromProb(p2, low, high).Rank()
  {
  }

  /** Each threshold belongs to the band above it. */
  lemma BandBoundaries(low: real, high: real, eps: real)
    requires low < high && eps > 0.0
    ensures BandFromProb(low, low, high) == Medium
    ensures BandFromProb(high, low, high) == High
    ensures BandFromProb(low - eps, low, high) == Low
  {
  }

  /** Example probabilities at the trained thresholds (0.7312 is the sample response's score). */
  lemma BandExamples()
    ensures BandFromProb(0.15, LOW_T, HIGH_T) == Low
    ensures BandFromProb(0.35, LOW_T, HIGH_T) == Medium
    ensures BandFromProb(0.7312, LOW_T, HIGH_T) == High
  {
  }

  // ---------------------------------------------------------------- the row

  /** `data.get(f, 0)` */
  function RowValue(d: Features, f: string): Value {
    if f in d then d[f] else Int(0)
  }

  /** `[data.get(f, 0) for f in features]`: the one-row input, in feature order. */
  function BuildRow(d: Features, features: seq<string>): (row: seq<Value>)
    ensures |row| == |features|
    ensures forall j :: 0 <= j < |features| ==>
      row[j] == (if features[j] in d then d[features[j]] else Int(0))
  {
    if features == [] then [] else [RowValue(d, features[0])] + BuildRow(d, features[1..])
  }

  /**
   * Alias equivalence end to end: giving the flag only under its legacy name
   * or only as `cvd`, with the same value, yields the same model row.
   */
  lemma AliasSameRow(d: Features, v: int)
    requires CVD !in d && CVD_ALIAS !in d && FlagsTyped(d)
    ensures BuildRow(CvdUnified(d[CVD_ALIAS := Int(v)]), FEATURES) ==
            BuildRow(CvdUnified(d[CVD := Int(v)]), FEATURES)
  {
    AliasEquivalent(d, v);
    var r1 := BuildRow(CvdUnified(d[CVD_ALIAS := Int(v)]), FEATURES);
    var r2 := BuildRow(CvdUnified(d[CVD := Int(v)]), FEATURES);
    forall j | 0 <= j < |FEATURES|
      ensures r1[j] == r2[j]
    {
      assert FEATURES[j] != CVD_ALIAS;
    }
  }

  // ---------------------------------------------------------------- ranking

  function Abs(x: real): real {
    if x < 0.0 then -x else x
  }

  /** `np.abs(values)` */
  function Magnitudes(attr: seq<real>): (mag: seq<real>)
    ensures |mag| == |attr|
    ensures forall i :: 0 <= i < |attr| ==> mag[i] == Abs(attr[i]) && mag[i] >= 0.0
  {
    seq(|attr|, i requires 0 <= i < |attr| => Abs(attr[i]))
  }

  /** How many attributions the explanation shows. */
  const TOP_K: nat := 5

  /**
   * `order` lists the indices of the `k` largest entries of `mag` (all of them
   * when there are fewer), largest first, each index once. Ties may come in
   * any order.
   */
  ghost predicate IsTopK(order: seq<nat>, mag: seq<real>, k: nat) {
    && |order| == Min(k, |mag|)
    && (forall j :: 0 <= j < |order| ==> order[j] < |mag|)
    && (forall a, b :: 0 <= a < b < |order| ==> order[a] != order[b])
    && (forall a, b :: 0 <= a < b < |order| ==> mag[order[a]] >= mag[order[b]])
    && (forall i, j :: 0 <= i < |mag| && i !in order && 0 <= j < |order| ==> mag[i] <= mag[order[j]])
  }

  /**
   * `np.argsort(vals)[::-1][:k]`: the indices of the `k` largest magnitudes,
   * largest first. Chosen by repeatedly taking a largest remaining index.
   */
  method TopK(mag: seq<real>, k: nat) returns (order: seq<nat>)
    ensures |order| == Min(k, |mag|)
    ensures forall j :: 0 <= j < |order| ==> order[j] < |mag|
    ensures forall a, b :: 0 <= a < b < |order| ==> order[a] != order[b]
    ensures forall a, b :: 0 <= a < b < |order| ==> mag[order[a]] >= mag[order[b]]
    ensures forall i, j :: 0 <= i < |mag| && i !in order && 0 <= j < |order| ==> mag[i] <= mag[order[j]]
  {
    var n := Min(k, |mag|);
    var pool: set<nat> := {};
    for i := 0 to |mag|
      invariant |pool| == i
      invariant forall x :: x in pool <==> 0 <= x < i
    {
      pool := pool + {i};
    }
    order := [];
    while |order| < n
      invariant |order| <= n
      invariant |order| + |pool| == |mag|
      invariant forall x :: x in pool ==> x < |mag|
      invariant forall j :: 0 <= j < |order| ==> order[j] < |mag| && order[j] !in pool
      invariant forall i :: 0 <= i < |mag| ==> i in pool || i in order
      invariant forall a, b :: 0 <= a < b < |order| ==> order[a] != order[b]
      invariant forall a, b :: 0 <= a < b < |order| ==> mag[order[a]] >= mag[order[b]]
      invariant forall x, j :: x in pool && 0 <= j < |order| ==> mag[x] <= mag[order[j]]
    {
      var best :| best in pool;
      var rest := pool - {best};
      while rest != {}
        invariant rest <= pool && best in pool && best !in rest
        invariant forall x :: x in pool && x !in rest ==> mag[x] <= mag[best]
        decreases rest
      {
        var x :| x in rest;
        if mag[x] > mag[best] {
          best := x;
        }
        rest := rest - {x};
      }
      order := order + [best];
      pool := pool - {best};
    }
  }

  // ---------------------------------------------------------------- explanation

  const UP: string := "↑risk"
  const DOWN: string := "↓risk"

  /** One explanation entry; `value` is the raw row value, `None` past the named features. */
  datatype Item = Item(feature: string, value: Option<Value>, shapAbs: real, direction: string)

  /**
   * The entry for attribution index `i`: labelled by `names[i]` (or `f<i>` past
   * the names) with the row's value there, the magnitude of the attribution,
   * and an upward token exactly when the attribution is strictly positive.
   */
  function ItemFor(attr: seq<real>, i: nat, names: seq<string>, row: seq<Value>): (it: Item)
    requires i < |attr| && |row| == |names|
    ensures it.shapAbs == Abs(attr[i]) && it.shapAbs >= 0.0
    ensures it.direction == UP <==> attr[i] > 0.0
    ensures it.direction in DIRECTION_CHOICES
    ensures i < |names| ==> it.feature == names[i] && it.value == Some(row[i])
    ensures i >= |names| ==> it.feature == "f" + NatToStr(i) && it.value == None
  {
    Item(if i < |names| then names[i] else "f" + NatToStr(i),
         if i < |names| then Some(row[i]) else None,
         Abs(attr[i]),
         if attr[i] > 0.0 then UP else DOWN)
  }

  /** The loop over the chosen indices that appends one entry per index. */
  method BuildExplanation(attr: seq<real>, order: seq<nat>, names: seq<string>, row: seq<Value>)
    returns (items: seq<Item>)
    requires forall j :: 0 <= j < |order| ==> order[j] < |attr|
    requires |row| == |names|
    ensures |items| == |order|
    ensures forall j :: 0 <= j < |order| ==> items[j] == ItemFor(attr, order[j], names, row)
  {
    items := [];
    for j := 0 to |order|
      invariant |items| == j
      invariant forall t :: 0 <= t < j ==> items[t] == ItemFor(attr, order[t], names, row)
    {
      var i := order[j];
      var sign := attr[i];
      var feature := if i < |names| then names[i] else "f" + NatToStr(i);
      var value := if i < |names| then Some(row[i]) else None;
      items := items + [Item(feature, value, Abs(attr[i]), if sign > 0.0 then UP else DOWN)];
    }
  }

  /**
   * An explanation built over a top-k choice is ranked: at most `k` entries,
   * magnitudes non-increasing along the list, no attribution left out larger
   * than one shown, every direction an accepted token.
   */
  lemma ExplanationRanked(attr: seq<real>, order: seq<nat>, k: nat, names: seq<string>, row: seq<Value>,
                          items: seq<Item>)
    requires IsTopK(order, Magnitudes(attr), k) && |row| == |names|
    requires |items| == |order| && forall j :: 0 <= j < |order| ==> items[j] == ItemFor(attr, order[j], names, row)
    ensures |items| == Min(k, |attr|)
    ensures forall a, b :: 0 <= a < b < |items| ==> items[a].shapAbs >= items[b].shapAbs
    ensures forall i, j :: 0 <= i < |attr| && i !in order && 0 <= j < |items| ==> Abs(attr[i]) <= items[j].shapAbs
    ensures forall j :: 0 <= j < |items| ==> items[j].direction in DIRECTION_CHOICES
  {
    var mag := Magnitudes(attr);
    forall a, b | 0 <= a < b < |items|
      ensures items[a].shapAbs >= items[b].shapAbs
    {
      assert mag[order[a]] >= mag[order[b]];
    }
    forall i, j | 0 <= i < |attr| && i !in order && 0 <= j < |items|
      ensures Abs(attr[i]) <= items[j].shapAbs
    {
      assert mag[i] <= mag[order[j]];
    }
  }

  /** A name of the form `f<digit>...`, which a synthetic label always has. */
  predicate LooksSynthetic(s: string) {
    |s| >= 2 && s[0] == 'f' && IsDigit(s[1])
  }

  /**
   * Distinct indices get distinct labels when the names are distinct and none
   * of them could be mistaken for a synthetic `f<i>` label.
   */
  lemma LabelsDistinct(attr: seq<real>, i1: nat, i2: nat, names: seq<string>, row: seq<Value>)
    requires i1 < |attr| && i2 < |attr| && i1 != i2 && |row| == |names|
    requires Distinct(names) && forall n :: n in names ==> !LooksSynthetic(n)
    ensures ItemFor(attr, i1, names, row).feature != ItemFor(attr, i2, names, row).feature
  {
    var f1 := ItemFor(attr, i1, names, row).feature;
    var f2 := ItemFor(attr, i2, names, row).feature;
    if i1 >= |names| {
      assert LooksSynthetic(f1);
    }
    if i2 >= |names| {
      assert LooksSynthetic(f2);
    }
    if i1 >= |names| && i2 >= |names| && f1 == f2 {
      assert f1[1..] == NatToStr(i1) && f2[1..] == NatToStr(i2);
      NatToStrInjective(i1, i2);
    }
  }

  /** The trained feature list has distinct names, none shaped like a synthetic label. */
  lemma FeatureNamesWellFormed()
    ensures Distinct(FEATURES)
    ensures forall n :: n in FEATURES ==> !LooksSynthetic(n)
  {
    FeaturesDistinct();
  }

  // ---------------------------------------------------------------- the endpoint

  datatype Response = Response(riskScore: real, riskBand: string, explanation: seq<Item>,
                               modelVersions: map<string, string>)

  const MODEL_VERSIONS: map<string, string> :=
    map["gradient_boosting" := "v1.0", "logistic_regression" := "v1.0"]

  /**
   * `PredictView.post` after validation: unify the flag in place, build the row,
   * band the scorer's probability `prob`, and explain the explainer's signed
   * `attributions` by their five largest magnitudes, each labelled by the
   * feature list.
   */
  method Predict(data: FeatureData, prob: real, attributions: seq<real>)
    returns (resp: Response, ghost order: seq<nat>)
    requires FlagsTyped(data.entries)
    modifies data
    ensures data.entries == CvdUnified(old(data.entries))
    ensures resp.riskScore == prob && resp.modelVersions == MODEL_VERSIONS
    ensures resp.riskBand == BandFromProb(prob, LOW_T, HIGH_T).Name()
    ensures IsTopK(order, Magnitudes(attributions), TOP_K)
    ensures |resp.explanation| == |order|
    ensures forall j :: 0 <= j < |order| ==>
      resp.explanation[j] == ItemFor(attributions, order[j], FEATURES, BuildRow(data.entries, FEATURES))
  {
    UnifyCvd(data);
    var row := BuildRow(data.entries, FEATURES);
    var band := BandFromProb(prob, LOW_T, HIGH_T);
    var vals := Magnitudes(attributions);
    var ord := TopK(vals, TOP_K);
    var explanation := BuildExplanation(attributions, ord, FEATURES, row);
    order := ord;
    resp := Response(prob, band.Name(), explanation, MODEL_VERSIONS);
  }

  // ---------------------------------------------------------------- column order

  /**
   * As written, the entry for attribution index 1 is labelled `gender` and
   * shows the gender value, although the preprocessing transform puts
   * `pulse_rate` in column 1 (numeric columns first, `gender` last).
   */
  lemma MislabelledAttribution(attr: seq<real>, d: Features)
    requires |attr| == |FEATURES|
    ensures TransformedColumns(FEATURES, CATEGORICAL)[1] == "pulse_rate"
    ensures TransformedColumns(FEATURES, CATEGORICAL)[|FEATURES| - 1] == "gender"
    ensures ItemFor(attr, 1, FEATURES, BuildRow(d, FEATURES)).feature == "gender"
    ensures ItemFor(attr, 1, FEATURES, BuildRow(d, FEATURES)).value == Some(RowValue(d, "gender"))
  {
    GenderLast();
  }

  lemma {:induction false} SelectDistinct(features: seq<string>, categorical: set<string>, want: bool)
    requires Distinct(features)
    ensures Distinct(Select(features, categorical, want))
  {
    if features != [] {
      SelectDistinct(features[1..], categorical, want);
    }
  }

  /** Distinct features give distinct transformed columns. */
  lemma TransformedColumnsDistinct(features: seq<string>, categorical: set<string>)
    requires Distinct(features)
    ensures Distinct(TransformedColumns(features, categorical))
  {
    var num := Select(features, categorical, false);
    var cat := Select(features, categorical, true);
    SelectDistinct(features, categorical, false);
    SelectDistinct(features, categorical, true);
    var cols := num + cat;
    forall a, b | 0 <= a < b < |cols|
      ensures cols[a] != cols[b]
    {
      if a < |num| && b >= |num| {
        assert cols[a] in num && cols[b] in cat;
      }
    }
  }

  /**
   * The explanation with every attribution labelled by the transformed column
   * it belongs to: entry `j` names the column of its index, shows the request's
   * value for that feature, its magnitude and its direction, and no feature appears twice.
   */
  method ExplainByColumn(d: Features, attributions: seq<real>, categorical: set<string>)
    returns (items: seq<Item>, ghost order: seq<nat>)
    requires |attributions| == |FEATURES|
    ensures IsTopK(order, Magnitudes(attributions), TOP_K) && |items| == |order|
    ensures forall j :: 0 <= j < |items| ==>
      var c := TransformedColumns(FEATURES, categorical)[order[j]];
      items[j].feature == c && items[j].value == Some(RowValue(d, c)) &&
      items[j].shapAbs == Abs(attributions[order[j]]) &&
      (items[j].direction == UP <==> attributions[order[j]] > 0.0) && items[j].direction in DIRECTION_CHOICES
    ensures forall a, b :: 0 <= a < b < |items| ==> items[a].feature != items[b].feature
  {
    var columns := TransformedColumns(FEATURES, categorical);
    var row := BuildRow(d, columns);
    var ord := TopK(Magnitudes(attributions), TOP_K);
    items := BuildExplanation(attributions, ord, columns, row);
    order := ord;
    FeatureNamesWellFormed();
    TransformedColumnsDistinct(FEATURES, categorical);
    forall a, b | 0 <= a < b < |items|
      ensures items[a].feature != items[b].feature
    {
      LabelsDistinct(attributions, ord[a], ord[b], columns, row);
    }
  }
}
