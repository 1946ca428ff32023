/**
 * The request serializer's one piece of logic, the `cvd` alias unification,
 * and the value sets its response choice fields accept.
 */
module Serializers {
  import opened Schema

  /** The canonical cardiovascular-disease flag and its legacy name. */
  const CVD: string := "cvd"
  const CVD_ALIAS: string := "cardiovascular_disease"

  /** The choices of the explanation item's `direction` field. */
  const DIRECTION_CHOICES: set<string> := {"↑risk", "↓risk"}

  /** The choices of the response's `risk_band` field. */
  const BAND_CHOICES: set<string> := {"Low", "Medium", "High"}

  /**
   * Both flag fields are declared as integer fields, so a validated request
   * holds an integer under either name when it holds the name at all.
   */
  predicate FlagsTyped(d: Features) {
    (CVD in d ==> d[CVD].Int?) && (CVD_ALIAS in d ==> d[CVD_ALIAS].Int?)
  }

  /** `int(data.get('cardiovascular_disease', 0))` */
  function AliasOrZero(d: Features): int
    requires FlagsTyped(d)
  {
    if CVD_ALIAS in d then d[CVD_ALIAS].n else 0
  }

  /**
   * The request after unification: a missing `cvd` is filled from the legacy
   * name, or with 0 when that is missing too; a present `cvd` is left alone.
   */
  function CvdUnified(d: Features): (u: Features)
    requires FlagsTyped(d)
    ensures FlagsTyped(u)
    ensures CVD in u && u.Keys == d.Keys + {CVD}
    ensures forall k :: k in d && k != CVD ==> k in u && u[k] == d[k]
    ensures CVD in d ==> u == d
    ensures CVD !in d && CVD_ALIAS in d ==> u[CVD] == d[CVD_ALIAS]
    ensures CVD !in d && CVD_ALIAS !in d ==> u[CVD] == Int(0)
  {
    if CVD in d then d else d[CVD := Int(AliasOrZero(d))]
  }

  /** Unifying an already unified request changes nothing. */
  lemma CvdUnifiedIdempotent(d: Features)
    requires FlagsTyped(d)
    ensures CvdUnified(CvdUnified(d)) == CvdUnified(d)
  {
  }

  /**
   * Alias equivalence: a request that gives the flag only under its legacy
   * name and one that gives the same value only under `cvd` agree, after
   * unification, on `cvd` and on every field other than the legacy name.
   */
  lemma AliasEquivalent(d: Features, v: int)
    requires CVD !in d && CVD_ALIAS !in d && FlagsTyped(d)
    ensures var viaAlias := CvdUnified(d[CVD_ALIAS := Int(v)]);
      var viaCanonical := CvdUnified(d[CVD := Int(v)]);
      viaAlias[CVD] == viaCanonical[CVD] == Int(v) &&
      forall k :: k != CVD_ALIAS ==>
        (k in viaAlias <==> k in viaCanonical) && (k in viaAlias ==> viaAlias[k] == viaCanonical[k])
  {
  }

  /** The validated request, a dict the serializer and the view update in place. */
  class FeatureData {
    var entries: Features

    constructor (entries: Features)
      ensures this.entries == entries
    {
      this.entries := entries;
    }
  }

  /** `if 'cvd' not in data: data['cvd'] = int(data.get('cardiovascular_disease', 0))` */
  method UnifyCvd(data: FeatureData)
    requires FlagsTyped(data.entries)
    modifies data
    ensures data.entries == CvdUnified(old(data.entries))
  {
    if CVD !in data.entries {
      data.entries := data.entries[CVD := Int(AliasOrZero(data.entries))];
    }
  }

  /** `PatientFeaturesSerializer.validate`: unify in place and return the same dict. */
  method Validate(data: FeatureData) returns (r: FeatureData)
    requires FlagsTyped(data.entries)
    modifies data
    ensures r == data
    ensures data.entries == CvdUnified(old(data.entries))
  {
    UnifyCvd(data);
    r := data;
  }
}
