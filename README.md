# T2DM risk service — a Dafny model of its core

The service scores a patient's type-2 diabetes risk. A request carries fourteen
clinical features. The service validates them and folds the legacy
`cardiovascular_disease` field into `cvd`. It then builds a one-row vector in
the trained feature order and bands the scoring model's probability as Low,
Medium or High at the trained thresholds. It explains the score by the five
attributions of largest magnitude from a linear surrogate. A management command bulk-imports a
DiaHealth CSV: it checks the required columns, creates a placeholder patient per
row and stores one health record per row, coercing the clinical-history columns
to 0/1.

The model, one Dafny module per concern:

- `Common` (common.dfy): `Option` and `Min`.
- `PyStr` (pystr.dfy): the Python string built-ins the import depends on:
  `str.strip`, `str.lower`, `str.title`, `str(int)`, `int(text)` and
  `float(text)` (including `inf`, `infinity`, `nan` and exponents). A `float` is
  an exact real, a signed infinity or NaN (rounding to double precision is not
  modelled, see "## Left out").
- `Schema` (schema.dfy): the trained feature list, the two band thresholds, and the
  column order of the fitted preprocessing transform, which puts the numeric
  branch first and the categorical branch after it.
- `Serializers` (serializers.dfy): `PatientFeaturesSerializer.validate`. It works in
  place on the validated dict, modelled as the class `FeatureData` whose
  `entries` map the method updates. The module also holds the choice sets of the
  response's `direction` and `risk_band` fields.
- `Views` (views.dfy): `band_from_prob`, the row assembly, the ranking of
  attributions (`argsort(...)[::-1][:5]`, a selection loop proved against a
  top-k specification), the explanation loop and `PredictView.post` from
  validated data to response.
- `ImportDiaHealth` (import_diahealth.dfy): `to_int01`, the missing-columns check,
  what each row becomes (patient defaults, record values, or the exception that
  stops the import) and the row loop of `Command.handle`.

The explanation's direction token is `↑risk` for a strictly positive attribution
and `↓risk` otherwise (inference/views.py:108).

## Model

| member | source | states |
|---|---|---|
| PyStr.Strip | records/management/commands/import_diahealth.py:12 | `strip()` yields text that neither starts nor ends with whitespace, is the slice of the input starting after the leading whitespace, and only whitespace follows it |
| PyStr.StripTrimmed | records/management/commands/import_diahealth.py:12 | text that neither starts nor ends with whitespace is its own `strip()` |
| PyStr.StripPadded | records/management/commands/import_diahealth.py:12 | `strip()` of whitespace, then text that neither starts nor ends with whitespace, then whitespace, is that text |
| PyStr.Lower | records/management/commands/import_diahealth.py:12 | `lower()` keeps the length and maps each character to its lower-case form, so no upper-case letter remains |
| PyStr.LowerIdempotent | records/management/commands/import_diahealth.py:12 | lower-casing twice is lower-casing once |
| PyStr.NormaliseIdempotent | records/management/commands/import_diahealth.py:12 | trimming and lower-casing a second time changes nothing |
| PyStr.Title | records/management/commands/import_diahealth.py:57 | `title()` keeps the length, changes only the case of letters, and never leaves a leading letter lower-case |
| PyStr.TitleCases | records/management/commands/import_diahealth.py:57 | every character of `title()` lower-cases to what the input's character lower-cases to, and a leading letter comes out upper-case |
| PyStr.TitleAt | records/management/commands/import_diahealth.py:57 | `title()` upper-cases each character that starts a word and lower-cases every other one |
| PyStr.TitleIdempotent | records/management/commands/import_diahealth.py:57 | title-casing a title-cased string changes nothing |
| PyStr.NatToStr | records/management/commands/import_diahealth.py:51 | `str(n)` is a non-empty run of digits with no leading zero (unless n is 0) |
| PyStr.IntToStr | records/management/commands/import_diahealth.py:51 | `str(i)` is non-empty and starts with `-` exactly when i is negative |
| PyStr.NatToStrValue | records/management/commands/import_diahealth.py:51 | the decimal digits of `str(n)` read back as n |
| PyStr.NatToStrInjective | records/management/commands/import_diahealth.py:51 | different numbers have different decimal forms |
| PyStr.ParseIntRoundTrip | records/management/commands/import_diahealth.py:59 | `int(str(i)) == i` for every int, negative ones included |
| PyStr.ParseInt | records/management/commands/import_diahealth.py:59 | `int()` of blank text raises |
| PyStr.ParseIntDigits | records/management/commands/import_diahealth.py:59 | `int()` accepts an optional sign and a run of digits with whitespace around them and leading zeros, and reads the integer the digits spell, negated after `-` (`int(" +054 ") == 54`) |
| PyStr.ParseIntRejectsPoint | records/management/commands/import_diahealth.py:59 | `int()` of text holding a decimal point raises (as for `"54.0"`) |
| PyStr.ParseFloat | records/management/commands/import_diahealth.py:18 | `float()` of blank text raises |
| PyStr.ParseFloatDecimal | records/management/commands/import_diahealth.py:18 | `float()` of a decimal numeral `a.b` (either side may be empty, not both) is, in the exact-real model, the digits of `ab` divided by 10 to the length of `b` (`float("0.7") == 7/10`) |
| PyStr.ParseFloatNormalised | records/management/commands/import_diahealth.py:12-18 | `float()` reads text and its trimmed, lower-cased form alike, so `to_int01`'s normalisation never changes the number read |
| PyStr.ParseFloatInfinity | records/management/commands/import_diahealth.py:18 | `inf` reads as positive infinity and `-infinity` as negative infinity |
| PyStr.ParseFloatNaN | records/management/commands/import_diahealth.py:18 | `NaN` reads as NaN, whatever the case |
| PyStr.ParseFloatOfInt | records/management/commands/import_diahealth.py:18 | in the exact-real model of floats, `float(str(i))` is i for every int |
| Schema.Select | training/train_and_save_models.py:40-41 | the numeric (or categorical) column list holds exactly the features on that side of the split |
| Schema.TransformedColumns | training/train_and_save_models.py:48-50 | the transform emits one column per feature and exactly the features |
| Schema.TransformedColumnsPermute | training/train_and_save_models.py:48-50 | the transformed columns are a permutation of the features (same multiset) |
| Schema.AllNumericKeepsOrder | training/train_and_save_models.py:40-50 | with no categorical feature the transform keeps feature order |
| Schema.OneCategoricalNumeric | training/train_and_save_models.py:40 | with one categorical feature the numeric branch is the other features in order |
| Schema.OneCategoricalOnly | training/train_and_save_models.py:41 | with one categorical feature the categorical branch is that feature alone |
| Schema.OneCategoricalLast | training/train_and_save_models.py:40-50 | with one categorical feature, that feature moves to the last column and the rest keep their order |
| Schema.FeaturesDistinct | training/train_and_save_models.py:26-30 | the trained feature list names each feature once |
| Schema.GenderLast | training/train_and_save_models.py:26-50 | with `gender` the only string feature, the transform emits the other thirteen features in order, then `gender` |
| Serializers.CvdUnified | inference/serializers.py:21-24 | after unification `cvd` is present; a present `cvd` leaves the dict unchanged; a missing one takes the legacy field's value or 0; no other field changes |
| Serializers.CvdUnifiedIdempotent | inference/serializers.py:21-24 | unifying twice is unifying once |
| Serializers.AliasEquivalent | inference/serializers.py:16-24 | sending the flag under the legacy name or as `cvd` gives the same `cvd` and the same other fields |
| Serializers.UnifyCvd | inference/serializers.py:22-23 | the in-place update leaves the dict equal to `CvdUnified` of its old contents |
| Serializers.Validate | inference/serializers.py:21-24 | `validate` unifies in place and returns the same dict object |
| Views.BandFromProb | inference/views.py:18-21 | Low exactly below the low threshold, Medium exactly in [low, high), High exactly at or above both |
| Views.BandNamesAllowed | inference/serializers.py:34 | every band name is a choice of the response's `risk_band` field |
| Views.BandMonotone | inference/views.py:18-21 | with ordered thresholds a higher probability never gets a lower band |
| Views.BandBoundaries | inference/views.py:18-21 | a probability equal to a threshold belongs to the band above it |
| Views.BandExamples | inference/views.py:57-58 | at the trained thresholds 0.20/0.50, the sample response's 0.7312 is High; the example probabilities 0.15 and 0.35 are Low and Medium |
| Views.BuildRow | inference/views.py:89 | the row has one entry per feature, in feature order: the request's value, or 0 when absent |
| Views.AliasSameRow | inference/views.py:85-89 | the legacy field and `cvd` with the same value yield the same model row |
| Views.Magnitudes | inference/views.py:98 | one non-negative magnitude per attribution, its absolute value |
| Views.TopK | inference/views.py:99 | returns min(5, n) distinct indices in non-increasing magnitude; no index left out has a larger magnitude than one chosen |
| Views.ItemFor | inference/views.py:103-108 | an entry's label and value come from the feature at its index (or `f<i>` and no value past the names); its magnitude is the absolute attribution; its direction is up exactly when the attribution is strictly positive and is always an accepted token |
| Views.BuildExplanation | inference/views.py:101-109 | the loop emits one entry per chosen index, in the chosen order |
| Views.ExplanationRanked | inference/views.py:98-109 | the explanation has min(5, n) entries, magnitudes non-increasing, none left out larger than one shown, every direction an accepted token |
| Views.LabelsDistinct | inference/views.py:105 | with distinct, non-synthetic names, different indices get different labels |
| Views.FeatureNamesWellFormed | training/train_and_save_models.py:26-30 | the feature names are distinct and none looks like a synthetic `f<i>` label |
| Views.Predict | inference/views.py:83-116 | `post` after validation: the dict is unified in place; the response carries the probability, its band at the trained thresholds, the static model versions, and the entries for a top-5 choice of attribution indices labelled by the feature list |
| Views.MislabelledAttribution | inference/views.py:105-106 | as written, attribution column 1 (which the transform fills with `pulse_rate`) is labelled `gender` and shows the gender value |
| Views.TransformedColumnsDistinct | training/train_and_save_models.py:48-50 | distinct features give distinct transformed columns |
| Views.ExplainByColumn | inference/views.py:96-109 | corrected explanation: each entry is labelled by the transformed column of its index, shows that feature's value, its magnitude and `↑risk` exactly for a positive attribution; the entries are ranked top-5 and no feature appears twice |
| ImportDiaHealth.Coerce01 | records/management/commands/import_diahealth.py:11-20 | with a 0/1 default, the coercion of normalised text is 0 or 1 |
| ImportDiaHealth.ToInt01 | records/management/commands/import_diahealth.py:7-20 | a missing cell gives the default; with a 0/1 default every result is 0 or 1 |
| ImportDiaHealth.ToInt01Tokens | records/management/commands/import_diahealth.py:12-16 | a yes token (after trimming and lower-casing) gives 1, a no token 0 |
| ImportDiaHealth.ToInt01Numbers | records/management/commands/import_diahealth.py:17-20 | other text gives 1 exactly when it reads as a number at least 0.5; unreadable text gives the default |
| ImportDiaHealth.ToInt01Normalised | records/management/commands/import_diahealth.py:12 | case and surrounding whitespace never change the result |
| ImportDiaHealth.ToInt01Example | records/management/commands/import_diahealth.py:12-14 | `" YES "` and `"yes"` both give 1 |
| ImportDiaHealth.ToInt01OfInt | records/management/commands/import_diahealth.py:13-18 | an integer cell gives 1 exactly when it is at least 1 |
| ImportDiaHealth.ToInt01Decimal | records/management/commands/import_diahealth.py:18 | decimal text `a.b` gives 1 exactly when the number it spells is at least 0.5 (twice its digits reach 10 to the length of `b`) |
| ImportDiaHealth.RequiredSplit | records/management/commands/import_diahealth.py:39-43 | the required list is `age`, `gender`, the seven other measurements, then the six history flags |
| ImportDiaHealth.RequiredConvertible | records/management/commands/import_diahealth.py:39-43 | a row with every required column has every column the conversion looks up |
| ImportDiaHealth.MissingColumns | records/management/commands/import_diahealth.py:44 | the missing list holds exactly the required columns the table lacks, in the required order |
| ImportDiaHealth.ColumnsPresent | records/management/commands/import_diahealth.py:44-49 | when nothing is missing, every row can be converted |
| ImportDiaHealth.PatientCode | records/management/commands/import_diahealth.py:51 | the code is `P` followed by the decimal digits of 100000 + i |
| ImportDiaHealth.PatientCodesDistinct | records/management/commands/import_diahealth.py:51-53 | different rows get different patient codes |
| ImportDiaHealth.GenderTitled | records/management/commands/import_diahealth.py:57-58 | the gender a patient gets is in title case (`Male` when missing) |
| ImportDiaHealth.GenderOf | records/management/commands/import_diahealth.py:57-58 | a missing gender becomes `Male`; a present one is its trimmed text with only the case of its letters changed |
| ImportDiaHealth.Trunc | records/management/commands/import_diahealth.py:59 | `int()` of a float truncates toward zero |
| ImportDiaHealth.AgeOf | records/management/commands/import_diahealth.py:59 | a missing age becomes 40; `int()` of a numeric age raises exactly when it is infinite, NaN or unreadable, and otherwise truncates it toward zero; blank text raises |
| ImportDiaHealth.AgeOfInt | records/management/commands/import_diahealth.py:59 | an integer age, given as a number or as text, is kept unchanged |
| ImportDiaHealth.AgeOfText | records/management/commands/import_diahealth.py:59 | a text age of digits, with a sign and surrounding whitespace allowed, is the integer the digits spell |
| ImportDiaHealth.AgeOfDecimal | records/management/commands/import_diahealth.py:59 | a numeric age `a.b` keeps its whole part (`int(54.9) == 54`) |
| ImportDiaHealth.Measurements | records/management/commands/import_diahealth.py:67-80 | the measurements exist exactly when every measured column's `float()` succeeds, and value k is the `float()` of column k |
| ImportDiaHealth.FloatOfCell | records/management/commands/import_diahealth.py:67-80 | `float()` of a missing cell is NaN; of a blank text cell it raises |
| ImportDiaHealth.FloatOfCellOfInt | records/management/commands/import_diahealth.py:67-80 | in the exact-real model of floats, an integer cell, numeric or text, is stored as exactly that value |
| ImportDiaHealth.Flags | records/management/commands/import_diahealth.py:83-91 | each history flag is `to_int01` of its column, and 0 or 1 |
| ImportDiaHealth.RowDefaults | records/management/commands/import_diahealth.py:51-61 | a created patient has the row's code, first name `Anon`, last name `#i`, gender `Male` and age 40 when those cells are missing; a missing age never stops a row |
| ImportDiaHealth.ImportRowOutcome | records/management/commands/import_diahealth.py:51-92 | a row stops the import at its age exactly when `int(age)` raises; it is written in full exactly when, besides, every measured column's `float()` succeeds; its patient carries the row's age and gender |
| ImportDiaHealth.RecordFlags | records/management/commands/import_diahealth.py:63-91 | an imported record has six 0/1 flags, `cvd` from `cardiovascular_disease`, the patient's gender and one value per measured column |
| ImportDiaHealth.RecordMeasurements | records/management/commands/import_diahealth.py:63-80 | measurement k of an imported record is the `float()` of measured column k |
| ImportDiaHealth.ImportAll | records/management/commands/import_diahealth.py:49-92 | rows are imported in order; the loop stops at the first row whose conversion raises, keeping the rows before it |
| ImportDiaHealth.Handle | records/management/commands/import_diahealth.py:39-92 | a table missing required columns is refused, naming them, and nothing is imported; otherwise every imported row is its row's conversion, and a stop names the failing row |
| ImportDiaHealth.ImportedCodesDistinct | records/management/commands/import_diahealth.py:49-53 | no two patients created by one import share a code |

## Left out

- Reading the CSV, writing to stdout and stderr, and the database are not modelled.
  `Handle` receives the table as a value and returns the rows it would write.
  `get_or_create` returning an existing patient (whose stored defaults then
  win) is not modelled: every row is treated as creating its patient.
- The models' probability and the explainer's attributions are inputs of
  `Views.Predict`. Model loading, the explainer fallback and the synthetic
  background in inference/model_store.py are not part of this model.
- The HTTP 400 path for an invalid request is not modelled, because field
  validation belongs to the REST framework. `Views.Predict` starts from
  validated data.
- Views.Predict: the response's `risk_score` is the probability itself, not
  `round(prob, 4)`, because float rounding is not modelled.
- Views.ItemFor: an entry's `value` is the raw row value, not its `str()`
  rendering, because float formatting is not modelled.
- Views.TopK: ties are returned in any order (argsort's order among equal
  values is left unspecified). NaN attributions are not modelled, because magnitudes are reals.
- PyStr.ParseFloat: floats are exact reals. Rounding to double precision,
  underscores in numerals and non-ASCII digits are not modelled.
- PyStr.ParseFloatOfInt: the value read is exact; Python rounds integers above
  2**53 to the nearest double and reads those beyond the double range as infinity.
- PyStr.ParseFloatDecimal: the value read is exact; Python rounds most decimal
  fractions to the nearest double.
- ImportDiaHealth.FloatOfCellOfInt: an integer is stored exactly, where Python
  stores the nearest double.
- ImportDiaHealth.ToInt01Decimal: decided on the exact value, so a numeral whose
  double rounds across 0.5 (`"0.49999999999999999"`) is outside it.
- ImportDiaHealth.AgeOfDecimal: truncates the exact value, so a numeral whose
  double rounds up to a whole number (`"54.99999999999999999"`) is outside it.
- PyStr.ParseInt: underscores between digits (`"4_0"`) and non-ASCII decimal
  digits, which Python's `int()` accepts, are rejected, so such a text age
  stops the import in the model.
- PyStr.Lower: case mapping covers ASCII letters only.
- PyStr.Title: case mapping covers ASCII letters only.
- PyStr.TitleAt: case mapping covers ASCII letters only.
- Schema.GenderLast: the training job splits the columns by the dtype of its
  training data, which the repository does not hold. The model assumes `gender`
  is the only non-numeric training column (`Schema.CATEGORICAL`). The column
  order in `Views.MislabelledAttribution` and the finding below rest on that.
- ImportDiaHealth.AgeOfInt: the patient model's positive-integer check on
  `age` is not modelled.
- The row index of `iterrows` is taken to be the row's position (a default
  range index).

## Findings

| source | as written | input that shows it | evidently intended | confidence | as-written member | corrected member |
|---|---|---|---|---|---|---|
| inference/views.py:102-106 with training/train_and_save_models.py:40-50 | attribution index `i` is labelled `FEATURES[i]` and shown with the row value at `i`, but the transform emits numeric columns first and the string column `gender` last | any request, with `gender` the only non-numeric training column: attribution column 1 belongs to `pulse_rate`, yet its entry is labelled `gender` and shows the gender value (and column 13, `gender`, is labelled `stroke`) | label each attribution by the transformed column it belongs to | not executed | Views.MislabelledAttribution | Views.ExplainByColumn |
