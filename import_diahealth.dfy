/**
 * The DiaHealth import command: the 0/1 coercion of clinical-history cells,
 * the required-column check, and what each table row becomes (the defaults
 * for a new patient and the record's values). Reading the CSV and writing to
 * the database are not modelled; the table arrives as a value and the rows to
 * be written are returned.
 */
module ImportDiaHealth {
  import opened Common
  import opened PyStr

  /**
   * One table cell: missing (NaN), a number (kept as its `str()` form, which
   * `float()` reads back exactly), or a string.
   */
  datatype Cell = Missing | Number(repr: string) | Str(s: string)

  /** `str(val)` of a present cell. */
  function CellText(c: Cell): string
    requires !c.Missing?
  {
    if c.Number? then c.repr else c.s
  }

  type Row = map<string, Cell>

  // ---------------------------------------------------------------- to_int01

  const TRUE_TOKENS: set<string> := {"1", "yes", "y", "true", "t"}
  const FALSE_TOKENS: set<string> := {"0", "no", "n", "false", "f"}

  /**
   * The `try` block of `to_int01` on the trimmed, lower-cased text `v`: a yes
   * token gives 1, a no token 0, any other number 1 exactly when it is at least
   * 0.5, and text `float()` rejects gives `default`.
   */
  function Coerce01(v: string, default: int): (r: int)
    ensures (default == 0 || default == 1) ==> (r == 0 || r == 1)
  {
    if v in TRUE_TOKENS then 1
    else if v in FALSE_TOKENS then 0
    else
      match ParseFloat(v)
      case Some(f) => if AtLeastHalf(f) then 1 else 0
      case None => default
  }

  /**
   * `to_int01(val, default)`: a missing cell gives `default`; any other cell
   * is coerced from its trimmed, lower-cased text.
   */
  function ToInt01(val: Cell, default: int): (r: int)
    ensures val.Missing? ==> r == default
    ensures (default == 0 || default == 1) ==> (r == 0 || r == 1)
  {
    if val.Missing? then default else Coerce01(Lower(Strip(CellText(val))), default)
  }

  /** The yes and no tokens decide the result, whatever the case and surrounding space. */
  lemma ToInt01Tokens(val: Cell, default: int)
    requires !val.Missing?
    ensures Lower(Strip(CellText(val))) in TRUE_TOKENS ==> ToInt01(val, default) == 1
    ensures Lower(Strip(CellText(val))) in FALSE_TOKENS ==> ToInt01(val, default) == 0
  {
  }

  /** Other text: a number compares with 0.5, anything unreadable falls back to `default`. */
  lemma ToInt01Numbers(val: Cell, default: int)
    requires !val.Missing?
    requires Lower(Strip(CellText(val))) !in TRUE_TOKENS + FALSE_TOKENS
    ensures ParseFloat(CellText(val)).None? ==> ToInt01(val, default) == default
    ensures ParseFloat(CellText(val)).Some? ==>
      ToInt01(val, default) == if AtLeastHalf(ParseFloat(CellText(val)).value) then 1 else 0
  {
    NormaliseIdempotent(CellText(val));
  }

  /** Case and surrounding whitespace never matter: the text and its normal form agree. */
  lemma ToInt01Normalised(s: string, default: int)
    ensures ToInt01(Str(s), default) == ToInt01(Str(Lower(Strip(s))), default)
  {
    NormaliseIdempotent(s);
  }

  /** The token `yes` itself reads as 1. */
  lemma ToInt01Yes(default: int)
    ensures ToInt01(Str("yes"), default) == 1
  {
    assert Lower(Strip("yes")) == "yes";
  }

  /** `to_int01(" YES ") == to_int01("yes") == 1`. */
  lemma ToInt01Example(default: int)
    ensures ToInt01(Str(" YES "), default) == ToInt01(Str("yes"), default) == 1
  {
    PaddedYesNormal();
    ToInt01Normalised(" YES ", default);
    ToInt01Yes(default);
  }

  /** `" YES "` trims and lower-cases to `yes`. */
  lemma PaddedYesNormal()
    ensures Lower(Strip(" YES ")) == "yes"
  {
    assert " YES " == " " + "YES" + " ";
    StripPadded(" ", "YES", " ");
  }

  /** Decimal text `a.b` counts as 1 exactly when the number it spells is at least 0.5. */
  lemma ToInt01Decimal(a: string, b: string, default: int)
    requires AllDigits(a) && AllDigits(b) && |a| + |b| > 0
    ensures ToInt01(Str(a + "." + b), default) == if 2 * DigitsValue(a + b) >= Pow10(|b|) then 1 else 0
  {
    var t := a + "." + b;
    DecimalNormal(a, b);
    ToInt01Numbers(Str(t), default);
    ParseFloatDecimal(a, b);
    HalfOfQuotient(DigitsValue(a + b), Pow10(|b|));
  }

  /** Decimal text is already trimmed and lower-case, and is no token. */
  lemma DecimalNormal(a: string, b: string)
    requires AllDigits(a) && AllDigits(b)
    ensures Lower(Strip(a + "." + b)) == a + "." + b
    ensures a + "." + b !in TRUE_TOKENS + FALSE_TOKENS
  {
    var t := a + "." + b;
    assert forall k :: 0 <= k < |t| ==> t[k] == '.' || IsDigit(t[k]);
    NormalFixed(t);
    PointNotToken(t, |a|);
  }

  /** `m / p >= 0.5` exactly when `2m >= p`. */
  lemma HalfOfQuotient(m: nat, p: nat)
    requires p >= 1
    ensures (m as real / p as real >= 0.5) <==> 2 * m >= p
  {
    assert m as real / p as real * p as real == m as real;
  }

  /** No yes or no token holds a decimal point. */
  lemma PointNotToken(t: string, k: nat)
    requires k < |t| && t[k] == '.'
    ensures t !in TRUE_TOKENS && t !in FALSE_TOKENS
  {
    assert '.' in t;
  }

  /** The decimal form of an int other than 0 and 1 is neither a yes nor a no token. */
  lemma IntToStrNotToken(n: int)
    requires n != 0 && n != 1
    ensures IntToStr(n) !in TRUE_TOKENS && IntToStr(n) !in FALSE_TOKENS
  {
    var r := IntToStr(n);
    assert IsDigit(r[0]) || r[0] == '-' by {
      if n >= 0 {
        assert IsDigit(NatToStr(n)[0]);
      }
    }
    assert NatToStr(0) == "0" && NatToStr(1) == "1";
    if r == "0" || r == "1" {
      NatToStrInjective(n, if r == "0" then 0 else 1);
    }
    assert "yes"[0] == 'y' && "true"[0] == 't' && "no"[0] == 'n' && "false"[0] == 'f';
  }

  /** An integer cell counts as 1 exactly when it is at least 1. */
  lemma ToInt01OfInt(n: int, default: int)
    ensures ToInt01(Number(IntToStr(n)), default) == if n >= 1 then 1 else 0
  {
    IntToStrNormal(n);
    if n == 0 || n == 1 {
      assert IntToStr(n) == NatToStr(n) == [DigitChar(n)];
    } else {
      IntToStrNotToken(n);
      ParseFloatOfInt(n);
    }
  }

  // ---------------------------------------------------------------- columns

  /** The columns the command needs, in its order. */
  const REQUIRED: seq<string> := [
    "age", "gender", "pulse_rate", "systolic_bp", "diastolic_bp", "glucose",
    "height", "weight", "bmi", "family_diabetes", "hypertensive",
    "family_hypertension", "cardiovascular_disease", "stroke", "diabetic"
  ]

  /** `row` has every one of `columns`. */
  predicate HasColumns(row: Row, columns: seq<string>) {
    columns == [] || (columns[0] in row && HasColumns(row, columns[1..]))
  }

  /** `HasColumns` means what it says. */
  lemma {:induction false} HasColumnsMeans(row: Row, columns: seq<string>)
    ensures HasColumns(row, columns) <==> forall c :: c in columns ==> c in row
  {
    if columns != [] {
      HasColumnsMeans(row, columns[1..]);
      assert forall c :: c in columns <==> c == columns[0] || c in columns[1..];
    }
  }

  /** A row that has every required column. */
  predicate HasRequired(row: Row) {
    HasColumns(row, REQUIRED)
  }

  /**
   * What converting a row looks up: `age`, `gender`, every measured column
   * and every flag column.
   */
  predicate Convertible(row: Row) {
    "age" in row && "gender" in row && HasColumns(row, MEASURED) && HasColumns(row, FLAGS)
  }

  /** Having the columns of `a + b` is having those of `a` and those of `b`. */
  lemma {:induction false} HasColumnsAppend(row: Row, a: seq<string>, b: seq<string>)
    ensures HasColumns(row, a + b) <==> HasColumns(row, a) && HasColumns(row, b)
  {
    if a == [] {
      assert a + b == b;
    } else {
      assert (a + b)[1..] == a[1..] + b;
      HasColumnsAppend(row, a[1..], b);
    }
  }

  /** The required columns are `age`, `gender`, the other measurements and the flags. */
  lemma RequiredSplit()
    ensures REQUIRED == ["age", "gender"] + MEASURED[1..] + FLAGS
  {
    var others := ["pulse_rate", "systolic_bp", "diastolic_bp", "glucose", "height", "weight", "bmi"];
    assert MEASURED == ["age"] + others;
    assert MEASURED[1..] == others;
  }

  /** A row with every required column can be converted. */
  lemma RequiredConvertible(row: Row)
    requires HasRequired(row)
    ensures Convertible(row)
  {
    RequiredSplit();
    HasColumnsAppend(row, ["age", "gender"] + MEASURED[1..], FLAGS);
    HasColumnsAppend(row, ["age", "gender"], MEASURED[1..]);
    assert ["age", "gender"] == ["age"] + ["gender"];
    HasColumnsAppend(row, ["age"], ["gender"]);
    assert MEASURED == ["age"] + MEASURED[1..];
    HasColumnsAppend(row, ["age"], MEASURED[1..]);
    assert HasColumns(row, ["age"]) && HasColumns(row, ["gender"]);
    assert ["age"][0] == "age" && ["gender"][0] == "gender";
  }

  /** `m` is `s` with some elements dropped and the rest in their order. */
  ghost predicate IsSubsequence(m: seq<string>, s: seq<string>)
    decreases |s|
  {
    m == [] || (s != [] && if m[0] == s[0] then IsSubsequence(m[1..], s[1..]) else IsSubsequence(m, s[1..]))
  }

  /**
   * `[c for c in required if c not in columns]`: exactly the required columns
   * the table lacks, in the required order.
   */
  function MissingColumns(required: seq<string>, columns: seq<string>): (m: seq<string>)
    ensures forall c :: c in m <==> c in required && c !in columns
    ensures IsSubsequence(m, required)
  {
    if required == [] then []
    else
      var rest := MissingColumns(required[1..], columns);
      if required[0] in columns then rest else [required[0]] + rest
  }

  // ---------------------------------------------------------------- one row

  /** The fields a newly created patient gets. */
  datatype PatientDefaults = PatientDefaults(patientCode: string, firstName: string, lastName: string,
                                             gender: string, age: int)

  /** The measurements, in the order the record stores them. */
  const MEASURED: seq<string> := [
    "age", "pulse_rate", "systolic_bp", "diastolic_bp", "glucose", "height", "weight", "bmi"
  ]

  /**
   * The clinical-history columns, in the order the record stores them (as
   * `family_diabetes`, `hypertensive`, `family_hypertension`, `cvd`, `stroke`
   * and `diabetic`).
   */
  const FLAGS: seq<string> := [
    "family_diabetes", "hypertensive", "family_hypertension", "cardiovascular_disease", "stroke", "diabetic"
  ]

  /** A record's values: the patient's gender, the measurements and the 0/1 flags in `FLAGS` order. */
  datatype HealthRecord = HealthRecord(gender: string, measurements: seq<PyFloat>, flags: seq<int>)

  datatype ImportedRow = ImportedRow(patient: PatientDefaults, record: HealthRecord)

  /**
   * What importing one row amounts to: `int(age)` failed (nothing written),
   * a measurement's `float()` failed (the patient written, no record), or both
   * written.
   */
  datatype RowResult = AgeRejected | MeasurementRejected(patient: PatientDefaults) | Imported(row: ImportedRow)

  /** `f"P{100000+i}"`: the letter P followed by the decimal digits of 100000 + i. */
  function PatientCode(i: nat): (code: string)
    ensures |code| >= 2 && code[0] == 'P' && AllDigits(code[1..]) && DigitsValue(code[1..]) == 100000 + i
  {
    var code := "P" + NatToStr(100000 + i);
    assert code[1..] == NatToStr(100000 + i);
    NatToStrValue(100000 + i);
    code
  }

  /** Distinct rows get distinct patient codes. */
  lemma PatientCodesDistinct(i: nat, j: nat)
    requires i != j
    ensures PatientCode(i) != PatientCode(j)
  {
  }

  /**
   * The gender a new patient gets: `Male` when missing, otherwise the trimmed
   * text with only the case of its letters changed.
   */
  function GenderOf(c: Cell): (g: string)
    ensures c.Missing? ==> g == "Male"
    ensures !c.Missing? ==> |g| == |Strip(CellText(c))|
    ensures !c.Missing? ==>
      forall k :: 0 <= k < |g| ==> LowerChar(g[k]) == LowerChar(Strip(CellText(c))[k])
  {
    if c.Missing? then "Male" else Title(Strip(CellText(c)))
  }

  /** The stored gender is always in title case. */
  lemma GenderTitled(c: Cell)
    ensures Title(GenderOf(c)) == GenderOf(c)
  {
    if c.Missing? {
      assert Title("Male") == "Male";
    } else {
      TitleIdempotent(Strip(CellText(c)));
    }
  }

  /** Python's `int()` of a float: truncation toward zero. */
  function Trunc(x: real): (n: int)
    ensures 0.0 <= x ==> n as real <= x < n as real + 1.0
    ensures x < 0.0 ==> n as real - 1.0 < x <= n as real
  {
    if x >= 0.0 then x.Floor else -((-x).Floor)
  }

  /**
   * `int(val)` of a present cell: a number is truncated (infinity raises); a
   * string must spell an integer.
   */
  function IntOfCell(c: Cell): Option<int>
    requires !c.Missing?
  {
    match c
    case Number(repr) => (match ParseFloat(repr) case Some(Finite(x)) => Some(Trunc(x)) case _ => None)
    case Str(s) => ParseInt(s)
  }

  /**
   * The age a new patient gets: `int(age)`, 40 when missing, `None` when `int()`
   * raises, which for a number happens exactly when it is infinite or NaN;
   * otherwise a number is truncated toward zero.
   */
  function AgeOf(c: Cell): (a: Option<int>)
    ensures c.Missing? ==> a == Some(40)
    ensures c.Number? ==> (a.Some? <==> ParseFloat(c.repr).Some? && ParseFloat(c.repr).value.Finite?)
    ensures c.Number? && a.Some? ==> a.value == Trunc(ParseFloat(c.repr).value.x)
    ensures c.Str? && Strip(c.s) == [] ==> a.None?
  {
    if c.Missing? then Some(40) else IntOfCell(c)
  }

  /** An integer age, whether read as a number or as text, is kept as it is. */
  lemma AgeOfInt(n: int)
    ensures AgeOf(Number(IntToStr(n))) == Some(n)
    ensures AgeOf(Str(IntToStr(n))) == Some(n)
  {
    var r := IntToStr(n);
    assert IntOfCell(Number(r)) == Some(n) by {
      ParseFloatOfInt(n);
      assert Trunc(n as real) == n;
    }
    assert IntOfCell(Str(r)) == Some(n) by {
      ParseIntRoundTrip(n);
    }
  }

  /** A text age of digits, with a sign and surrounding whitespace allowed, is the integer they spell. */
  lemma AgeOfText(pre: string, sign: string, d: string, post: string)
    requires forall k :: 0 <= k < |pre| ==> IsSpace(pre[k])
    requires forall k :: 0 <= k < |post| ==> IsSpace(post[k])
    requires sign == "" || sign == "+" || sign == "-"
    requires d != [] && AllDigits(d)
    ensures AgeOf(Str(pre + sign + d + post)).Some?
    ensures AgeOf(Str(pre + sign + d + post)).value == if sign == "-" then -(DigitsValue(d) as int) else DigitsValue(d) as int
  {
    ParseIntDigits(pre, sign, d, post);
  }

  /** A numeric age `a.b` keeps its whole part: `int(54.9) == 54`. */
  lemma AgeOfDecimal(a: string, b: string)
    requires AllDigits(a) && AllDigits(b) && |a| + |b| > 0
    ensures AgeOf(Number(a + "." + b)) == Some(DigitsValue(a + b) / Pow10(|b|))
  {
    ParseFloatDecimal(a, b);
    TruncQuotient(DigitsValue(a + b), Pow10(|b|));
  }

  /** Truncating a non-negative quotient is integer division. */
  lemma TruncQuotient(m: nat, p: nat)
    requires p >= 1
    ensures Trunc(m as real / p as real) == m / p
  {
    var q := m / p;
    var r := m % p;
    assert m == q * p + r && 0 <= r < p;
    var pr := p as real;
    var f := r as real / pr;
    assert f * pr == r as real;
    assert (1.0 - f) * pr == pr - r as real;
    assert 0.0 <= f < 1.0;
    assert m as real / pr == q as real + f;
  }

  /** `float(val)`: a missing cell is NaN; text that is not a number raises (`None`). */
  function FloatOfCell(c: Cell): (f: Option<PyFloat>)
    ensures c.Missing? ==> f == Some(NaN)
    ensures !c.Missing? && Strip(CellText(c)) == [] ==> f.None?
  {
    if c.Missing? then Some(NaN) else ParseFloat(CellText(c))
  }

  /** An integer, as a number or as text, is stored as exactly that value. */
  lemma FloatOfCellOfInt(n: int)
    ensures FloatOfCell(Number(IntToStr(n))) == Some(Finite(n as real))
    ensures FloatOfCell(Str(IntToStr(n))) == Some(Finite(n as real))
  {
    ParseFloatOfInt(n);
  }

  /**
   * The `float()` of each measured column, in column order; `None` exactly when
   * one of them raises.
   */
  function Measurements(row: Row, columns: seq<string>): (ms: Option<seq<PyFloat>>)
    requires HasColumns(row, columns)
    ensures ms.Some? <==> forall k :: 0 <= k < |columns| ==> columns[k] in row && FloatOfCell(row[columns[k]]).Some?
    ensures ms.Some? ==> |ms.value| == |columns|
    ensures ms.Some? ==>
      forall k :: 0 <= k < |columns| ==> columns[k] in row && ms.value[k] == FloatOfCell(row[columns[k]]).value
  {
    if columns == [] then Some([])
    else
      match FloatOfCell(row[columns[0]])
      case None => None
      case Some(f) =>
        match Measurements(row, columns[1..])
        case None => None
        case Some(rest) => Some([f] + rest)
  }

  /** `to_int01(row[c], 0)` for each of `columns`: all 0 or 1. */
  function Flags(row: Row, columns: seq<string>): (fs: seq<int>)
    requires HasColumns(row, columns)
    ensures |fs| == |columns|
    ensures forall k :: 0 <= k < |columns| ==>
      columns[k] in row && fs[k] == ToInt01(row[columns[k]], 0) && (fs[k] == 0 || fs[k] == 1)
  {
    if columns == [] then []
    else [ToInt01(row[columns[0]], 0)] + Flags(row, columns[1..])
  }

  /** Lines 51-92 of the command for row `i`, in the order Python evaluates them. */
  function ImportRow(i: nat, row: Row): RowResult
    requires Convertible(row)
  {
    match AgeOf(row["age"])
    case None => AgeRejected
    case Some(age) =>
      var patient := PatientDefaults(PatientCode(i), "Anon", "#" + NatToStr(i), GenderOf(row["gender"]), age);
      match Measurements(row, MEASURED)
      case None => MeasurementRejected(patient)
      case Some(ms) =>
        Imported(ImportedRow(patient, HealthRecord(patient.gender, ms, Flags(row, FLAGS))))
  }

  /**
   * A row stops the import at its age exactly when `int(age)` raises, and is
   * written in full exactly when, besides, every measured column's `float()`
   * succeeds; the patient carries the row's age and gender.
   */
  lemma ImportRowOutcome(i: nat, row: Row)
    requires Convertible(row)
    ensures ImportRow(i, row).AgeRejected? <==> AgeOf(row["age"]).None?
    ensures ImportRow(i, row).Imported? <==> (AgeOf(row["age"]).Some? &&
      forall k :: 0 <= k < |MEASURED| ==> MEASURED[k] in row && FloatOfCell(row[MEASURED[k]]).Some?)
    ensures !ImportRow(i, row).AgeRejected? ==>
      var p := if ImportRow(i, row).Imported? then ImportRow(i, row).row.patient else ImportRow(i, row).patient;
      p.age == AgeOf(row["age"]).value && p.gender == GenderOf(row["gender"])
  {
  }

  /**
   * Every patient a row creates carries the row's code, the placeholder name,
   * the default gender and age when those cells are missing; a missing age
   * never stops a row.
   */
  lemma RowDefaults(i: nat, row: Row)
    requires Convertible(row)
    ensures row["age"].Missing? ==> !ImportRow(i, row).AgeRejected?
    ensures !ImportRow(i, row).AgeRejected? ==>
      var p := if ImportRow(i, row).Imported? then ImportRow(i, row).row.patient else ImportRow(i, row).patient;
      p.patientCode == PatientCode(i) && p.firstName == "Anon" && p.lastName == "#" + NatToStr(i) &&
      (row["gender"].Missing? ==> p.gender == "Male") &&
      (row["age"].Missing? ==> p.age == 40)
  {
  }

  /**
   * An imported record's six flags are each 0 or 1, each the coercion of its
   * column (so `cvd` comes from `cardiovascular_disease`), its gender is the
   * patient's and it holds one measurement per measured column.
   */
  lemma RecordFlags(i: nat, row: Row)
    requires Convertible(row)
    requires ImportRow(i, row).Imported?
    ensures var r := ImportRow(i, row).row.record;
      |r.flags| == 6 && (forall k :: 0 <= k < 6 ==> r.flags[k] in {0, 1}) &&
      "cardiovascular_disease" in row && r.flags[3] == ToInt01(row["cardiovascular_disease"], 0) &&
      r.gender == ImportRow(i, row).row.patient.gender && |r.measurements| == |MEASURED|
  {
    assert FLAGS[3] == "cardiovascular_disease";
  }

  /** Measurement `k` of an imported record is the `float()` of measured column `k`. */
  lemma RecordMeasurements(i: nat, row: Row)
    requires Convertible(row)
    requires ImportRow(i, row).Imported?
    ensures var r := ImportRow(i, row).row.record;
      |r.measurements| == |MEASURED| &&
      forall k :: 0 <= k < |MEASURED| ==> MEASURED[k] in row && r.measurements[k] == FloatOfCell(row[MEASURED[k]]).value
  {
  }

  // ---------------------------------------------------------------- the command

  /** The table `read_csv` produced: its header and its rows, each holding every header column. */
  datatype Table = Table(columns: seq<string>, rows: seq<Row>)

  predicate RowsComplete(t: Table) {
    forall i, c :: 0 <= i < |t.rows| && c in t.columns ==> c in t.rows[i]
  }

  /**
   * How the command ends: it refused the table for missing columns before any
   * row, it stopped at the row whose conversion raised (after importing the rows
   * before it), or it imported every row.
   */
  datatype Outcome =
    | ColumnsMissing(missing: seq<string>)
    | Stopped(imported: seq<ImportedRow>, failure: RowResult)
    | Completed(imported: seq<ImportedRow>)

  /** Every row of the table can be converted. */
  predicate RowsConvertible(table: Table) {
    forall i :: 0 <= i < |table.rows| ==> Convertible(table.rows[i])
  }

  /** Row `i` of the table imported as `imported[i]`, for every `i` covered. */
  predicate ImportsRows(table: Table, imported: seq<ImportedRow>)
    requires RowsConvertible(table)
  {
    |imported| <= |table.rows| &&
    forall i :: 0 <= i < |imported| ==> ImportRow(i, table.rows[i]) == Imported(imported[i])
  }

  /** When no required column is missing, every row can be converted. */
  lemma ColumnsPresent(table: Table)
    requires RowsComplete(table) && MissingColumns(REQUIRED, table.columns) == []
    ensures RowsConvertible(table)
  {
    forall i | 0 <= i < |table.rows|
      ensures Convertible(table.rows[i])
    {
      HasColumnsMeans(table.rows[i], REQUIRED);
      RequiredConvertible(table.rows[i]);
    }
  }

  /** Importing the next row extends the imported prefix by one. */
  lemma ImportsRowsExtend(table: Table, imported: seq<ImportedRow>, r: ImportedRow)
    requires RowsConvertible(table) && ImportsRows(table, imported) && |imported| < |table.rows|
    requires ImportRow(|imported|, table.rows[|imported|]) == Imported(r)
    ensures ImportsRows(table, imported + [r])
  {
    var next := imported + [r];
    forall i | 0 <= i < |next|
      ensures ImportRow(i, table.rows[i]) == Imported(next[i])
    {
      if i < |imported| {
        assert next[i] == imported[i];
      }
    }
  }

  /**
   * The row loop of `Command.handle`: import rows in order, stopping at the
   * first whose conversion raises.
   */
  method ImportAll(table: Table) returns (outcome: Outcome)
    requires RowsConvertible(table)
    ensures !outcome.ColumnsMissing? && ImportsRows(table, outcome.imported)
    ensures outcome.Completed? ==> |outcome.imported| == |table.rows|
    ensures outcome.Stopped? ==>
      var k := |outcome.imported|;
      k < |table.rows| && ImportRow(k, table.rows[k]) == outcome.failure && !outcome.failure.Imported?
  {
    var imported: seq<ImportedRow> := [];
    var i := 0;
    while i < |table.rows|
      invariant i <= |table.rows| && |imported| == i
      invariant ImportsRows(table, imported)
    {
      var result := ImportRow(i, table.rows[i]);
      if !result.Imported? {
        return Stopped(imported, result);
      }
      ImportsRowsExtend(table, imported, result.row);
      imported := imported + [result.row];
      i := i + 1;
    }
    return Completed(imported);
  }

  /** `Command.handle` on a table that has been read. */
  method Handle(table: Table) returns (outcome: Outcome)
    requires RowsComplete(table)
    ensures outcome.ColumnsMissing? <==> MissingColumns(REQUIRED, table.columns) != []
    ensures outcome.ColumnsMissing? ==> outcome.missing == MissingColumns(REQUIRED, table.columns)
    ensures outcome.Completed? ==> |outcome.imported| == |table.rows|
    ensures !outcome.ColumnsMissing? ==> RowsConvertible(table) && ImportsRows(table, outcome.imported)
    ensures outcome.Stopped? ==>
      var k := |outcome.imported|;
      k < |table.rows| && RowsConvertible(table) &&
      ImportRow(k, table.rows[k]) == outcome.failure && !outcome.failure.Imported?
  {
    var missing := MissingColumns(REQUIRED, table.columns);
    if missing != [] {
      return ColumnsMissing(missing);
    }
    ColumnsPresent(table);
    outcome := ImportAll(table);
  }

  /** Every patient an import creates has its own code. */
  lemma ImportedCodesDistinct(table: Table, outcome: Outcome)
    requires !outcome.ColumnsMissing? && RowsConvertible(table) && ImportsRows(table, outcome.imported)
    ensures forall a, b :: 0 <= a < b < |outcome.imported| ==>
      outcome.imported[a].patient.patientCode != outcome.imported[b].patient.patientCode
  {
    forall a, b | 0 <= a < b < |outcome.imported|
      ensures outcome.imported[a].patient.patientCode != outcome.imported[b].patient.patientCode
    {
      RowDefaults(a, table.rows[a]);
      RowDefaults(b, table.rows[b]);
      PatientCodesDistinct(a, b);
    }
  }
}
