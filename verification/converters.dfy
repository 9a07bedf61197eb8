/** The converters `createConverters` builds (clean.js:7-217): what each kind
    of field turns a record into. */
module Converters {
  import opened Wrappers
  import opened Text

  /** One CSV row: column name to raw text. */
  type Record = map<string, string>

  /** What a converter closure returns, in JavaScript terms. */
  datatype Value =
    | Undefined          // the function fell off its end
    | NaN                // a number that is NaN
    | Num(x: real)       // any other number
    | Bit(on: bool)      // the strings "1" and "0" the flag and indicator converters return

  /** What a converter, or the writer, throws. */
  datatype Failure =
    | UnknownOption(shown: Option<real>)            // `Unknown option ${def}`: carries the default
    | UnexpectedNumber(raw: string)                 // `Unexpected number ${raw}`
    | MissingField(field: string)                   // TypeError from `undefined.split(...)`
    | UndefinedResult(converter: string, record: Record)
    | NaNResult(converter: string, record: Record)

  /** The floating-point half of JavaScript numbers, which this model does not
      interpret: `parseFloat` (None is NaN) and `toString` of a number that is
      not a small integer. */
  datatype Numerics = Numerics(parseFloat: string -> Option<real>, showReal: real -> string)

  // ---------------------------------------------------------------------------
  // addSwitch (clean.js:10-16)
  // ---------------------------------------------------------------------------

  /** The arguments of one `addSwitch(name, opts, def)` call. */
  datatype SwitchSpec = SwitchSpec(field: string, table: map<string, real>, default: Option<real>)

  /** The property key `r[name]` denotes: a missing column reads as `undefined`,
      which as an object key is the text "undefined". */
  function SwitchKey(field: string, rec: Record): string
  {
    if field in rec then rec[field] else "undefined"
  }

  /** The closure `addSwitch` returns, applied to one record. */
  function ApplySwitch(spec: SwitchSpec, rec: Record): (r: Result<real, Failure>)
    ensures SwitchKey(spec.field, rec) in spec.table ==> r == Success(spec.table[SwitchKey(spec.field, rec)])
    ensures SwitchKey(spec.field, rec) !in spec.table && spec.default.Some? ==> r == Success(spec.default.value)
    ensures r.Failure? <==> SwitchKey(spec.field, rec) !in spec.table && spec.default.None?
  {
    var key := SwitchKey(spec.field, rec);
    if key in spec.table then Success(spec.table[key])
    else if spec.default.Some? then Success(spec.default.value)
    else Failure(UnknownOption(spec.default))
  }

  /** A switch with a default never throws. */
  lemma SwitchWithDefaultIsTotal(spec: SwitchSpec, rec: Record)
    requires spec.default.Some?
    ensures ApplySwitch(spec, rec).Success?
    ensures ApplySwitch(spec, rec).value in spec.table.Values || ApplySwitch(spec, rec).value == spec.default.value
  {
  }

  /** The unknown-option error shows the (absent) default, never the raw
      value: every failing record of one switch fails with the same error. */
  lemma SwitchErrorIgnoresValue(spec: SwitchSpec, r1: Record, r2: Record)
    requires ApplySwitch(spec, r1).Failure? && ApplySwitch(spec, r2).Failure?
    ensures ApplySwitch(spec, r1).error == ApplySwitch(spec, r2).error == UnknownOption(None)
  {
  }

  // ---------------------------------------------------------------------------
  // year counts (clean.js:96-101)
  // ---------------------------------------------------------------------------

  /** The year-count closure on a present cell: the two sentinels give 0,
      anything else is `parseInt` of the text before the first space. */
  function YearsOf(raw: string): (r: Result<int, Failure>)
    ensures raw == "Less than a year" || raw == "NA" ==> r == Success(0)
    ensures r.Failure? ==> r.error == UnexpectedNumber(raw)
  {
    if raw == "Less than a year" || raw == "NA" then Success(0)
    else
      match ParseInt(Split(raw, " ")[0])
      case None => Failure(UnexpectedNumber(raw))
      case Some(n) => Success(n)
  }

  /** A count written as digits and followed by a word, such as "5 years",
      reads back as that count. */
  lemma YearsOfCount(n: int, rest: string)
    ensures YearsOf(IntToString(n) + " " + rest) == Success(n)
    ensures YearsOf(IntToString(n)) == Success(n)
  {
    var d := IntToString(n);
    IntToStringChars(n);
    SplitAfterPiece(d, " ", rest);
    SplitWithoutSeparator(d, " ");
    ParseIntToString(n, "");
    assert d + "" == d;
    assert (d + " " + rest)[0] == d[0];
    assert d[0] == '-' || IsDigit(d[0]);
  }

  /** A cell that does not start with a sign or a digit, and is not one of the
      two sentinels, is rejected; the empty cell is one such. */
  lemma YearsOfNonNumber(raw: string)
    requires raw != "Less than a year" && raw != "NA"
    requires |raw| == 0 || !(IsDigit(raw[0]) || raw[0] == '-' || raw[0] == '+')
    ensures YearsOf(raw) == Failure(UnexpectedNumber(raw))
  {
    FirstPiece(raw, " ");
    var p := Split(raw, " ")[0];
    assert |p| > 0 ==> p[0] == raw[0];
  }

  /** Conversely, a cell that starts with a run of digits reads as the value
      of those digits, whatever follows them: "05 years" reads as 5 and "5abc"
      as 5, as `parseInt` stops at the first non-digit. */
  lemma YearsOfDigits(d: string, rest: string)
    requires |d| >= 1 && AllDigits(d)
    requires |rest| == 0 || !IsDigit(rest[0])
    ensures YearsOf(d + rest) == Success(DigitsValue(d))
  {
    var s := d + rest;
    assert s[0] == d[0];
    assert s != "Less than a year" && s != "NA" by {
      assert "Less than a year"[0] == 'L' && "NA"[0] == 'N';
    }
    assert ' ' !in d by {
      assert forall i :: 0 <= i < |d| ==> IsDigit(d[i]);
    }
    FirstPieceKeepsLead(d, rest, " ");
    var p := Split(s, " ")[0];
    var tail := p[|d|..];
    assert p == d + tail;
    ParseDigitsPrefix(d, tail);
  }

  // ---------------------------------------------------------------------------
  // the agreement scale (clean.js:152-161)
  // ---------------------------------------------------------------------------

  /** The six literals the agreement switch statement recognises. */
  const AgreeScale: map<string, int> := map[
    "Strongly disagree" := -2,
    "Disagree" := -1,
    "Somewhat agree" := 0,
    "Agree" := 1,
    "Strongly agree" := 2,
    "NA" := 0
  ]

  /** The five scale labels from most negative to most positive. */
  const Likert: seq<string> := ["Strongly disagree", "Disagree", "Somewhat agree", "Agree", "Strongly agree"]

  /** The labels score -2 to 2 in order, one step apart, "NA" scores 0, and
      nothing else is recognised. */
  lemma AgreeScaleOrdered()
    ensures forall i :: 0 <= i < |Likert| ==> Likert[i] in AgreeScale && AgreeScale[Likert[i]] == i - 2
    ensures "NA" in AgreeScale && AgreeScale["NA"] == 0
    ensures AgreeScale.Keys == (set i | 0 <= i < |Likert| :: Likert[i]) + {"NA"}
  {
    assert Likert[0] == "Strongly disagree";
    assert Likert[1] == "Disagree";
    assert Likert[2] == "Somewhat agree";
    assert Likert[3] == "Agree";
    assert Likert[4] == "Strongly agree";
  }

  // ---------------------------------------------------------------------------
  // converters
  // ---------------------------------------------------------------------------

  /** The converter closures stored in the registry, one variant per kind of
      field; switches are absent because `addSwitch` never stores them. */
  datatype Converter =
    | Years(field: string)                        // clean.js:96-101
    | Float(field: string)                        // clean.js:110
    | Flag(field: string)                         // clean.js:114
    | Agree(field: string)                        // clean.js:152-161
    | Indicator(factor: string, token: string)    // clean.js:212

  /** The separator of multi-select cells. */
  const MultiSeparator: string := "; "

  /** Applies one converter closure to one record: either a value or what the
      closure throws. */
  function Eval(c: Converter, rec: Record, num: Numerics): (r: Result<Value, Failure>)
    ensures r.Failure? ==> c.Years? || c.Indicator?
    ensures c.Indicator? ==> (r.Failure? <==> c.factor !in rec)
  {
    match c
    case Years(f) =>
      if f !in rec then Failure(MissingField(f))
      else (match YearsOf(rec[f])
            case Failure(e) => Failure(e)
            case Success(n) => Success(Num(n as real)))
    case Float(f) =>
      if f in rec && rec[f] == "NA" then Success(Num(0.0))
      else if f !in rec then Success(NaN)   // parseFloat(undefined) is NaN
      else (match num.parseFloat(rec[f])
            case None => Success(NaN)
            case Some(x) => Success(Num(x)))
    case Flag(f) =>
      Success(Bit(f in rec && rec[f] == "Yes"))
    case Agree(f) =>
      if f in rec && rec[f] in AgreeScale then Success(Num(AgreeScale[rec[f]] as real))
      else Success(Undefined)
    case Indicator(factor, token) =>
      if factor !in rec then Failure(MissingField(factor))
      else Success(Bit(token in Split(rec[factor], MultiSeparator)))
  }

  /** The flag converter is total and answers "1" exactly for "Yes". */
  lemma FlagIsTotal(f: string, rec: Record, num: Numerics)
    ensures Eval(Flag(f), rec, num).Success?
    ensures Eval(Flag(f), rec, num).value == Bit(true) <==> f in rec && rec[f] == "Yes"
    ensures Eval(Flag(f), rec, num).value.Bit?
  {
  }

  /** The agreement converter gives a number exactly for the six literals and
      `undefined` for every other cell, including a missing one. */
  lemma AgreeDefinedExactly(f: string, rec: Record, num: Numerics)
    ensures Eval(Agree(f), rec, num).Success?
    ensures Eval(Agree(f), rec, num).value != Undefined <==> f in rec && rec[f] in AgreeScale
    ensures Eval(Agree(f), rec, num).value.Num? ==> -2.0 <= Eval(Agree(f), rec, num).value.x <= 2.0
  {
  }

  /** An indicator answers "1" exactly when its token is one of the cell's
      pieces. */
  lemma IndicatorMembership(factor: string, token: string, rec: Record, num: Numerics)
    requires factor in rec
    ensures Eval(Indicator(factor, token), rec, num) == Success(Bit(token in Split(rec[factor], MultiSeparator)))
  {
  }
}
