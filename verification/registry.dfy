/** The converter registry `createConverters` returns (clean.js:7-217): an
    ordered table from output column name to converter, filled with the
    single-column converters and then with one indicator per token discovered
    in each multi-select factor. */
module Registry {
  import opened Wrappers
  import opened Text
  import opened Seqs
  import opened Converters
  import opened Schema

  datatype Entry = Entry(name: string, conv: Converter)

  /** The `converters` object: entries in key-insertion order. */
  type Registry = seq<Entry>

  function Names(reg: seq<Entry>): (ns: seq<string>)
    ensures |ns| == |reg|
    ensures forall i :: 0 <= i < |reg| ==> ns[i] == reg[i].name
  {
    seq(|reg|, i requires 0 <= i < |reg| => reg[i].name)
  }

  /** `converters[e.name] = e.conv`: a new name is appended, an existing one
      keeps its place and gets the new converter. */
  function Put(reg: Registry, e: Entry): (r: Registry)
    ensures Names(r) == if e.name in Names(reg) then Names(reg) else Names(reg) + [e.name]
    ensures e in r
    ensures forall x :: x in reg && x.name != e.name ==> x in r
    ensures forall x :: x in r ==> x == e || x in reg
  {
    if |reg| == 0 then [e]
    else
      assert reg == [reg[0]] + reg[1..];
      NamesCons(reg[0], reg[1..]);
      if reg[0].name == e.name then
        NamesCons(e, reg[1..]);
        [e] + reg[1..]
      else
        var rest := Put(reg[1..], e);
        NamesCons(reg[0], rest);
        [reg[0]] + rest
  }

  lemma NamesCons(x: Entry, rest: seq<Entry>)
    ensures Names([x] + rest) == [x.name] + Names(rest)
  {
  }

  /** A run of assignments, in order. */
  function PutAll(reg: Registry, es: seq<Entry>): (r: Registry)
    ensures forall x :: x in r ==> x in reg || x in es
  {
    if |es| == 0 then reg
    else
      var last := es[|es| - 1];
      assert es == es[..|es| - 1] + [last];
      Put(PutAll(reg, es[..|es| - 1]), last)
  }

  lemma NamesSnoc(es: seq<Entry>)
    requires |es| > 0
    ensures Names(es) == Names(es[..|es| - 1]) + [es[|es| - 1].name]
  {
  }

  /** Starting from an empty table, the keys end up in first-assignment
      order. */
  lemma {:induction false} PutAllNames(es: seq<Entry>)
    ensures Names(PutAll([], es)) == Dedup(Names(es))
    decreases |es|
  {
    if |es| > 0 {
      var init := es[..|es| - 1];
      var last := es[|es| - 1];
      var p := PutAll([], init);
      PutAllNames(init);
      assert PutAll([], es) == Put(p, last);
      NamesSnoc(es);
      DedupSnoc(Names(init), last.name);
    }
  }

  /** An assignment survives every later assignment when no later one writes a
      different converter under the same name. */
  lemma {:induction false} PutAllKeeps(es: seq<Entry>, k: nat)
    requires k < |es|
    requires forall j :: k < j < |es| && es[j].name == es[k].name ==> es[j] == es[k]
    ensures es[k] in PutAll([], es)
    decreases |es|
  {
    if k < |es| - 1 {
      var init := es[..|es| - 1];
      PutAllKeeps(init, k);
    }
  }

  // ---------------------------------------------------------------------------
  // token discovery (clean.js:204-210)
  // ---------------------------------------------------------------------------

  predicate HasField(inputs: seq<Record>, field: string) {
    forall i :: 0 <= i < |inputs| ==> field in inputs[i]
  }

  /** Every piece of every record's cell, record by record, in order. */
  function Pieces(inputs: seq<Record>, factor: string): seq<string>
    requires HasField(inputs, factor)
  {
    if |inputs| == 0 then []
    else Pieces(inputs[..|inputs| - 1], factor) + Split(inputs[|inputs| - 1][factor], MultiSeparator)
  }

  lemma {:induction false} PiecesMembership(inputs: seq<Record>, factor: string, t: string)
    requires HasField(inputs, factor)
    ensures t in Pieces(inputs, factor) <==>
      exists i :: 0 <= i < |inputs| && t in Split(inputs[i][factor], MultiSeparator)
    decreases |inputs|
  {
    if |inputs| > 0 {
      var init := inputs[..|inputs| - 1];
      PiecesMembership(init, factor, t);
      if t in Pieces(inputs, factor) && t !in Split(inputs[|inputs| - 1][factor], MultiSeparator) {
        var i :| 0 <= i < |init| && t in Split(init[i][factor], MultiSeparator);
        assert init[i] == inputs[i];
      }
      if exists i :: 0 <= i < |inputs| && t in Split(inputs[i][factor], MultiSeparator) {
        var i :| 0 <= i < |inputs| && t in Split(inputs[i][factor], MultiSeparator);
        if i < |init| {
          assert init[i] == inputs[i];
        }
      }
    }
  }

  /** The keys of `uniq` once every record has been scanned: the distinct
      pieces in first-seen order. A record without the column makes
      `row[factor].split` throw. */
  function Tokens(inputs: seq<Record>, factor: string): (r: Result<seq<string>, Failure>)
    ensures r.Failure? <==> !HasField(inputs, factor)
    ensures r.Failure? ==> r.error == MissingField(factor)
  {
    if HasField(inputs, factor) then Success(Dedup(Pieces(inputs, factor)))
    else Failure(MissingField(factor))
  }

  /** The discovered tokens are distinct, are exactly the pieces some record's
      cell splits into, and come in first-seen order. */
  lemma TokensSpec(inputs: seq<Record>, factor: string)
    requires HasField(inputs, factor)
    ensures Tokens(inputs, factor).Success?
    ensures Distinct(Tokens(inputs, factor).value)
    ensures forall t :: t in Tokens(inputs, factor).value <==>
      exists i :: 0 <= i < |inputs| && t in Split(inputs[i][factor], MultiSeparator)
    ensures var ts := Tokens(inputs, factor).value;
      forall i, j :: 0 <= i < j < |ts| ==>
        FirstIndex(Pieces(inputs, factor), ts[i]) < FirstIndex(Pieces(inputs, factor), ts[j])
  {
    forall t ensures t in Tokens(inputs, factor).value <==>
      exists i :: 0 <= i < |inputs| && t in Split(inputs[i][factor], MultiSeparator)
    {
      PiecesMembership(inputs, factor, t);
    }
    DedupFirstSeen(Pieces(inputs, factor));
  }

  lemma PiecesStep(inputs: seq<Record>, i: nat, factor: string)
    requires i < |inputs|
    requires HasField(inputs[..i], factor) && factor in inputs[i]
    ensures HasField(inputs[..i + 1], factor)
    ensures Pieces(inputs[..i + 1], factor) == Pieces(inputs[..i], factor) + Split(inputs[i][factor], MultiSeparator)
  {
    assert inputs[..i + 1][..i] == inputs[..i];
  }

  /** The inner discovery loop: `uniq[value] = true` for each piece of one
      cell, in order. */
  method RecordPieces(uniq: seq<string>, ghost seen: seq<string>, values: seq<string>) returns (r: seq<string>)
    requires uniq == Dedup(seen)
    ensures r == Dedup(seen + values)
  {
    r := uniq;
    var j := 0;
    assert seen + values[..0] == seen;
    while j < |values|
      invariant j <= |values|
      invariant r == Dedup(seen + values[..j])
    {
      DedupSnoc(seen + values[..j], values[j]);
      assert seen + values[..j + 1] == seen + values[..j] + [values[j]];
      if values[j] !in r {
        r := r + [values[j]];
      }
      j := j + 1;
    }
    assert values[..j] == values;
  }

  /** The discovery loop as written: one pass over the records, splitting each
      record's cell and recording every piece not seen before. */
  method DiscoverTokens(inputs: seq<Record>, factor: string) returns (r: Result<seq<string>, Failure>)
    ensures r == Tokens(inputs, factor)
  {
    var uniq: seq<string> := [];
    var i := 0;
    while i < |inputs|
      invariant i <= |inputs|
      invariant HasField(inputs[..i], factor)
      invariant uniq == Dedup(Pieces(inputs[..i], factor))
    {
      if factor !in inputs[i] {
        return Failure(MissingField(factor));
      }
      uniq := RecordPieces(uniq, Pieces(inputs[..i], factor), Split(inputs[i][factor], MultiSeparator));
      PiecesStep(inputs, i, factor);
      i := i + 1;
    }
    assert inputs[..i] == inputs;
    return Success(uniq);
  }

  // ---------------------------------------------------------------------------
  // registry construction (clean.js:91-216)
  // ---------------------------------------------------------------------------

  /** The column name of the indicator for `token` in `factor`. */
  function IndicatorName(factor: string, token: string): string
  {
    factor + "_" + token
  }

  /** Names built from underscore-free factors determine their factor and
      token. */
  lemma IndicatorNameInjective(f1: string, t1: string, f2: string, t2: string)
    requires '_' !in f1 && '_' !in f2
    requires IndicatorName(f1, t1) == IndicatorName(f2, t2)
    ensures f1 == f2 && t1 == t2
  {
    var n := IndicatorName(f1, t1);
    assert n[..|f1|] == f1 && n[|f1|] == '_';
    assert n[..|f2|] == f2 && n[|f2|] == '_';
    assert forall i :: 0 <= i < |f1| ==> n[i] == f1[i] != '_';
    assert forall i :: 0 <= i < |f2| ==> n[i] == f2[i] != '_';
    assert |f1| == |f2|;
    assert t1 == n[|f1| + 1..] == t2;
  }

  function IndicatorEntries(factor: string, tokens: seq<string>): (es: seq<Entry>)
    ensures |es| == |tokens|
  {
    seq(|tokens|, i requires 0 <= i < |tokens| =>
      Entry(IndicatorName(factor, tokens[i]), Indicator(factor, tokens[i])))
  }

  /** The indicator entries of every factor, factor by factor. */
  function Expand(factors: seq<string>, inputs: seq<Record>): (r: Result<seq<Entry>, Failure>)
    ensures r.Success? <==> forall k :: 0 <= k < |factors| ==> HasField(inputs, factors[k])
    ensures r.Failure? ==> exists k :: 0 <= k < |factors| && r.error == MissingField(factors[k]) && !HasField(inputs, factors[k])
  {
    if |factors| == 0 then Success([])
    else
      var tokens :- Tokens(inputs, factors[0]);
      var rest :- Expand(factors[1..], inputs);
      assert forall k :: 1 <= k < |factors| ==> factors[k] == factors[1..][k - 1];
      Success(IndicatorEntries(factors[0], tokens) + rest)
  }

  /** The entries `Expand` produces are exactly the indicators for the
      discovered tokens of the listed factors. */
  lemma {:induction false} ExpandMembership(factors: seq<string>, inputs: seq<Record>, x: Entry)
    requires Expand(factors, inputs).Success?
    ensures x in Expand(factors, inputs).value <==>
      && x.conv.Indicator?
      && x.conv.factor in factors
      && x.conv.token in Dedup(Pieces(inputs, x.conv.factor))
      && x.name == IndicatorName(x.conv.factor, x.conv.token)
    decreases |factors|
  {
    if |factors| > 0 {
      var f := factors[0];
      var tokens := Dedup(Pieces(inputs, f));
      var head := IndicatorEntries(f, tokens);
      ExpandMembership(factors[1..], inputs, x);
      assert Expand(factors, inputs).value == head + Expand(factors[1..], inputs).value;
      if x in head {
        var i :| 0 <= i < |head| && head[i] == x;
        assert x.conv.token == tokens[i];
      }
      if x.conv.Indicator? && x.conv.factor == f && x.conv.token in tokens && x.name == IndicatorName(f, x.conv.token) {
        var i :| 0 <= i < |tokens| && tokens[i] == x.conv.token;
        assert head[i] == x;
      }
      assert forall g :: g in factors <==> g == f || g in factors[1..] by {
        assert factors == [f] + factors[1..];
      }
    }
  }

  /** One converter per listed field, each reading its own column. */
  function Columns(fields: seq<string>, conv: string -> Converter): (es: seq<Entry>)
    ensures |es| == |fields|
    ensures forall i :: 0 <= i < |fields| ==> es[i] == Entry(fields[i], conv(fields[i]))
  {
    seq(|fields|, i requires 0 <= i < |fields| => Entry(fields[i], conv(fields[i])))
  }

  /** The single-column converters in declaration order: year counts, free
      numbers, flags, agreement scales. Each is bound to its own name and reads
      that column with its own kind of converter (clean.js:95, 110, 114,
      152). */
  function StaticEntries(s: Schema): (es: seq<Entry>)
    ensures Names(es) == StaticFields(s)
    ensures forall x :: x in es ==> !x.conv.Indicator? && x.conv.field == x.name
    ensures forall i :: 0 <= i < |s.years| ==> es[i] == Entry(s.years[i], Years(s.years[i]))
    ensures forall i :: 0 <= i < |s.floats| ==>
      es[|s.years| + i] == Entry(s.floats[i], Float(s.floats[i]))
    ensures forall i :: 0 <= i < |s.flags| ==>
      es[|s.years| + |s.floats| + i] == Entry(s.flags[i], Flag(s.flags[i]))
    ensures forall i :: 0 <= i < |s.agrees| ==>
      es[|s.years| + |s.floats| + |s.flags| + i] == Entry(s.agrees[i], Agree(s.agrees[i]))
  {
    var a := Columns(s.years, f => Years(f));
    var b := Columns(s.floats, f => Float(f));
    var c := Columns(s.flags, f => Flag(f));
    var d := Columns(s.agrees, f => Agree(f));
    StaticEntriesNames(s, a, b, c, d);
    a + b + c + d
  }

  /** The names of the four column groups, put end to end. */
  lemma StaticEntriesNames(s: Schema, a: seq<Entry>, b: seq<Entry>, c: seq<Entry>, d: seq<Entry>)
    requires Names(a) == s.years && Names(b) == s.floats && Names(c) == s.flags && Names(d) == s.agrees
    ensures Names(a + b + c + d) == StaticFields(s)
  {
    NamesAppend(a, b);
    NamesAppend(a + b, c);
    NamesAppend(a + b + c, d);
  }

  /** `createConverters()`: registers the single-column converters, then scans
      the records factor by factor; a record lacking a factor column aborts
      the whole construction. */
  function Build(s: Schema, inputs: seq<Record>): Result<Registry, Failure>
  {
    var dynamic :- Expand(s.factors, inputs);
    Success(PutAll([], StaticEntries(s) + dynamic))
  }

  // ---------------------------------------------------------------------------
  // properties of the built registry
  // ---------------------------------------------------------------------------

  lemma BuildValue(s: Schema, inputs: seq<Record>)
    requires Build(s, inputs).Success?
    ensures Expand(s.factors, inputs).Success?
    ensures Build(s, inputs).value == PutAll([], StaticEntries(s) + Expand(s.factors, inputs).value)
  {
  }

  lemma NamesAppend(a: seq<Entry>, b: seq<Entry>)
    ensures Names(a + b) == Names(a) + Names(b)
  {
  }

  /** Construction fails exactly when some record lacks some factor column, and
      then with the TypeError of that column. */
  lemma BuildFailsOnMissingFactor(s: Schema, inputs: seq<Record>)
    ensures Build(s, inputs).Success? <==> forall k :: 0 <= k < |s.factors| ==> HasField(inputs, s.factors[k])
    ensures Build(s, inputs).Failure? ==>
      exists k :: 0 <= k < |s.factors| && Build(s, inputs).error == MissingField(s.factors[k])
  {
  }

  /** Column order: the single-column names in declared order, then each
      factor's indicator names in discovery order, a repeated name keeping its
      first position. */
  lemma BuildOrder(s: Schema, inputs: seq<Record>)
    requires Build(s, inputs).Success?
    ensures Names(Build(s, inputs).value) == Dedup(StaticFields(s) + Names(Expand(s.factors, inputs).value))
  {
    BuildValue(s, inputs);
    var es := StaticEntries(s) + Expand(s.factors, inputs).value;
    PutAllNames(es);
    NamesAppend(StaticEntries(s), Expand(s.factors, inputs).value);
  }

  /** An entry of the second part of a run of assignments survives when no
      later entry reuses its name for another converter. */
  lemma KeptAfter(statics: seq<Entry>, dynamic: seq<Entry>, p: nat)
    requires p < |dynamic|
    requires forall j :: p < j < |dynamic| && dynamic[j].name == dynamic[p].name ==> dynamic[j] == dynamic[p]
    ensures dynamic[p] in PutAll([], statics + dynamic)
  {
    var es := statics + dynamic;
    var k := |statics| + p;
    assert es[k] == dynamic[p];
    forall j | k < j < |es| && es[j].name == es[k].name
      ensures es[j] == es[k]
    {
      assert es[j] == dynamic[j - |statics|];
    }
    PutAllKeeps(es, k);
  }

  /** Among the indicators of well-formed factors, a name belongs to one
      converter only. */
  lemma IndicatorNameOwned(factors: seq<string>, inputs: seq<Record>, factor: string, token: string, y: Entry)
    requires forall i :: 0 <= i < |factors| ==> '_' !in factors[i]
    requires factor in factors
    requires Expand(factors, inputs).Success?
    requires y in Expand(factors, inputs).value
    requires y.name == IndicatorName(factor, token)
    ensures y == Entry(IndicatorName(factor, token), Indicator(factor, token))
  {
    ExpandMembership(factors, inputs, y);
    var m :| 0 <= m < |factors| && factors[m] == y.conv.factor;
    var n :| 0 <= n < |factors| && factors[n] == factor;
    IndicatorNameInjective(factor, token, y.conv.factor, y.conv.token);
  }

  /** A registered indicator comes from the indicator phase. */
  lemma RegisteredIndicator(s: Schema, inputs: seq<Record>, e: Entry)
    requires Build(s, inputs).Success?
    requires e.conv.Indicator?
    requires e in Build(s, inputs).value
    ensures e in Expand(s.factors, inputs).value
  {
    BuildValue(s, inputs);
    var statics := StaticEntries(s);
    assert e in statics + Expand(s.factors, inputs).value;
    assert e !in statics;
  }

  /** The registry holds the indicator for `token` in a listed factor exactly
      when some record's cell in that column splits into a piece equal to
      `token`. */
  lemma IndicatorColumns(s: Schema, inputs: seq<Record>, factor: string, token: string)
    requires WellFormed(s)
    requires Build(s, inputs).Success?
    requires factor in s.factors
    ensures HasField(inputs, factor)
    ensures Entry(IndicatorName(factor, token), Indicator(factor, token)) in Build(s, inputs).value <==>
      exists i :: 0 <= i < |inputs| && token in Split(inputs[i][factor], MultiSeparator)
  {
    BuildValue(s, inputs);
    var dynamic := Expand(s.factors, inputs).value;
    var e := Entry(IndicatorName(factor, token), Indicator(factor, token));
    var n :| 0 <= n < |s.factors| && s.factors[n] == factor;
    assert HasField(inputs, factor);
    PiecesMembership(inputs, factor, token);
    ExpandMembership(s.factors, inputs, e);
    assert e in dynamic <==> token in Pieces(inputs, factor);
    if e in Build(s, inputs).value {
      RegisteredIndicator(s, inputs, e);
    }
    if e in dynamic {
      var p :| 0 <= p < |dynamic| && dynamic[p] == e;
      forall j | p < j < |dynamic| && dynamic[j].name == e.name
        ensures dynamic[j] == e
      {
        IndicatorNameOwned(s.factors, inputs, factor, token, dynamic[j]);
      }
      KeptAfter(StaticEntries(s), dynamic, p);
    }
  }

  /** An empty cell splits into the one empty token, so its factor gets the
      column `factor + "_"`. */
  lemma EmptyCellToken(s: Schema, inputs: seq<Record>, factor: string, n: nat)
    requires WellFormed(s)
    requires Build(s, inputs).Success?
    requires factor in s.factors
    requires n < |inputs| && factor in inputs[n] && inputs[n][factor] == ""
    ensures Entry(factor + "_", Indicator(factor, "")) in Build(s, inputs).value
  {
    IndicatorColumns(s, inputs, factor, "");
    assert "" in Split(inputs[n][factor], MultiSeparator);
    assert IndicatorName(factor, "") == factor + "_";
  }

  /** Every column name occurs once. */
  lemma BuildNamesDistinct(s: Schema, inputs: seq<Record>)
    requires Build(s, inputs).Success?
    ensures Distinct(Names(Build(s, inputs).value))
    ensures forall i, j :: 0 <= i < j < |Build(s, inputs).value| ==> Build(s, inputs).value[i].name != Build(s, inputs).value[j].name
  {
    BuildOrder(s, inputs);
  }

  /** The whole of `createConverters()`: it fails exactly when some record
      lacks a factor column; otherwise its columns are distinct, in the order
      `BuildOrder` gives, and each holds a single-column converter of the
      schema or the indicator of a listed factor and one of its discovered
      tokens. */
  lemma BuildSpec(s: Schema, inputs: seq<Record>, x: Entry)
    ensures Build(s, inputs).Success? <==> forall k :: 0 <= k < |s.factors| ==> HasField(inputs, s.factors[k])
    ensures Build(s, inputs).Success? ==>
      && Names(Build(s, inputs).value) == Dedup(StaticFields(s) + Names(Expand(s.factors, inputs).value))
      && Distinct(Names(Build(s, inputs).value))
    ensures Build(s, inputs).Success? && x in Build(s, inputs).value ==>
      || x in StaticEntries(s)
      || (&& x.conv.Indicator?
          && x.conv.factor in s.factors
          && x.conv.token in Dedup(Pieces(inputs, x.conv.factor))
          && x.name == IndicatorName(x.conv.factor, x.conv.token))
  {
    BuildFailsOnMissingFactor(s, inputs);
    if Build(s, inputs).Success? {
      BuildOrder(s, inputs);
      BuildNamesDistinct(s, inputs);
      BuildValue(s, inputs);
      ExpandMembership(s.factors, inputs, x);
    }
  }

  /** Every record of a successful run sets at least one indicator of every
      factor: the first piece of its own cell was discovered. */
  lemma EveryRecordSetsAnIndicator(s: Schema, inputs: seq<Record>, factor: string, n: nat, num: Numerics)
    requires WellFormed(s)
    requires Build(s, inputs).Success?
    requires factor in s.factors
    requires n < |inputs|
    ensures exists t :: (Entry(IndicatorName(factor, t), Indicator(factor, t)) in Build(s, inputs).value
      && Eval(Indicator(factor, t), inputs[n], num) == Success(Bit(true)))
  {
    var t := Split(inputs[n][factor], MultiSeparator)[0];
    IndicatorColumns(s, inputs, factor, t);
    assert 0 <= n < |inputs| && t in Split(inputs[n][factor], MultiSeparator);
    IndicatorMembership(factor, t, inputs[n], num);
  }

  /** A single-column converter carries one of the declared names. */
  lemma StaticName(s: Schema, x: Entry)
    requires x in StaticEntries(s)
    ensures x.name in StaticFields(s)
  {
    var statics := StaticEntries(s);
    var j :| 0 <= j < |statics| && statics[j] == x;
    assert x.name == Names(statics)[j];
  }

  /** No switch reaches the output: no registry column carries a switch's
      name, because `addSwitch` never stores its closure. */
  lemma SwitchesNeverRegistered(s: Schema, inputs: seq<Record>)
    requires WellFormed(s)
    requires Build(s, inputs).Success?
    ensures forall k :: 0 <= k < |s.switches| ==> s.switches[k].field !in Names(Build(s, inputs).value)
  {
    BuildValue(s, inputs);
    var reg := Build(s, inputs).value;
    var statics := StaticEntries(s);
    var dynamic := Expand(s.factors, inputs).value;
    forall k, i | 0 <= k < |s.switches| && 0 <= i < |reg|
      ensures reg[i].name != s.switches[k].field
    {
      var f := s.switches[k].field;
      var x := reg[i];
      assert x in statics + dynamic;
      if x in statics {
        StaticName(s, x);
      } else {
        ExpandMembership(s.factors, inputs, x);
        assert x.name[|x.conv.factor|] == '_';
      }
    }
  }
}
