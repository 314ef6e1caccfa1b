/** The per-kind rewriting of collected comparator entries into output
    clauses. Each handler is an imperative method proved against a
    specification function; the properties the decoder relies on are stated
    on those functions. */
module TransferFilterHandlers {
  import opened TransferFilterTypes

  // ---------------------------------------------------------------------
  // Specification functions
  // ---------------------------------------------------------------------

  /** The subjects of a list of entries, in order. */
  function ValuesOf(fs: seq<FilterAction>): (vs: seq<string>)
    ensures |vs| == |fs|
    ensures forall j :: 0 <= j < |fs| ==> vs[j] == fs[j].value
  {
    seq(|fs|, j requires 0 <= j < |fs| => fs[j].value)
  }

  /** Boolean mapping: each entry's subject becomes a flag name that must be true. */
  function BooleanMapped(fs: seq<FilterAction>): (r: seq<Clause>)
    ensures |r| == |fs|
    ensures forall j :: 0 <= j < |fs| ==> r[j] == Clause(fs[j].value, EQ, Flag(true))
  {
    if fs == [] then [] else [Clause(fs[0].value, EQ, Flag(true))] + BooleanMapped(fs[1..])
  }

  /** Discrete: one EQ clause listing every subject, comparators ignored. */
  function DiscreteClauses(keyname: string, fs: seq<FilterAction>): (r: seq<Clause>)
    ensures |r| == 1 && r[0].key == keyname && r[0].op == EQ
    ensures r[0].operand.Many? && r[0].operand.values == ValuesOf(fs)
  {
    [Clause(keyname, EQ, Many(ValuesOf(fs)))]
  }

  /** Ranges: one GT/LT clause per entry, or None as soon as an `=` appears. */
  function RangeClauses(keyname: string, fs: seq<FilterAction>): (r: Option<seq<Clause>>)
    ensures r.None? <==> exists j :: 0 <= j < |fs| && fs[j].comparator == Eq
    ensures r.Some? ==> |r.value| == |fs|
    ensures r.Some? ==> forall j :: 0 <= j < |fs| ==>
              r.value[j] == Clause(keyname, StrictOp(fs[j].comparator), Converted(fs[j].value))
  {
    if fs == [] then Some([])
    else if fs[0].comparator == Eq then None
    else
      match RangeClauses(keyname, fs[1..])
      case None => None
      case Some(rest) =>
        Some([Clause(keyname, StrictOp(fs[0].comparator), Converted(fs[0].value))] + rest)
  }

  /** The number of leading `=` entries. */
  function EqRunLength(fs: seq<FilterAction>): (n: nat)
    ensures n <= |fs|
  {
    if fs == [] || fs[0].comparator != Eq then 0 else 1 + EqRunLength(fs[1..])
  }

  /** EqRunLength is the length of the maximal leading run of `=` entries:
      every entry before it is `=`, and the entry at it, if any, is not. */
  lemma {:induction false} EqRunLengthIsRun(fs: seq<FilterAction>)
    ensures forall j :: 0 <= j < EqRunLength(fs) ==> fs[j].comparator == Eq
    ensures EqRunLength(fs) < |fs| ==> fs[EqRunLength(fs)].comparator != Eq
  {
    if fs != [] && fs[0].comparator == Eq {
      EqRunLengthIsRun(fs[1..]);
      forall j | 0 <= j < EqRunLength(fs)
        ensures fs[j].comparator == Eq
      {
        if j > 0 {
          assert fs[j] == fs[1..][j - 1];
        }
      }
    }
  }

  /** Custom attributes: a maximal run of `=` entries becomes one EQ clause
      and the entry right after the run is consumed without output; any
      other entry becomes a GT/LT clause on its raw subject. */
  function CustomClauses(keyname: string, fs: seq<FilterAction>): (r: seq<Clause>)
    ensures |r| <= |fs|
    decreases |fs|
  {
    if fs == [] then []
    else if fs[0].comparator == Eq then
      var n := EqRunLength(fs);
      [Clause(keyname, EQ, Many(ValuesOf(fs[..n])))]
        + CustomClauses(keyname, if n < |fs| then fs[n + 1..] else [])
    else
      [Clause(keyname, StrictOp(fs[0].comparator), One(fs[0].value))] + CustomClauses(keyname, fs[1..])
  }

  /** The kind-directed dispatch of `handle_filter`. */
  function Dispatched(keyname: string, fs: seq<FilterAction>): (r: Option<seq<Clause>>)
    requires keyname in TransferFilters
    ensures TransferFilters[keyname].kind == BooleanMappingKind ==> r == Some(BooleanMapped(fs))
    ensures TransferFilters[keyname].kind == DiscreteKind ==> r == Some(DiscreteClauses(keyname, fs))
    ensures TransferFilters[keyname].kind in {IntRange, DateRange} ==> r == RangeClauses(keyname, fs)
  {
    match TransferFilters[keyname].kind
    case BooleanMappingKind => Some(BooleanMapped(fs))
    case DiscreteKind => Some(DiscreteClauses(keyname, fs))
    case _ => RangeClauses(keyname, fs)
  }

  // ---------------------------------------------------------------------
  // Lemmas about the custom-attribute handler
  // ---------------------------------------------------------------------

  /** Without `=` entries every entry yields its own GT/LT clause, in order. */
  lemma {:induction false} CustomWithoutEquals(keyname: string, fs: seq<FilterAction>)
    requires forall j :: 0 <= j < |fs| ==> fs[j].comparator != Eq
    ensures |CustomClauses(keyname, fs)| == |fs|
    ensures forall j :: 0 <= j < |fs| ==>
              CustomClauses(keyname, fs)[j] == Clause(keyname, StrictOp(fs[j].comparator), One(fs[j].value))
  {
    if fs != [] {
      CustomWithoutEquals(keyname, fs[1..]);
    }
  }

  /** A non-empty list of `=` entries becomes exactly one EQ clause with all
      subjects in order. */
  lemma {:induction false} CustomAllEquals(keyname: string, fs: seq<FilterAction>)
    requires |fs| > 0
    requires forall j :: 0 <= j < |fs| ==> fs[j].comparator == Eq
    ensures CustomClauses(keyname, fs) == [Clause(keyname, EQ, Many(ValuesOf(fs)))]
  {
    EqRunLengthIsRun(fs);
    assert fs[..|fs|] == fs;
  }

  /** The entry that directly follows a run of `=` entries produces no
      clause: the run's EQ clause is followed by the clauses of what comes
      after that entry. */
  lemma CustomSkipsEntryAfterRun(keyname: string, run: seq<FilterAction>, next: FilterAction,
                                 rest: seq<FilterAction>)
    requires |run| > 0
    requires forall j :: 0 <= j < |run| ==> run[j].comparator == Eq
    requires next.comparator != Eq
    ensures CustomClauses(keyname, run + [next] + rest)
         == [Clause(keyname, EQ, Many(ValuesOf(run)))] + CustomClauses(keyname, rest)
  {
    var fs := run + [next] + rest;
    EqRunLengthPrefix(run, [next] + rest);
    assert fs == run + ([next] + rest);
    assert fs[..|run|] == run;
    assert fs[|run| + 1..] == rest;
  }

  lemma {:induction false} EqRunLengthPrefix(run: seq<FilterAction>, tail: seq<FilterAction>)
    requires forall j :: 0 <= j < |run| ==> run[j].comparator == Eq
    requires tail != [] && tail[0].comparator != Eq
    ensures EqRunLength(run + tail) == |run|
  {
    if run != [] {
      assert (run + tail)[1..] == run[1..] + tail;
      EqRunLengthPrefix(run[1..], tail);
    } else {
      assert run + tail == tail;
    }
  }

  /** An entry that is not `=` at the head of the list (so not directly after
      a run) becomes its own GT/LT clause on its raw subject, followed by the
      clauses of the rest. */
  lemma CustomStrictHead(keyname: string, head: FilterAction, rest: seq<FilterAction>)
    requires head.comparator != Eq
    ensures CustomClauses(keyname, [head] + rest)
         == [Clause(keyname, StrictOp(head.comparator), One(head.value))] + CustomClauses(keyname, rest)
  {
    assert ([head] + rest)[1..] == rest;
  }

  /** On a non-empty list made only of `=` entries the custom-attribute
      handler and the discrete handler agree, so routing `gender` by table rather than by
      kind only matters once `<` or `>` entries are present. */
  lemma CustomAgreesWithDiscreteOnEquals(keyname: string, fs: seq<FilterAction>)
    requires |fs| > 0
    requires forall j :: 0 <= j < |fs| ==> fs[j].comparator == Eq
    ensures CustomClauses(keyname, fs) == DiscreteClauses(keyname, fs)
  {
    CustomAllEquals(keyname, fs);
  }

  // ---------------------------------------------------------------------
  // The handlers as the source runs them
  // ---------------------------------------------------------------------

  /** The entries the custom-attribute loop has yet to visit when its index is `i`
      (the index may step one past the end after a trailing run of `=`). */
  function Remaining(fs: seq<FilterAction>, i: nat): (r: seq<FilterAction>)
    ensures i <= |fs| ==> r == fs[i..]
    ensures i > |fs| ==> r == []
  {
    if i <= |fs| then fs[i..] else []
  }

  lemma EqRunLengthStep(fs: seq<FilterAction>, i: nat)
    requires i <= |fs|
    ensures i < |fs| && fs[i].comparator == Eq ==> EqRunLength(fs[i..]) == 1 + EqRunLength(fs[i + 1..])
    ensures i == |fs| || fs[i].comparator != Eq ==> EqRunLength(fs[i..]) == 0
  {
    if i < |fs| {
      assert fs[i..][0] == fs[i];
      assert fs[i..][1..] == fs[i + 1..];
    }
  }

  lemma ValuesOfStep(fs: seq<FilterAction>, start: nat, i: nat)
    requires start <= i < |fs|
    ensures ValuesOf(fs[start..i + 1]) == ValuesOf(fs[start..i]) + [fs[i].value]
  {
  }

  lemma CustomClausesAtRun(keyname: string, fs: seq<FilterAction>, start: nat, i: nat)
    requires start < i <= |fs|
    requires EqRunLength(fs[start..]) == i - start
    ensures CustomClauses(keyname, Remaining(fs, start))
         == [Clause(keyname, EQ, Many(ValuesOf(fs[start..i])))] + CustomClauses(keyname, Remaining(fs, i + 1))
  {
    var t := fs[start..];
    assert t[0].comparator == Eq;
    assert t[..i - start] == fs[start..i];
    if i < |fs| {
      assert t[i - start + 1..] == fs[i + 1..];
    }
  }

  lemma CustomClausesAtStrict(keyname: string, fs: seq<FilterAction>, start: nat)
    requires start < |fs| && fs[start].comparator != Eq
    ensures CustomClauses(keyname, Remaining(fs, start))
         == [Clause(keyname, StrictOp(fs[start].comparator), One(fs[start].value))]
            + CustomClauses(keyname, Remaining(fs, start + 1))
  {
    assert fs[start..][1..] == fs[start + 1..];
  }

  lemma AppendStep(done: seq<Clause>, clause: Clause, after: seq<Clause>, here: seq<Clause>)
    requires here == [clause] + after
    ensures (done + [clause]) + after == done + here
  {
  }

  /** The index at which the run of `=` entries starting at `i` ends: where
      the source's inner loop stops. */
  function RunEnd(fs: seq<FilterAction>, i: nat): (e: nat)
    requires i <= |fs|
    ensures i <= e <= |fs|
    decreases |fs| - i
  {
    if i < |fs| && fs[i].comparator == Eq then RunEnd(fs, i + 1) else i
  }

  /** The clauses the custom-attribute loop emits from index `i` on, by
      index rather than by slicing. */
  function CustomFrom(keyname: string, fs: seq<FilterAction>, i: nat): (r: seq<Clause>)
    decreases |fs| - i
  {
    if i >= |fs| then []
    else
      var e := RunEnd(fs, i);
      if e > i then [Clause(keyname, EQ, Many(ValuesOf(fs[i..e])))] + CustomFrom(keyname, fs, e + 1)
      else [Clause(keyname, StrictOp(fs[i].comparator), One(fs[i].value))] + CustomFrom(keyname, fs, i + 1)
  }

  lemma {:induction false} RunEndIsEqRun(fs: seq<FilterAction>, i: nat)
    requires i <= |fs|
    ensures RunEnd(fs, i) == i + EqRunLength(fs[i..])
    decreases |fs| - i
  {
    EqRunLengthStep(fs, i);
    if i < |fs| && fs[i].comparator == Eq {
      RunEndIsEqRun(fs, i + 1);
    }
  }

  lemma CustomFromRunStep(keyname: string, fs: seq<FilterAction>, i: nat)
    requires i < |fs| && RunEnd(fs, i) > i
    ensures CustomFrom(keyname, fs, i)
         == [Clause(keyname, EQ, Many(ValuesOf(fs[i..RunEnd(fs, i)])))] + CustomFrom(keyname, fs, RunEnd(fs, i) + 1)
  {
  }

  lemma CustomFromAtRun(keyname: string, fs: seq<FilterAction>, i: nat)
    requires i < |fs| && RunEnd(fs, i) > i
    requires CustomFrom(keyname, fs, RunEnd(fs, i) + 1) == CustomClauses(keyname, Remaining(fs, RunEnd(fs, i) + 1))
    ensures CustomFrom(keyname, fs, i) == CustomClauses(keyname, Remaining(fs, i))
  {
    var e := RunEnd(fs, i);
    CustomFromRunStep(keyname, fs, i);
    RunEndIsEqRun(fs, i);
    CustomClausesAtRun(keyname, fs, i, e);
  }

  lemma CustomFromAtStrict(keyname: string, fs: seq<FilterAction>, i: nat)
    requires i < |fs| && RunEnd(fs, i) == i
    requires CustomFrom(keyname, fs, i + 1) == CustomClauses(keyname, Remaining(fs, i + 1))
    ensures CustomFrom(keyname, fs, i) == CustomClauses(keyname, Remaining(fs, i))
  {
    CustomClausesAtStrict(keyname, fs, i);
  }

  /** One step of the index-based reading: it agrees with CustomClauses at
      `i` whenever it does at the index the loop resumes from. */
  lemma CustomFromStep(keyname: string, fs: seq<FilterAction>, i: nat) returns (next: nat)
    requires i < |fs|
    ensures i < next
    ensures CustomFrom(keyname, fs, next) == CustomClauses(keyname, Remaining(fs, next))
            ==> CustomFrom(keyname, fs, i) == CustomClauses(keyname, Remaining(fs, i))
  {
    if RunEnd(fs, i) > i {
      next := RunEnd(fs, i) + 1;
      if CustomFrom(keyname, fs, next) == CustomClauses(keyname, Remaining(fs, next)) {
        CustomFromAtRun(keyname, fs, i);
      }
    } else {
      next := i + 1;
      if CustomFrom(keyname, fs, next) == CustomClauses(keyname, Remaining(fs, next)) {
        CustomFromAtStrict(keyname, fs, i);
      }
    }
  }

  /** The index-based reading of the loop agrees with CustomClauses on what
      is left from `i` on. */
  lemma {:induction false} CustomFromIsCustomClauses(keyname: string, fs: seq<FilterAction>, i: nat)
    ensures CustomFrom(keyname, fs, i) == CustomClauses(keyname, Remaining(fs, i))
    decreases |fs| - i
  {
    if i < |fs| {
      var next := CustomFromStep(keyname, fs, i);
      CustomFromIsCustomClauses(keyname, fs, next);
    }
  }

  /** `handle_custom_user_storage_filter`. */
  method HandleCustomUserStorageFilter(keyname: string, filters: seq<FilterAction>)
    returns (formatted: seq<Clause>)
    ensures formatted == CustomClauses(keyname, filters)
  {
    formatted := [];
    var i := 0;
    while i < |filters|
      invariant 0 <= i <= |filters| + 1
      invariant formatted + CustomFrom(keyname, filters, i) == CustomFrom(keyname, filters, 0)
      decreases |filters| + 1 - i
    {
      ghost var start := i;
      var comparator := filters[i].comparator;
      var val := filters[i].value;

      var equalsIn: seq<string> := [];
      while i < |filters| && filters[i].comparator == Eq
        invariant start <= i <= |filters|
        invariant equalsIn == ValuesOf(filters[start..i])
        invariant RunEnd(filters, start) == RunEnd(filters, i)
        invariant i == start ==> comparator == filters[start].comparator && val == filters[start].value
      {
        comparator := filters[i].comparator;
        val := filters[i].value;
        equalsIn := equalsIn + [val];
        ValuesOfStep(filters, start, i);
        i := i + 1;
      }

      ghost var done := formatted;
      if |equalsIn| > 0 {
        formatted := formatted + [Clause(keyname, EQ, Many(equalsIn))];
      } else if comparator == Gt {
        formatted := formatted + [Clause(keyname, GT, One(val))];
      } else {
        formatted := formatted + [Clause(keyname, LT, One(val))];
      }
      AppendStep(done, formatted[|done|], CustomFrom(keyname, filters, i + 1), CustomFrom(keyname, filters, start));
      i := i + 1;
    }
    CustomFromIsCustomClauses(keyname, filters, 0);
  }

  /** `handle_boolean_mapping`. */
  method HandleBooleanMapping(keyname: string, filters: seq<FilterAction>)
    returns (formatted: seq<Clause>)
    ensures |formatted| == |filters|
    ensures forall j :: 0 <= j < |filters| ==> formatted[j] == Clause(filters[j].value, EQ, Flag(true))
    ensures formatted == BooleanMapped(filters)
  {
    formatted := [];
    for i := 0 to |filters|
      invariant |formatted| == i
      invariant forall j :: 0 <= j < i ==> formatted[j] == Clause(filters[j].value, EQ, Flag(true))
    {
      var val := filters[i].value;
      formatted := formatted + [Clause(val, EQ, Flag(true))];
    }
  }

  /** `handle_discrete`. */
  method HandleDiscrete(keyname: string, filters: seq<FilterAction>)
    returns (formatted: seq<Clause>)
    ensures |formatted| == 1 && formatted[0].key == keyname && formatted[0].op == EQ
    ensures formatted[0].operand.Many?
    ensures |formatted[0].operand.values| == |filters|
    ensures forall j :: 0 <= j < |filters| ==> formatted[0].operand.values[j] == filters[j].value
    ensures formatted == DiscreteClauses(keyname, filters)
  {
    var equalsIn: seq<string> := [];
    var i := 0;
    while i < |filters|
      invariant 0 <= i <= |filters|
      invariant |equalsIn| == i
      invariant forall j :: 0 <= j < i ==> equalsIn[j] == filters[j].value
    {
      var val := filters[i].value;
      equalsIn := equalsIn + [val];
      i := i + 1;
    }
    assert equalsIn == ValuesOf(filters);
    formatted := [Clause(keyname, EQ, Many(equalsIn))];
  }

  /** `handle_other_types`, for the range kinds. */
  method HandleOtherTypes(keyname: string, filters: seq<FilterAction>)
    returns (formatted: Option<seq<Clause>>)
    ensures formatted.None? <==> exists j :: 0 <= j < |filters| && filters[j].comparator == Eq
    ensures formatted.Some? ==> |formatted.value| == |filters|
    ensures formatted.Some? ==> forall j :: 0 <= j < |filters| ==>
              formatted.value[j] == Clause(keyname, StrictOp(filters[j].comparator), Converted(filters[j].value))
    ensures formatted == RangeClauses(keyname, filters)
  {
    var acc: seq<Clause> := [];
    var i := 0;
    while i < |filters|
      invariant 0 <= i <= |filters|
      invariant |acc| == i
      invariant forall j :: 0 <= j < i ==> filters[j].comparator != Eq
      invariant forall j :: 0 <= j < i ==>
                  acc[j] == Clause(keyname, StrictOp(filters[j].comparator), Converted(filters[j].value))
    {
      var comparator := filters[i].comparator;
      var val := filters[i].value;
      if comparator == Gt {
        acc := acc + [Clause(keyname, GT, Converted(val))];
      } else if comparator == Lt {
        acc := acc + [Clause(keyname, LT, Converted(val))];
      } else {
        assert filters[i].comparator == Eq;
        formatted := None;
        return;
      }
      i := i + 1;
    }
    ghost var spec := RangeClauses(keyname, filters);
    assert spec.Some? && spec.value == acc;
    formatted := Some(acc);
  }

  /** `handle_filter`: dispatch on the catalogue kind of the key. */
  method HandleFilter(keyname: string, filters: seq<FilterAction>)
    returns (formatted: Option<seq<Clause>>)
    requires keyname in TransferFilters
    ensures formatted == Dispatched(keyname, filters)
  {
    var kind := TransferFilters[keyname].kind;
    if kind == BooleanMappingKind {
      var r := HandleBooleanMapping(keyname, filters);
      formatted := Some(r);
    } else if kind == DiscreteKind {
      var r := HandleDiscrete(keyname, filters);
      formatted := Some(r);
    } else {
      formatted := HandleOtherTypes(keyname, filters);
    }
  }
}
