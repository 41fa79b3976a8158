/**
 * process_one and the export loop of main in scripts/apply_caps_make_v2.py:
 * coerce the numeric columns, cap absences with the policy for the dataset,
 * and skip datasets whose input file does not exist.
 */
module ApplyCaps {
  import opened Wrappers
  import opened Cells
  import opened Frames
  import opened Json
  import opened CapPolicy
  import opened Capping

  /**
   * A policy bound as cap_series uses it: None means no bound, a number bounds,
   * a bool compares as 0 or 1, and a string or dict makes `s < low` raise.
   * A list is taken to raise as well; this simplifies the numeric lists that
   * the comparison accepts element by element or by broadcasting.
   */
  function Bound(j: Json): (r: Result<Option<real>>)
    ensures j.JNull? ==> r == Ok(None)
    ensures j.JNum? ==> r == Ok(Some(j.n))
    ensures j.JBool? ==> r == Ok(Some(if j.b then 1.0 else 0.0))
    ensures r.Err? <==> j.JStr? || j.JArr? || j.JObj?
  {
    match j
    case JNull => Ok(None)
    case JNum(n) => Ok(Some(n))
    case JBool(b) => Ok(Some(if b then 1.0 else 0.0))
    case _ => Err
  }

  /** caps.get(key, {}).get("absences", {}), then .get("low_cap"/"high_cap", None). */
  function CapsFor(caps: Policy, key: string): CapPair
  {
    if key in caps && Absences in caps[key] then caps[key][Absences] else CapPair(JNull, JNull)
  }

  /** The exported frame and the n_changed that process_one adds to changed_total. */
  datatype Processed = Processed(frame: Frame, changed: nat)

  /** What process_one computes for one dataset; Err when cap_series raises. */
  function ProcessedFrame(key: string, df: Frame, caps: Policy): Result<Processed>
    requires df.Valid()
  {
    CapAbsences(CoerceColumns(df, NumCols), CapsFor(caps, key))
  }

  /** The capping step of process_one, on the frame after coercion. */
  function CapAbsences(coerced: Frame, cdef: CapPair): Result<Processed>
    requires coerced.Valid() && (Absences in coerced.cols ==> IsNumeric(coerced.cols[Absences]))
  {
    if Absences !in coerced.cols then Ok(Processed(coerced, 0))
    else
      var low :- Bound(cdef.low);
      var high :- Bound(cdef.high);
      var capped := CapSeries(coerced.cols[Absences], low, high);
      Ok(Processed(SetColumn(coerced, Absences, capped.0), capped.1))
  }

  method ProcessOne(key: string, df: Frame, caps: Policy) returns (r: Result<Processed>)
    requires df.Valid()
    ensures r == ProcessedFrame(key, df, caps)
  {
    var f := CoerceNumeric(df, NumCols);
    var changedTotal := 0;
    var cdef := CapsFor(caps, key);
    ghost var coerced := f;
    assert ProcessedFrame(key, df, caps) == CapAbsences(coerced, cdef);
    if Absences in f.cols {
      var low := Bound(cdef.low);
      var high := Bound(cdef.high);
      if low.Err? || high.Err? {
        return Err;
      }
      var capped := CapSeries(f.cols[Absences], low.value, high.value);
      f := SetColumn(f, Absences, capped.0);
      changedTotal := changedTotal + capped.1;
      assert CapAbsences(coerced, cdef) == Ok(Processed(f, changedTotal));
    }
    r := Ok(Processed(f, changedTotal));
  }

  /**
   * process_one changes only absences, by capping it; age and the grades are
   * numeric-coerced and nothing else; names and row count stay. It fails exactly
   * when absences is present and a bound is neither None nor a number.
   */
  lemma ProcessOneOnlyCapsAbsences(key: string, df: Frame, caps: Policy)
    requires df.Valid()
    ensures var r, cdef := ProcessedFrame(key, df, caps), CapsFor(caps, key);
      && (r.Err? <==> Absences in df.cols && (Bound(cdef.low).Err? || Bound(cdef.high).Err?))
      && (r.Ok? ==>
        && r.value.frame.Valid()
        && r.value.frame.names == df.names
        && r.value.frame.nrows == df.nrows
        && r.value.frame.cols.Keys == df.cols.Keys
        && (forall c :: c in df.cols && c !in NumCols ==> r.value.frame.cols[c] == df.cols[c])
        && (forall c :: c in df.cols && c in NumCols && c != Absences ==>
              r.value.frame.cols[c] == ToNumericCol(df.cols[c]))
        && (Absences in df.cols ==>
              var capped := CapSeries(ToNumericCol(df.cols[Absences]), Bound(cdef.low).value, Bound(cdef.high).value);
              r.value.frame.cols[Absences] == capped.0 && r.value.changed == capped.1)
        && (Absences !in df.cols ==> r.value.changed == 0))
  {
  }

  /**
   * The absences column of an export lies within whichever of the policy's
   * bounds are set, when both are usable and ordered.
   */
  lemma ExportedAbsencesWithinCaps(key: string, df: Frame, caps: Policy)
    requires df.Valid() && Absences in df.cols
    requires var cdef := CapsFor(caps, key);
      Bound(cdef.low).Ok? && Bound(cdef.high).Ok? && Ordered(Bound(cdef.low).value, Bound(cdef.high).value)
    ensures var r, cdef := ProcessedFrame(key, df, caps), CapsFor(caps, key);
      var lo, hi := Bound(cdef.low).value, Bound(cdef.high).value;
      && r.Ok?
      && forall i :: 0 <= i < df.nrows && r.value.frame.cols[Absences][i].Num? ==>
           var x := r.value.frame.cols[Absences][i].x;
           (lo.Some? ==> lo.value <= x) && (hi.Some? ==> x <= hi.value)
  {
    var cdef := CapsFor(caps, key);
    CapWithinBounds(ToNumericCol(df.cols[Absences]), Bound(cdef.low).value, Bound(cdef.high).value);
  }

  /** With the default policy, no exported mathematics absence exceeds 20, nor any Portuguese one 15. */
  lemma DefaultExportWithinCaps(key: string, df: Frame)
    requires df.Valid() && Absences in df.cols && key in Datasets
    ensures var r := ProcessedFrame(key, df, DefaultCaps());
      && r.Ok?
      && forall i :: 0 <= i < df.nrows && r.value.frame.cols[Absences][i].Num? ==>
           r.value.frame.cols[Absences][i].x <= (if key == "mat" then 20.0 else 15.0)
  {
    ExportedAbsencesWithinCaps(key, df, DefaultCaps());
  }

  /** What process_one returns for each dataset whose input exists. */
  function Results(caps: Policy, inputs: map<string, Frame>): (r: map<string, Result<Processed>>)
    requires forall k :: k in inputs ==> inputs[k].Valid()
    ensures r.Keys == inputs.Keys
  {
    map k | k in inputs :: ProcessedFrame(k, inputs[k], caps)
  }

  /**
   * What main's loop over FILES leaves after the datasets ks, given what
   * process_one returns for each dataset whose input exists: the exported
   * frames by dataset, and whether process_one raised, which ends the loop.
   * A dataset whose input does not exist is skipped.
   */
  function ExportRun(results: map<string, Result<Processed>>, ks: seq<string>): (map<string, Processed>, bool)
    decreases |ks|
  {
    if ks == [] then (map[], false)
    else
      var before := ExportRun(results, ks[..|ks| - 1]);
      var k := ks[|ks| - 1];
      if before.1 || k !in results then before
      else
        match results[k]
        case Err => (before.0, true)
        case Ok(p) => (before.0[k := p], false)
  }

  /** Once process_one has raised, later datasets change nothing. */
  lemma {:induction false} CrashSticks(results: map<string, Result<Processed>>, ks: seq<string>, i: nat)
    requires i <= |ks| && ExportRun(results, ks[..i]).1
    ensures ExportRun(results, ks) == ExportRun(results, ks[..i])
    decreases |ks| - i
  {
    if i < |ks| {
      assert ks[..i + 1][..i] == ks[..i];
      CrashSticks(results, ks, i + 1);
    } else {
      assert ks[..i] == ks;
    }
  }

  /**
   * Every export is the result for a dataset of ks with an input; the loop
   * runs to the end exactly when every such dataset succeeds, and then every
   * one of them is exported.
   */
  lemma {:induction false} ExportRunMeaning(results: map<string, Result<Processed>>, ks: seq<string>)
    ensures var (outputs, crashed) := ExportRun(results, ks);
      && (forall k :: k in outputs ==> k in ks && k in results && results[k] == Ok(outputs[k]))
      && (!crashed <==> forall k :: k in ks && k in results ==> results[k].Ok?)
      && (!crashed ==> forall k :: k in ks && k in results ==> k in outputs)
    decreases |ks|
  {
    if ks != [] {
      var pre, k := ks[..|ks| - 1], ks[|ks| - 1];
      assert ks == pre + [k];
      ExportRunMeaning(results, pre);
    }
  }

  /** One pass of the loop over FILES, for the dataset ks[i]. */
  lemma ExportStep(results: map<string, Result<Processed>>, ks: seq<string>, i: nat, outputs: map<string, Processed>)
    requires i < |ks| && (outputs, false) == ExportRun(results, ks[..i])
    ensures ks[i] !in results ==> ExportRun(results, ks[..i + 1]) == (outputs, false)
    ensures ks[i] in results && results[ks[i]].Err? ==> ExportRun(results, ks) == (outputs, true)
    ensures ks[i] in results && results[ks[i]].Ok? ==>
      ExportRun(results, ks[..i + 1]) == (outputs[ks[i] := results[ks[i]].value], false)
  {
    assert ks[..i + 1][..i] == ks[..i];
    if ks[i] in results && results[ks[i]].Err? {
      CrashSticks(results, ks, i + 1);
    }
  }

  /** main's loop over FILES. */
  method ExportV2(caps: Policy, inputs: map<string, Frame>) returns (outputs: map<string, Processed>, crashed: bool)
    requires forall k :: k in inputs ==> inputs[k].Valid()
    ensures (outputs, crashed) == ExportRun(Results(caps, inputs), Datasets)
  {
    ghost var results := Results(caps, inputs);
    outputs, crashed := map[], false;
    var i := 0;
    while i < |Datasets|
      invariant 0 <= i <= |Datasets|
      invariant (outputs, false) == ExportRun(results, Datasets[..i])
    {
      var key := Datasets[i];
      ExportStep(results, Datasets, i, outputs);
      if key in inputs {
        var r := ProcessOne(key, inputs[key], caps);
        assert r == results[key];
        if r.Err? {
          crashed := true;
          return;
        }
        outputs := outputs[key := r.value];
      }
      i := i + 1;
    }
    assert Datasets[..i] == Datasets;
  }
}
