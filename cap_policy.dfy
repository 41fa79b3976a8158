/**
 * The cap policy of scripts/apply_caps_make_v2.py: DEFAULT_CAPS, keyed by
 * dataset and column, and load_caps, which merges the suggestion file written
 * by the outlier scan into DEFAULT_CAPS in place.
 */
module CapPolicy {
  import opened Wrappers
  import opened Json

  /** {"low_cap": low, "high_cap": high}; a bound is None (JNull) or a JSON value. */
  datatype CapPair = CapPair(low: Json, high: Json)

  /** dataset key -> column -> caps */
  type Policy = map<string, map<string, CapPair>>

  /** The iteration order of DEFAULT_CAPS' keys. */
  const Datasets: seq<string> := ["mat", "por"]

  const Absences: string := "absences"

  /** DEFAULT_CAPS: absences capped above at 20 for mat and at 15 for por. */
  function DefaultCaps(): Policy
  {
    map["mat" := map[Absences := CapPair(JNull, JNum(20.0))],
        "por" := map[Absences := CapPair(JNull, JNum(15.0))]]
  }

  /** The suggestion file: absent, present but not valid JSON, or parsed. */
  datatype SuggestionFile = NoFile | Unreadable | Parsed(content: Json)

  /** caps[k]["absences"], with the KeyError either lookup can raise. */
  function AbsencesCaps(caps: Policy, k: string): (r: Result<CapPair>)
    ensures r.Ok? <==> k in caps && Absences in caps[k]
  {
    if k in caps && Absences in caps[k] then Ok(caps[k][Absences]) else Err
  }

  /**
   * One pass of the merge loop for dataset key k. Err is an exception, which
   * ends the loop. The low_cap and the high_cap assignment repeat the same
   * lookups, so once the first has succeeded the second cannot fail.
   */
  function MergeKey(caps: Policy, k: string, sugg: Json): Result<Policy>
  {
    var present :- PyIn(k, sugg);
    if !present then Ok(caps)
    else
      var entry :- PyIndex(sugg, k);
      var hasAbsences :- PyIn(Absences, entry);
      if !hasAbsences then Ok(caps)
      else
        var suggested :- PyIndex(entry, Absences);
        var current :- AbsencesCaps(caps, k);
        var low :- PyGet(suggested, "low_cap", current.low);
        var high :- PyGet(suggested, "high_cap", current.high);
        Ok(caps[k := caps[k][Absences := CapPair(low, high)]])
  }

  /** The policy after the loop over ks, and whether an exception stopped it. */
  datatype MergeOutcome = MergeOutcome(caps: Policy, failed: bool)

  function MergeKeys(caps: Policy, ks: seq<string>, sugg: Json): MergeOutcome
  {
    if ks == [] then MergeOutcome(caps, false)
    else
      match MergeKey(caps, ks[0], sugg)
      case Err => MergeOutcome(caps, true)
      case Ok(next) => MergeKeys(next, ks[1..], sugg)
  }

  /** The policy load_caps leaves in force; a missing or unreadable file changes nothing. */
  function LoadedCaps(caps: Policy, ks: seq<string>, file: SuggestionFile): Policy
  {
    match file
    case Parsed(j) => MergeKeys(caps, ks, j).caps
    case _ => caps
  }

  /** DEFAULT_CAPS, the module-level dict that load_caps updates through an alias. */
  class CapRegistry {
    var caps: Policy
    const order: seq<string>

    constructor ()
      ensures caps == DefaultCaps() && order == Datasets
    {
      caps := DefaultCaps();
      order := Datasets;
    }

    /** load_caps(): merges the suggestion into caps and returns the same dict. */
    method LoadCaps(file: SuggestionFile) returns (result: Policy)
      modifies this
      ensures caps == LoadedCaps(old(caps), order, file)
      ensures result == caps
    {
      if file.Parsed? {
        var sugg := file.content;
        var i := 0;
        while i < |order|
          invariant 0 <= i <= |order|
          invariant MergeKeys(caps, order[i..], sugg).caps == MergeKeys(old(caps), order, sugg).caps
        {
          var next := MergeKey(caps, order[i], sugg);
          if next.Err? {
            break;
          }
          caps := next.value;
          i := i + 1;
        }
      }
      result := caps;
    }
  }

  // ---------------------------------------------------------------------
  // Properties of the merge

  lemma DefaultsWithoutFile(caps: Policy, ks: seq<string>)
    ensures LoadedCaps(caps, ks, NoFile) == caps && LoadedCaps(caps, ks, Unreadable) == caps
  {
  }

  /**
   * An exception at key ks[i] keeps the updates made for ks[..i] and makes
   * none for ks[i..].
   */
  lemma {:induction false} FailureKeepsEarlierUpdates(caps: Policy, ks: seq<string>, sugg: Json, i: nat)
    requires i < |ks|
    requires !MergeKeys(caps, ks[..i], sugg).failed
    requires MergeKey(MergeKeys(caps, ks[..i], sugg).caps, ks[i], sugg).Err?
    ensures MergeKeys(caps, ks, sugg) == MergeOutcome(MergeKeys(caps, ks[..i], sugg).caps, true)
  {
    if i > 0 {
      assert ks[..i][0] == ks[0] && ks[..i][1..] == ks[1..][..i - 1];
      var next := MergeKey(caps, ks[0], sugg);
      FailureKeepsEarlierUpdates(next.value, ks[1..], sugg, i - 1);
    }
  }

  /** The suggestion has the shape the outlier scan writes for the keys in ks. */
  predicate WellShaped(sugg: Json, ks: seq<string>)
  {
    && sugg.JObj?
    && forall k :: k in ks && k in sugg.fields ==>
         && sugg.fields[k].JObj?
         && (Absences in sugg.fields[k].fields ==> sugg.fields[k].fields[Absences].JObj?)
  }

  /** Every key of ks has caps for absences. */
  predicate HasAbsences(caps: Policy, ks: seq<string>)
  {
    forall k :: k in ks ==> k in caps && Absences in caps[k]
  }

  predicate Distinct(ks: seq<string>)
  {
    forall i, j :: 0 <= i < j < |ks| ==> ks[i] != ks[j]
  }

  /** The merged caps for dataset k: each suggested key replaces the default. */
  function Merged(current: CapPair, sugg: Json, k: string): CapPair
    requires sugg.JObj?
  {
    if k in sugg.fields && sugg.fields[k].JObj? && Absences in sugg.fields[k].fields
       && sugg.fields[k].fields[Absences].JObj?
    then
      var s := sugg.fields[k].fields[Absences].fields;
      CapPair(if "low_cap" in s then s["low_cap"] else current.low,
              if "high_cap" in s then s["high_cap"] else current.high)
    else current
  }

  /**
   * On a well-shaped suggestion the merge runs to the end; for each key of ks
   * the absences caps take the suggested low_cap/high_cap where present and keep
   * the default otherwise; other keys, and other columns, are left alone.
   */
  lemma {:induction false} MergeWellShaped(caps: Policy, ks: seq<string>, sugg: Json)
    requires WellShaped(sugg, ks) && HasAbsences(caps, ks) && Distinct(ks)
    ensures var r := MergeKeys(caps, ks, sugg);
      && !r.failed
      && r.caps.Keys == caps.Keys
      && (forall k :: k in caps ==> r.caps[k].Keys == caps[k].Keys)
      && (forall k, c :: k in caps && c in caps[k] && (k !in ks || c != Absences) ==> r.caps[k][c] == caps[k][c])
      && (forall k :: k in ks ==> r.caps[k][Absences] == Merged(caps[k][Absences], sugg, k))
  {
    if ks != [] {
      var k := ks[0];
      var next := MergeKey(caps, k, sugg);
      assert next.Ok?;
      var c1 := next.value;
      assert c1.Keys == caps.Keys;
      assert c1[k][Absences] == Merged(caps[k][Absences], sugg, k);
      assert forall j :: j in caps && j != k ==> c1[j] == caps[j];
      assert forall c :: c in caps[k] && c != Absences ==> c1[k][c] == caps[k][c];
      assert forall j :: j in ks[1..] ==> j != k by {
        forall j | j in ks[1..] ensures j != k {
          var t :| 0 <= t < |ks[1..]| && ks[1..][t] == j;
          assert ks[t + 1] == j;
        }
      }
      assert Distinct(ks[1..]) by {
        forall a, b | 0 <= a < b < |ks[1..]| ensures ks[1..][a] != ks[1..][b] {
          assert ks[a + 1] != ks[b + 1];
        }
      }
      MergeWellShaped(c1, ks[1..], sugg);
    }
  }
}
