/**
 * The derived settings of src/config/main.py: the worker count with its
 * CPU-based fallback, the list of model names, the list positions of the
 * default models, and the validator that every default model is a known
 * model.
 *
 * A Python dict is modelled as its list of (key, value) entries in
 * insertion order.
 */
module ConfigMain {
  import opened Wrappers

  /** A dict as its (key, value) entries in insertion order. A Python dict
      holds each key once; entries with a repeated key are outside the
      model (see `DistinctKeys`). */
  type Dict = seq<(string, string)>

  /** Each key occurs in one entry only, as in a Python dict. */
  predicate DistinctKeys(d: Dict) {
    forall j, k | 0 <= j < k < |d| :: d[j].0 != d[k].0
  }

  /** `list(d.keys())` */
  function Keys(d: Dict): (r: seq<string>)
    ensures |r| == |d| && forall k | 0 <= k < |d| :: r[k] == d[k].0
  {
    seq(|d|, k requires 0 <= k < |d| => d[k].0)
  }

  /** `d[key]`, None for the KeyError of a missing key. */
  function Lookup(d: Dict, key: string): (r: Option<string>)
    ensures r.Some? <==> key in Keys(d)
    decreases |d|
  {
    if d == [] then None
    else if d[0].0 == key then Some(d[0].1)
    else
      assert Keys(d) == [d[0].0] + Keys(d[1..]);
      Lookup(d[1..], key)
  }

  /** On a dict, `d[key]` is the value of the one entry holding that key. */
  lemma {:induction false} LookupOfEntry(d: Dict, k: nat)
    requires DistinctKeys(d) && k < |d|
    ensures Lookup(d, d[k].0) == Some(d[k].1)
    decreases k
  {
    if k > 0 {
      assert d[0].0 != d[k].0;
      assert DistinctKeys(d[1..]) by {
        forall i, j | 0 <= i < j < |d| - 1 ensures d[1..][i].0 != d[1..][j].0 {
          assert d[1..][i] == d[i + 1] && d[1..][j] == d[j + 1];
        }
      }
      assert d[1..][k - 1] == d[k];
      LookupOfEntry(d[1..], k - 1);
    }
  }

  /** The settings as pydantic loads them (after the environment). */
  datatype Settings = Settings(maxWorkersSetting: Option<int>, models: Dict, defaultModels: Dict)

  /** The built-in MODELS and DEFAULT_MODELS. */
  const DefaultModelsTable: Dict := [
    ("Gemini 2.5 Pro", "gemini-2.5-pro"),
    ("Gemini 2.5 Flash", "gemini-2.5-flash"),
    ("Gemini 2.0 Flash", "gemini-2.0-flash")
  ]
  const DefaultTaskModels: Dict := [
    ("extraction", "Gemini 2.5 Flash"),
    ("evaluation", "Gemini 2.5 Pro")
  ]
  const Defaults := Settings(None, DefaultModelsTable, DefaultTaskModels)

  // ---------------------------------------------------------------------
  // max_workers

  /** `max_workers`: MAX_WORKERS when set, verbatim; otherwise
      `min(32, (os.cpu_count() or 1) + 4)` (a count of 0 or None counts as 1). */
  function MaxWorkers(s: Settings, cpuCount: Option<nat>): int {
    if s.maxWorkersSetting.Some? then s.maxWorkersSetting.value
    else
      var cpus := if cpuCount.None? || cpuCount.value == 0 then 1 else cpuCount.value;
      if cpus + 4 < 32 then cpus + 4 else 32
  }

  /** A worker count below one, which the thread pool rejects, comes only
      from a MAX_WORKERS set to that value. */
  lemma NonPositiveWorkersOnlyWhenSet(s: Settings, cpuCount: Option<nat>)
    ensures MaxWorkers(s, cpuCount) <= 0 <==> s.maxWorkersSetting.Some? && s.maxWorkersSetting.value <= 0
  {
  }

  /** Without MAX_WORKERS the worker count lies in [5, 32], grows with the
      CPU count, and reaches the cap from 28 CPUs on. */
  lemma FallbackWorkersBounded(s: Settings, cpuCount: Option<nat>)
    requires s.maxWorkersSetting.None?
    ensures 5 <= MaxWorkers(s, cpuCount) <= 32
    ensures cpuCount.Some? && cpuCount.value >= 28 ==> MaxWorkers(s, cpuCount) == 32
    ensures cpuCount.Some? && 1 <= cpuCount.value <= 28 ==> MaxWorkers(s, cpuCount) == cpuCount.value + 4
  {
  }

  /** A set MAX_WORKERS is used as is, with no range check, whatever the
      machine. */
  lemma SetWorkersVerbatim(s: Settings, cpuCount: Option<nat>, other: Option<nat>)
    requires s.maxWorkersSetting.Some?
    ensures MaxWorkers(s, cpuCount) == MaxWorkers(s, other) == s.maxWorkersSetting.value
  {
  }

  /** The fallback never decreases as CPUs are added. */
  lemma FallbackWorkersMonotone(s: Settings, a: nat, b: nat)
    requires s.maxWorkersSetting.None? && 1 <= a <= b
    ensures MaxWorkers(s, Some(a)) <= MaxWorkers(s, Some(b))
  {
  }

  // ---------------------------------------------------------------------
  // model_names and the default indices

  function ModelNames(s: Settings): seq<string> {
    Keys(s.models)
  }

  /** `names.index(x)`: the first position of x, None for the ValueError
      when x is absent. */
  function IndexOf(names: seq<string>, x: string): (r: Option<nat>)
    ensures r.Some? <==> x in names
    ensures r.Some? ==> r.value < |names| && names[r.value] == x
                        && forall k | 0 <= k < r.value :: names[k] != x
    decreases |names|
  {
    if names == [] then None
    else if names[0] == x then Some(0)
    else
      match IndexOf(names[1..], x)
      case None => None
      case Some(i) => Some(i + 1)
  }

  /** `default_extraction_idx` / `default_evaluation_idx` for a task: the
      position of the task's default model among the model names, 0 when it
      is not one of them; a task missing from DEFAULT_MODELS raises
      KeyError (None here). */
  function DefaultIdx(s: Settings, task: string): Option<nat> {
    match Lookup(s.defaultModels, task)
    case None => None
    case Some(model) =>
      match IndexOf(ModelNames(s), model)
      case None => Some(0)
      case Some(i) => Some(i)
  }

  function DefaultExtractionIdx(s: Settings): Option<nat> {
    DefaultIdx(s, "extraction")
  }

  function DefaultEvaluationIdx(s: Settings): Option<nat> {
    DefaultIdx(s, "evaluation")
  }

  /** The default index names the default model when that model is known,
      and falls back to 0 otherwise. */
  lemma DefaultIdxMeaning(s: Settings, task: string)
    requires Lookup(s.defaultModels, task).Some?
    ensures var model := Lookup(s.defaultModels, task).value;
            var idx := DefaultIdx(s, task).value;
            (model in ModelNames(s) ==> ModelNames(s)[idx] == model)
            && (model !in ModelNames(s) ==> idx == 0)
  {
  }

  // ---------------------------------------------------------------------
  // _check_defaults_are_valid_models

  /** The first (task, model) entry of the defaults whose model is not a
      key of the models, in the order the validator visits them. */
  function FirstUnknown(defaults: Dict, models: Dict): (r: Option<(string, string)>)
    ensures r.None? <==> forall k | 0 <= k < |defaults| :: defaults[k].1 in Keys(models)
    ensures r.Some? ==> r.value in defaults && r.value.1 !in Keys(models)
    decreases |defaults|
  {
    if defaults == [] then None
    else if defaults[0].1 !in Keys(models) then Some(defaults[0])
    else
      var rest := FirstUnknown(defaults[1..], models);
      assert forall k | 1 <= k < |defaults| :: defaults[k] == defaults[1..][k - 1];
      rest
  }

  function ValidationMessage(task: string, model: string): string {
    "Configuration Error: The default model '" + model + "' for task '" + task
    + "' is not defined in the main MODELS list."
  }

  /** The validator: the settings themselves, or the ValueError for the
      first default model that is not a known model. */
  function CheckDefaultsAreValidModels(s: Settings): Result<Settings, string> {
    match FirstUnknown(s.defaultModels, s.models)
    case None => Success(s)
    case Some(entry) => Failure(ValidationMessage(entry.0, entry.1))
  }

  /** Validation fails exactly when some default model is not a known
      model. */
  lemma ValidationFailsIffUnknownDefault(s: Settings)
    ensures CheckDefaultsAreValidModels(s).Failure?
            <==> exists k | 0 <= k < |s.defaultModels| :: s.defaultModels[k].1 !in ModelNames(s)
  {
  }

  /** On validated settings, each default index names its default model. */
  lemma {:induction false} ValidatedDefaultsIndexed(s: Settings, task: string)
    requires CheckDefaultsAreValidModels(s).Success?
    requires Lookup(s.defaultModels, task).Some?
    ensures ModelNames(s)[DefaultIdx(s, task).value] == Lookup(s.defaultModels, task).value
  {
    LookupIsEntry(s.defaultModels, task);
  }

  /** A value found by key is the value of one of the entries. */
  lemma {:induction false} LookupIsEntry(d: Dict, key: string)
    requires Lookup(d, key).Some?
    ensures (key, Lookup(d, key).value) in d
    decreases |d|
  {
    if d[0].0 != key {
      assert Keys(d) == [d[0].0] + Keys(d[1..]);
      LookupIsEntry(d[1..], key);
    }
  }

  /** The built-in settings validate, put the models in their declared
      order, and default to "Gemini 2.5 Flash" (index 1) for extraction and
      "Gemini 2.5 Pro" (index 0) for evaluation. */
  lemma BuiltInDefaults()
    ensures CheckDefaultsAreValidModels(Defaults).Success?
    ensures ModelNames(Defaults) == ["Gemini 2.5 Pro", "Gemini 2.5 Flash", "Gemini 2.0 Flash"]
    ensures DefaultExtractionIdx(Defaults) == Some(1)
    ensures DefaultEvaluationIdx(Defaults) == Some(0)
  {
    var names := ModelNames(Defaults);
    assert names == ["Gemini 2.5 Pro", "Gemini 2.5 Flash", "Gemini 2.0 Flash"];
    assert names[0] == "Gemini 2.5 Pro";
    assert names[1] == "Gemini 2.5 Flash";
    assert names[0] != "Gemini 2.5 Flash";
    assert IndexOf(names[1..], "Gemini 2.5 Flash") == Some(0);
  }
}
