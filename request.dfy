/** The live-fetch request of `get_inspection_page`: its URL and merged query parameters. */
module Request {
  import opened Wrappers
  import opened PyDict

  const INSPECTION_DOMAIN: string := "http://info.kingcounty.gov"
  const INSPECTION_PATH: string := "/health/ehs/foodsafety/inspections/Results.aspx"

  /** The default query, in the order the script declares it. */
  const INSPECTION_PARAMS: Dict<string> := [
    Entry("Output", "W"),
    Entry("Business_Name", ""),
    Entry("Business_Address", ""),
    Entry("Longitude", ""),
    Entry("Latitude", ""),
    Entry("City", ""),
    Entry("Zip_Code", ""),
    Entry("Inspection_Type", "All"),
    Entry("Inspection_Start", ""),
    Entry("Inspection_End", ""),
    Entry("Inspection_Closed_Business", "A"),
    Entry("Violation_Points", ""),
    Entry("Violation_Red_Points", ""),
    Entry("Violation_Descr", ""),
    Entry("Fuzzy_Search", "N"),
    Entry("Sort", "H")
  ]

  /** The value `k` has after overriding `defaults` with the recognised keys of `kwargs`. */
  function Overridden(defaults: Dict<string>, kwargs: Dict<string>, k: string): Option<string> {
    if k in Keys(defaults) && k in Keys(kwargs) then Get(kwargs, k) else Get(defaults, k)
  }

  /** `params[key] = val` for a keyword argument that names a default parameter; other names are ignored. */
  function Assign(defaults: Dict<string>, params: Dict<string>, e: Entry<string>): (r: Dict<string>)
    ensures Keys(params) == Keys(defaults) ==> Keys(r) == Keys(defaults)
    ensures forall k :: Get(r, k) == if k == e.key && k in Keys(defaults) then Some(e.val) else Get(params, k)
  {
    if e.key in Keys(defaults) then
      PutGetAll(params, e.key, e.val);
      Put(params, e.key, e.val)
    else params
  }

  /** The parameters after the loop has read `kwargs`, one keyword argument after another. */
  function Merged(defaults: Dict<string>, kwargs: Dict<string>): (r: Dict<string>)
    ensures Keys(r) == Keys(defaults)
  {
    if kwargs == [] then defaults
    else Assign(defaults, Merged(defaults, kwargs[..|kwargs| - 1]), kwargs[|kwargs| - 1])
  }

  /**
   * The loop of `get_inspection_page`: a copy of `defaults` in which each
   * keyword argument that names a key of `defaults` replaces that key's
   * value; other keyword arguments are dropped.
   */
  method MergeParams(defaults: Dict<string>, kwargs: Dict<string>) returns (params: Dict<string>)
    requires Valid(kwargs)  // keyword arguments are distinct names
    ensures Keys(params) == Keys(defaults)
    ensures forall k :: Get(params, k) == Overridden(defaults, kwargs, k)
  {
    params := defaults;
    for i := 0 to |kwargs|
      invariant params == Merged(defaults, kwargs[..i])
    {
      var key, val := kwargs[i].key, kwargs[i].val;
      if key in Keys(defaults) {
        params := Put(params, key, val);
      }
      assert kwargs[..i + 1][..i] == kwargs[..i];
    }
    assert kwargs[..|kwargs|] == kwargs;
    MergedOverrides(defaults, kwargs);
  }

  /**
   * The merged parameters have exactly the defaults' keys; a key takes the
   * keyword argument's value when both name it, and keeps its default otherwise.
   */
  lemma MergedOverrides(defaults: Dict<string>, kwargs: Dict<string>)
    requires Valid(kwargs)
    ensures Keys(Merged(defaults, kwargs)) == Keys(defaults)
    ensures forall k :: Get(Merged(defaults, kwargs), k) == Overridden(defaults, kwargs, k)
  {
    forall k ensures Get(Merged(defaults, kwargs), k) == Overridden(defaults, kwargs, k) {
      MergedOverridesAt(defaults, kwargs, k);
    }
  }

  /** `MergedOverrides` for one key, by induction on the keyword arguments read. */
  lemma {:induction false} MergedOverridesAt(defaults: Dict<string>, kwargs: Dict<string>, k: string)
    requires Valid(kwargs)
    ensures Get(Merged(defaults, kwargs), k) == Overridden(defaults, kwargs, k)
  {
    if kwargs != [] {
      var n := |kwargs| - 1;
      var prev, e := kwargs[..n], kwargs[n];
      ValidSplitLast(kwargs);
      MergedOverridesAt(defaults, prev, k);
      OverrideNewKey(defaults, prev, e, Merged(defaults, prev), k);
    }
  }

  /** One keyword argument more, not seen before: a recognised key takes its value, nothing else changes. */
  lemma OverrideNewKey(defaults: Dict<string>, seen: Dict<string>, e: Entry<string>, params: Dict<string>, k: string)
    requires e.key !in Keys(seen)
    requires Get(params, k) == Overridden(defaults, seen, k)
    ensures Get(Assign(defaults, params, e), k) == Overridden(defaults, seen + [e], k)
  {
    assert Keys(seen + [e]) == Keys(seen) + [e.key];
    GetAppend(seen, e, k);
  }

  /** `get_inspection_page(**kwargs)` up to the HTTP call: the URL and the query it sends. */
  method InspectionRequest(kwargs: Dict<string>) returns (url: string, params: Dict<string>)
    requires Valid(kwargs)
    ensures url == INSPECTION_DOMAIN + INSPECTION_PATH
    ensures Keys(params) == Keys(INSPECTION_PARAMS)
    ensures forall k :: Get(params, k) == Overridden(INSPECTION_PARAMS, kwargs, k)
  {
    url := INSPECTION_DOMAIN + INSPECTION_PATH;
    params := MergeParams(INSPECTION_PARAMS, kwargs);
  }
}
