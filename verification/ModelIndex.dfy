/** Which models a target serves: the index from lower-cased upstream names and
    fallback aliases to upstream names. */
module ModelIndex {
  import opened Wrappers
  import opened Text

  datatype ModelMapping = ModelMapping(upstream: string, fallback: string)

  /** One turn of the indexing loop. */
  function AddMapping(idx: map<string, string>, m: ModelMapping): map<string, string> {
    var upKey, fb := NormalName(m.upstream), NormalName(m.fallback);
    if upKey == "" then idx
    else
      var idx1 := idx[upKey := m.upstream];
      if fb != "" && fb !in idx1 then idx1[fb := m.upstream] else idx1
  }

  function IndexOf(mappings: seq<ModelMapping>): map<string, string> {
    if mappings == [] then map[]
    else AddMapping(IndexOf(mappings[..|mappings| - 1]), mappings[|mappings| - 1])
  }

  lemma IndexOfNext(mappings: seq<ModelMapping>, i: nat)
    requires i < |mappings|
    ensures IndexOf(mappings[..i + 1]) == AddMapping(IndexOf(mappings[..i]), mappings[i])
  {
    hide AddMapping;
    assert mappings[..i + 1][..i] == mappings[..i];
  }

  method BuildModelIndex(mappings: seq<ModelMapping>) returns (idx: map<string, string>)
    ensures idx == IndexOf(mappings)
  {
    hide NormalName, IndexOf;
    IndexOfNone();
    idx := map[];
    var i := 0;
    assert mappings[..0] == [];
    while i < |mappings|
      invariant i <= |mappings| && idx == IndexOf(mappings[..i])
    {
      IndexOfNext(mappings, i);
      var upKey := NormalName(mappings[i].upstream);
      if upKey != "" {
        idx := idx[upKey := mappings[i].upstream];
        var fb := NormalName(mappings[i].fallback);
        if fb != "" && fb !in idx {
          idx := idx[fb := mappings[i].upstream];
        }
      }
      i := i + 1;
    }
    assert mappings[..i] == mappings;
  }

  lemma IndexOfNone()
    ensures IndexOf([]) == map[]
  {
  }

  predicate IsUpstream(m: ModelMapping, key: string) { key != "" && NormalName(m.upstream) == key }

  predicate IsFallback(m: ModelMapping, key: string) {
    key != "" && NormalName(m.upstream) != "" && NormalName(m.fallback) == key
  }

  /** Upstream name of the last mapping that serves `key` under its own name. */
  function LastUpstream(mappings: seq<ModelMapping>, key: string): Option<string> {
    if mappings == [] then None
    else
      var last := mappings[|mappings| - 1];
      if IsUpstream(last, key) then Some(last.upstream) else LastUpstream(mappings[..|mappings| - 1], key)
  }

  /** Upstream name of the first mapping with `key` as its alias. */
  function FirstFallback(mappings: seq<ModelMapping>, key: string): Option<string> {
    if mappings == [] then None
    else if IsFallback(mappings[0], key) then Some(mappings[0].upstream)
    else FirstFallback(mappings[1..], key)
  }

  lemma {:induction false} FirstFallbackAppend(mappings: seq<ModelMapping>, m: ModelMapping, key: string)
    ensures FirstFallback(mappings + [m], key)
         == if FirstFallback(mappings, key).Some? then FirstFallback(mappings, key)
            else if IsFallback(m, key) then Some(m.upstream) else None
  {
    if mappings != [] {
      FirstFallbackAppend(mappings[1..], m, key);
      assert (mappings + [m])[1..] == mappings[1..] + [m];
    }
  }

  function Lookup(idx: map<string, string>, key: string): Option<string> {
    if key in idx then Some(idx[key]) else None
  }

  lemma AddMappingResolves(idx: map<string, string>, m: ModelMapping, key: string)
    requires key != ""
    ensures Lookup(AddMapping(idx, m), key)
         == if IsUpstream(m, key) then Some(m.upstream)
            else if key in idx then Some(idx[key])
            else if IsFallback(m, key) then Some(m.upstream)
            else None
  {
  }

  /** A name resolves to the last upstream of that name; only a name no upstream
      has resolves as an alias, to the first mapping that declares it. Neither depends
      on how upstreams and aliases are interleaved. */
  lemma {:induction false} IndexResolves(mappings: seq<ModelMapping>, key: string)
    requires key != ""
    ensures Lookup(IndexOf(mappings), key)
         == if LastUpstream(mappings, key).Some? then LastUpstream(mappings, key) else FirstFallback(mappings, key)
  {
    hide NormalName, AddMapping;
    if mappings != [] {
      hide FirstFallback;
      var front, last := mappings[..|mappings| - 1], mappings[|mappings| - 1];
      IndexResolves(front, key);
      FirstFallbackAppend(front, last, key);
      AddMappingResolves(IndexOf(front), last, key);
      assert mappings == front + [last];
    }
  }

  /** `resolveUpstreamModel`: an empty index means the target takes any model. */
  function ResolveModel(idx: map<string, string>, model: string): Option<string> {
    if |idx| == 0 then Some(model)
    else
      var key := NormalName(model);
      if key == "" then None else Lookup(idx, key)
  }

  predicate ModelAllowed(idx: map<string, string>, model: string) { ResolveModel(idx, model).Some? }

  /** `ensureModelAllowed`, asked again once a target is chosen. */
  function EnsureModelAllowed(idx: map<string, string>, model: string): Option<string> {
    if |idx| == 0 then Some(model)
    else if Trim(model) == "" then None
    else ResolveModel(idx, model)
  }

  /** A target that was eligible for the model never fails the second check. */
  lemma EligibleModelEnsured(idx: map<string, string>, model: string)
    ensures EnsureModelAllowed(idx, model) == ResolveModel(idx, model)
  {
  }
}
