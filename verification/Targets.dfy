/** Targets: their health, their eligibility for a request, and the weighted
    round-robin choice among them. */
module Targets {
  import opened Wrappers
  import opened Clock
  import KeyPools
  import KeyLoad
  import KeyState
  import ModelIndex
  import Modular
  import opened Text
  import opened WeightedShare

  /** The configuration of a target. `name` is lower-cased; `supportsPath` is the
      answer of the target's path capability check. */
  datatype TargetInfo = TargetInfo(
    name: string,
    apiKeys: nat,
    paused: bool,
    models: map<string, string>,
    supportsPath: string -> bool)

  const QUIET_PERIOD: int := 60_000_000_000   // 60 seconds

  class TargetState {
    const info: TargetInfo
    const pool: KeyPools.KeyPool?
    var mutedUntil: Time
    var lastSuccess: Time
    var lastFailure: Time
    var consecutiveFailure: nat
    var totalSuccess: nat
    var totalFailure: nat

    constructor (info: TargetInfo, pool: KeyPools.KeyPool?)
      ensures this.info == info && this.pool == pool && mutedUntil == ZERO_TIME
    {
      this.info, this.pool := info, pool;
      mutedUntil, lastSuccess, lastFailure := ZERO_TIME, ZERO_TIME, ZERO_TIME;
      consecutiveFailure, totalSuccess, totalFailure := 0, 0, 0;
    }

    predicate IsMuted(now: Time)
      reads this
    {
      mutedUntil > now
    }

    /** A failure mutes the target for the quiet period (60 s when none is given). */
    method MarkFailure(now: Time, quietPeriod: int)
      modifies this
      ensures IsMuted(now) && mutedUntil == now + (if quietPeriod <= 0 then QUIET_PERIOD else quietPeriod)
      ensures lastFailure == now && lastSuccess == old(lastSuccess)
      ensures consecutiveFailure == old(consecutiveFailure) + 1
      ensures totalFailure == old(totalFailure) + 1 && totalSuccess == old(totalSuccess)
    {
      lastFailure := now;
      consecutiveFailure := consecutiveFailure + 1;
      totalFailure := totalFailure + 1;
      mutedUntil := now + (if quietPeriod <= 0 then QUIET_PERIOD else quietPeriod);
    }

    /** A success ends any muting. */
    method MarkSuccess(now: Time)
      modifies this
      ensures now >= 0 ==> !IsMuted(now)
      ensures mutedUntil == ZERO_TIME && consecutiveFailure == 0
      ensures lastSuccess == now && lastFailure == old(lastFailure)
      ensures totalSuccess == old(totalSuccess) + 1 && totalFailure == old(totalFailure)
    {
      lastSuccess := now;
      consecutiveFailure := 0;
      totalSuccess := totalSuccess + 1;
      mutedUntil := ZERO_TIME;
    }

    ghost function View(): TargetView
      reads this
      reads if pool == null then {} else {pool, pool.entries, pool.inFlight}
    {
      var keyCount := if info.apiKeys > 0 then info.apiKeys else 1;
      TargetView(info, keyCount, if pool == null then keyCount else KeyState.CountActive(pool.Abs().keys), mutedUntil)
    }

    /** A target counts for its configured keys, one at least; alive are the active keys of
        its pool, all of them without a pool. */
    lemma ViewMeans()
      ensures View().keyCount >= 1 && (info.apiKeys > 0 ==> View().keyCount == info.apiKeys)
      ensures info.apiKeys <= 1 ==> View().keyCount == 1
      ensures pool == null ==> View().activeCount == View().keyCount
      ensures pool != null ==> View().activeCount == |KeyLoad.ActiveSet(pool.Abs().keys)|
      ensures forall now :: Muted(View(), now) <==> IsMuted(now)
      ensures View().info == info
    {
      if pool != null {
        KeyLoad.ActiveKeysCounted(pool.Abs().keys);
      }
    }

    /** What the selection reads off a target, under its locks. */
    method Snapshot() returns (view: TargetView)
      requires pool != null ==> pool.Valid()
      ensures view == View() && view.keyCount > 0
    {
      var keyCount := 1;
      if info.apiKeys > 0 {
        keyCount := info.apiKeys;
      }
      var activeCount := keyCount;
      if pool != null {
        activeCount := pool.ActiveKeyCount();
      }
      view := TargetView(info, keyCount, activeCount, mutedUntil);
    }
  }

  datatype TargetView = TargetView(info: TargetInfo, keyCount: nat, activeCount: nat, mutedUntil: Time)

  predicate Muted(v: TargetView, now: Time) { v.mutedUntil > now }

  /** A request as the selection sees it: who may use which targets (None: all), which
      ones were tried already, and what is asked for. */
  datatype Query = Query(allowed: Option<set<string>>, attempted: set<string>, model: string, path: string)

  predicate Permitted(name: string, allowed: Option<set<string>>) {
    allowed.None? || name in allowed.value
  }

  predicate Serves(info: TargetInfo, q: Query) {
    !info.paused && ModelIndex.ModelAllowed(info.models, q.model) && info.supportsPath(q.path)
  }

  predicate Eligible(info: TargetInfo, q: Query) {
    Serves(info, q) && info.name !in q.attempted && Permitted(info.name, q.allowed)
  }

  /** In plain terms: a target without mappings takes every model, another one those it has
      under their trimmed, lower-cased name. */
  ghost predicate TakesModel(models: map<string, string>, model: string) {
    models == map[] || (NormalName(model) != "" && NormalName(model) in models)
  }

  /** In plain terms: the caller may use the target, it is not paused, takes model and path,
      and was not tried before. */
  lemma EligibleMeans(info: TargetInfo, q: Query)
    ensures Eligible(info, q) <==>
      && (q.allowed.None? || info.name in q.allowed.value)
      && !info.paused && TakesModel(info.models, q.model) && info.supportsPath(q.path)
      && info.name !in q.attempted
    ensures ModelIndex.ModelAllowed(info.models, q.model) <==> TakesModel(info.models, q.model)
  {
    hide NormalName;
    assert |info.models| == 0 <==> info.models == map[];
  }

  // ---------------------------------------------------------------------------
  // Candidates

  /** Eligible targets among the first `n`, in order. */
  function CandidatesUpTo(views: seq<TargetView>, q: Query, n: nat): (cands: seq<nat>)
    requires n <= |views|
    ensures forall k :: 0 <= k < |cands| ==> cands[k] < n && Eligible(views[cands[k]].info, q)
  {
    if n == 0 then []
    else CandidatesUpTo(views, q, n - 1) + if Eligible(views[n - 1].info, q) then [n - 1] else []
  }

  function Candidates(views: seq<TargetView>, q: Query): (cands: seq<nat>)
    ensures forall k :: 0 <= k < |cands| ==> cands[k] < |views| && Eligible(views[cands[k]].info, q)
  {
    CandidatesUpTo(views, q, |views|)
  }

  lemma {:induction false} CandidatesUpToComplete(views: seq<TargetView>, q: Query, n: nat, t: nat)
    requires t < n <= |views| && Eligible(views[t].info, q)
    ensures t in CandidatesUpTo(views, q, n)
  {
    if t < n - 1 {
      CandidatesUpToComplete(views, q, n - 1, t);
    }
  }

  function ActiveWeights(views: seq<TargetView>, cands: seq<nat>): (w: seq<nat>)
    requires forall k :: 0 <= k < |cands| ==> cands[k] < |views|
    ensures |w| == |cands|
  {
    seq(|cands|, k requires 0 <= k < |cands| => views[cands[k]].activeCount)
  }

  function KeyWeights(views: seq<TargetView>, cands: seq<nat>): (w: seq<nat>)
    requires forall k :: 0 <= k < |cands| ==> cands[k] < |views|
    ensures |w| == |cands|
  {
    seq(|cands|, k requires 0 <= k < |cands| => views[cands[k]].keyCount)
  }

  /** Live keys weigh as long as there are any among the candidates; otherwise the
      configured ones do. */
  function Weights(views: seq<TargetView>, cands: seq<nat>): (w: seq<nat>)
    requires forall k :: 0 <= k < |cands| ==> cands[k] < |views|
    ensures |w| == |cands|
  {
    if Total(ActiveWeights(views, cands)) > 0 then ActiveWeights(views, cands) else KeyWeights(views, cands)
  }

  lemma {:induction false} PositiveTotal(w: seq<nat>)
    requires w != [] && forall k :: 0 <= k < |w| ==> w[k] > 0
    ensures Total(w) > 0
  {
  }

  // ---------------------------------------------------------------------------
  // The round-robin counter

  const UINT64: int := 0x1_0000_0000_0000_0000
  const INT64_SIGN: int := 0x8000_0000_0000_0000

  /** `int(counter) % n` in Go: the conversion to a signed integer may be negative, and
      the remainder then is too. */
  function GoRemainder(counter: nat, n: nat): int
    requires counter < UINT64 && n > 0
  {
    if counter < INT64_SIGN then counter % n else -((UINT64 - counter) % n)
  }

  /** The candidate the counter points at. */
  function Favourite(w: seq<nat>, counter: nat): (j: nat)
    requires w != [] && Total(w) > 0 && counter < UINT64
    ensures j < |w|
  {
    Pick(w, GoRemainder(counter, Total(w)))
  }

  // ---------------------------------------------------------------------------
  // Unmuted choice and the earliest retry

  /** First unmuted candidate from position `k` on. */
  function FirstUnmuted(views: seq<TargetView>, cands: seq<nat>, now: Time, k: nat): (r: nat)
    requires forall i :: 0 <= i < |cands| ==> cands[i] < |views|
    requires k <= |cands|
    ensures k <= r <= |cands|
    ensures forall i :: k <= i < r ==> Muted(views[cands[i]], now)
    ensures r < |cands| ==> !Muted(views[cands[r]], now)
    decreases |cands| - k
  {
    if k == |cands| || !Muted(views[cands[k]], now) then k else FirstUnmuted(views, cands, now, k + 1)
  }

  datatype Found = Found(candidate: Option<nat>, earliest: Option<nat>)

  /** The favourite if it is unmuted, else the first unmuted candidate in order. */
  function ChosenTarget(views: seq<TargetView>, cands: seq<nat>, counter: nat, now: Time): Option<nat>
    requires forall i :: 0 <= i < |cands| ==> cands[i] < |views|
    requires cands != [] ==> Total(Weights(views, cands)) > 0
    requires counter < UINT64
  {
    if cands == [] then None
    else
      var j := Favourite(Weights(views, cands), counter);
      if !Muted(views[cands[j]], now) then Some(cands[j])
      else
        var r := FirstUnmuted(views, cands, now, 0);
        if r < |cands| then Some(cands[r]) else None
  }

  /** `t` is a candidate that no candidate's retry precedes. */
  predicate EarliestRetry(views: seq<TargetView>, cands: seq<nat>, t: nat)
    requires forall i :: 0 <= i < |cands| ==> cands[i] < |views|
  {
    t in cands && t < |views| && forall i :: 0 <= i < |cands| ==> views[t].mutedUntil <= views[cands[i]].mutedUntil
  }

  class Balancer {
    const targets: seq<TargetState>
    var rrCounter: nat

    constructor (targets: seq<TargetState>)
      ensures this.targets == targets && rrCounter == 0
    {
      this.targets, rrCounter := targets, 0;
    }

    ghost predicate Valid()
      reads this
      reads set t | t in targets && t.pool != null :: t.pool
      reads set t | t in targets && t.pool != null :: t.pool.entries
      reads set t | t in targets && t.pool != null :: t.pool.inFlight
      reads set t | t in targets && t.pool != null :: t.pool.tokenSamples
    {
      rrCounter < UINT64 && DistinctNames() && PoolsValid()
    }

    ghost predicate DistinctNames() {
      forall i, j :: 0 <= i < j < |targets| ==> targets[i].info.name != targets[j].info.name
    }

    ghost predicate PoolsValid()
      reads set t | t in targets && t.pool != null :: t.pool
      reads set t | t in targets && t.pool != null :: t.pool.entries
      reads set t | t in targets && t.pool != null :: t.pool.inFlight
      reads set t | t in targets && t.pool != null :: t.pool.tokenSamples
    {
      forall t :: t in targets && t.pool != null ==> t.pool.Valid()
    }

    /** `views` is what the targets show now. */
    ghost predicate Shows(views: seq<TargetView>)
      reads targets
      reads set t | t in targets && t.pool != null :: t.pool
      reads set t | t in targets && t.pool != null :: t.pool.entries
      reads set t | t in targets && t.pool != null :: t.pool.inFlight
    {
      |views| == |targets| && forall i :: 0 <= i < |views| ==> views[i] == targets[i].View()
    }

    method Snapshots() returns (views: seq<TargetView>)
      requires Valid()
      ensures Shows(views) && WellFormedViews(views)
    {
      views := [];
      var i := 0;
      while i < |targets|
        invariant i <= |targets| && |views| == i
        invariant forall k :: 0 <= k < i ==> views[k] == targets[k].View() && views[k].keyCount > 0
      {
        var view := targets[i].Snapshot();
        views := views + [view];
        i := i + 1;
      }
    }

    /** `findAvailableTargetWithModel`. The counter moves only when there are
        candidates at all. */
    method FindAvailable(q: Query, now: Time) returns (found: Found, ghost views: seq<TargetView>)
      requires Valid()
      modifies this`rrCounter
      ensures Valid() && Shows(views) && WellFormedViews(views)
      ensures FoundOk(views, Candidates(views, q), old(rrCounter), now, found)
      ensures rrCounter == if Candidates(views, q) == [] then old(rrCounter) else (old(rrCounter) + 1) % UINT64
    {
      hide PoolsValid, DistinctNames, Shows, FoundOk, Candidates, WellFormedViews;
      var shown := Snapshots();
      views := shown;
      var any: bool;
      found, any := FindIn(shown, q, rrCounter, now);
      if any {
        rrCounter := (rrCounter + 1) % UINT64;
      }
    }
  }

  /** The choice among the views, for one value of the counter. */
  method FindIn(views: seq<TargetView>, q: Query, counter: nat, now: Time) returns (found: Found, any: bool)
    requires WellFormedViews(views) && counter < UINT64
    ensures any == (Candidates(views, q) != [])
    ensures FoundOk(views, Candidates(views, q), counter, now, found)
  {
    var cands, weights := WeighCandidates(views, q);
    if cands == [] {
      return Found(None, None), false;
    }
    var j := FindByWeight(weights, GoRemainder(counter, Total(weights)));
    if !Muted(views[cands[j]], now) {
      return Found(Some(cands[j]), None), true;
    }
    found := FirstOrEarliest(views, cands, cands[j], now);
    any := true;
  }

  /** The result is the chosen target or, with every candidate muted, the one whose
      retry comes first. */
  ghost predicate FoundOk(views: seq<TargetView>, cands: seq<nat>, counter: nat, now: Time, found: Found) {
    && (forall i :: 0 <= i < |cands| ==> cands[i] < |views|)
    && (cands != [] ==> Total(Weights(views, cands)) > 0) && counter < UINT64
    && found.candidate == ChosenTarget(views, cands, counter, now)
    && (cands == [] ==> found.earliest == None)
    && (cands != [] && found.candidate.None? ==>
          found.earliest.Some? && EarliestRetry(views, cands, found.earliest.value))
  }

  ghost predicate WellFormedViews(views: seq<TargetView>) {
    forall i :: 0 <= i < |views| ==> views[i].keyCount > 0
  }

  /** The filtering loop: candidates in order, and the weights that count. */
  method WeighCandidates(views: seq<TargetView>, q: Query) returns (cands: seq<nat>, weights: seq<nat>)
    requires WellFormedViews(views)
    ensures cands == Candidates(views, q) && weights == Weights(views, cands)
    ensures cands != [] ==> Total(weights) > 0
  {
    hide Eligible;
    cands := [];
    var keys, active: seq<nat> := [], [];
    WeightsOfNone(views);
    hide KeyWeights, ActiveWeights, Total;
    var totalKeys, totalActive := 0, 0;
    var i := 0;
    while i < |views|
      invariant i <= |views| && cands == CandidatesUpTo(views, q, i)
      invariant keys == KeyWeights(views, cands) && active == ActiveWeights(views, cands)
      invariant totalKeys == Total(keys) && totalActive == Total(active)
    {
      if Eligible(views[i].info, q) {
        WeightsAppend(views, cands, i);
        TotalAppend(keys, views[i].keyCount);
        TotalAppend(active, views[i].activeCount);
        cands := cands + [i];
        keys, active := keys + [views[i].keyCount], active + [views[i].activeCount];
        totalKeys, totalActive := totalKeys + views[i].keyCount, totalActive + views[i].activeCount;
      }
      i := i + 1;
    }
    if cands != [] {
      WeightsPositive(views, cands);
    }
    weights := if totalActive > 0 then active else keys;
  }

  lemma WeightsOfNone(views: seq<TargetView>)
    ensures KeyWeights(views, []) == [] && ActiveWeights(views, []) == [] && Total([]) == 0
  {
  }

  lemma WeightsAppend(views: seq<TargetView>, cands: seq<nat>, i: nat)
    requires i < |views| && forall k :: 0 <= k < |cands| ==> cands[k] < |views|
    ensures KeyWeights(views, cands + [i]) == KeyWeights(views, cands) + [views[i].keyCount]
    ensures ActiveWeights(views, cands + [i]) == ActiveWeights(views, cands) + [views[i].activeCount]
  {
  }

  lemma {:induction false} TotalAppend(w: seq<nat>, x: nat)
    ensures Total(w + [x]) == Total(w) + x
  {
    if w != [] {
      TotalAppend(w[1..], x);
      assert (w + [x])[1..] == w[1..] + [x];
    }
  }

  lemma PositiveIsNonEmpty(w: seq<nat>)
    ensures Total(w) > 0 ==> w != []
  {
  }

  /** The cumulative-weight loop. */
  method FindByWeight(weights: seq<nat>, keyIndex: int) returns (j: nat)
    requires weights != [] && keyIndex < Total(weights)
    ensures j < |weights| && j == Pick(weights, keyIndex)
  {
    var cumulative := 0;
    j := 0;
    while keyIndex >= cumulative + weights[j]
      invariant j < |weights| && cumulative >= 0
      invariant keyIndex - cumulative < Total(weights[j..])
      invariant Pick(weights, keyIndex) == j + Pick(weights[j..], keyIndex - cumulative)
      decreases |weights| - j
    {
      assert weights[j..][1..] == weights[j + 1..];
      PositiveIsNonEmpty(weights[j + 1..]);
      cumulative := cumulative + weights[j];
      j := j + 1;
    }
  }

  /** The fallback loop once the favourite is muted: the first unmuted candidate, or
      the muted one with the earliest retry. */
  method FirstOrEarliest(views: seq<TargetView>, cands: seq<nat>, favourite: nat, now: Time) returns (found: Found)
    requires forall i :: 0 <= i < |cands| ==> cands[i] < |views|
    requires favourite in cands && favourite < |views| && Muted(views[favourite], now)
    ensures var r := FirstUnmuted(views, cands, now, 0);
            found.candidate == if r < |cands| then Some(cands[r]) else None
    ensures found.candidate.None? ==> found.earliest.Some? && EarliestRetry(views, cands, found.earliest.value)
  {
    var muted := favourite;
    var i := 0;
    while i < |cands|
      invariant i <= |cands| && muted in cands && muted < |views|
      invariant FirstUnmuted(views, cands, now, 0) == FirstUnmuted(views, cands, now, i)
      invariant forall k :: 0 <= k < i ==> views[muted].mutedUntil <= views[cands[k]].mutedUntil
    {
      if !Muted(views[cands[i]], now) {
        return Found(Some(cands[i]), Some(muted));
      }
      if views[cands[i]].mutedUntil < views[muted].mutedUntil {
        muted := cands[i];
      }
      i := i + 1;
    }
    return Found(None, Some(muted));
  }

  // ---------------------------------------------------------------------------
  // What the choice guarantees

  /** The chosen target is eligible and unmuted; there is none exactly when every
      eligible target is muted. */
  lemma ChoiceSoundComplete(views: seq<TargetView>, q: Query, counter: nat, now: Time)
    requires WellFormedViews(views) && counter < UINT64
    ensures var cands := Candidates(views, q);
            && (cands != [] ==> Total(Weights(views, cands)) > 0)
            && var chosen := ChosenTarget(views, cands, counter, now);
               && (chosen.Some? ==> chosen.value < |views| && !Muted(views[chosen.value], now))
               && (chosen.Some? ==> Eligible(views[chosen.value].info, q))
               && (chosen.None?
                   <==> forall t :: 0 <= t < |views| && Eligible(views[t].info, q) ==> Muted(views[t], now))
  {
    var cands := Candidates(views, q);
    if cands != [] {
      PositiveTotal(KeyWeights(views, cands));
    }
    forall t | 0 <= t < |views| && Eligible(views[t].info, q)
      ensures t in cands
    {
      CandidatesUpToComplete(views, q, |views|, t);
    }
  }

  /** The counter after `steps` more calls; it wraps at 2^64. */
  function CounterAfter(a: nat, steps: nat): (c: nat)
    ensures c < UINT64
  {
    (a + steps) % UINT64
  }

  lemma NoWrap(a: nat, steps: nat)
    requires a + steps < UINT64
    ensures CounterAfter(a, steps) == a + steps
  {
  }

  lemma CounterAdds(a: nat, m: nat, k: nat)
    ensures CounterAfter(CounterAfter(a, m), k) == CounterAfter(a, m + k)
    ensures a + m == UINT64 ==> CounterAfter(a, m) == 0
  {
  }

  /** How many of `len` consecutive calls, the first at counter `a`, choose `t`. */
  function CallsChoosing(views: seq<TargetView>, cands: seq<nat>, a: nat, len: nat, now: Time, t: nat): nat
    requires forall i :: 0 <= i < |cands| ==> cands[i] < |views|
    requires cands != [] && Total(Weights(views, cands)) > 0
  {
    if len == 0 then 0
    else CallsChoosing(views, cands, a, len - 1, now, t)
         + Indicator(ChosenTarget(views, cands, CounterAfter(a, len - 1), now) == Some(t))
  }

  /** How many of `len` consecutive counter values favour candidate `j`. */
  function Favours(w: seq<nat>, a: nat, len: nat, j: nat): nat
    requires w != [] && Total(w) > 0
  {
    if len == 0 then 0 else Favours(w, a, len - 1, j) + Indicator(Favourite(w, CounterAfter(a, len - 1)) == j)
  }

  /** With nobody muted every call chooses its favourite. */
  lemma {:induction false} CallsAreFavours(views: seq<TargetView>, cands: seq<nat>, a: nat, len: nat, now: Time, j: nat)
    requires forall i :: 0 <= i < |cands| ==> cands[i] < |views| && !Muted(views[cands[i]], now)
    requires forall i, k :: 0 <= i < k < |cands| ==> cands[i] != cands[k]
    requires cands != [] && Total(Weights(views, cands)) > 0 && j < |cands|
    ensures CallsChoosing(views, cands, a, len, now, cands[j]) == Favours(Weights(views, cands), a, len, j)
    decreases len
  {
    hide Weights, CounterAfter, Favourite, FirstUnmuted;
    if len > 0 {
      CallsAreFavours(views, cands, a, len - 1, now, j);
    }
  }

  lemma {:induction false} FavoursArePicks(w: seq<nat>, a: nat, len: nat, j: nat)
    requires w != [] && Total(w) > 0 && a + len <= INT64_SIGN
    ensures Favours(w, a, len, j) == Picks(w, a, len, j)
    decreases len
  {
    hide CounterAfter, Total;
    if len > 0 {
      NoWrap(a, len - 1);
      FavoursArePicks(w, a, len - 1, j);
    }
  }

  lemma {:induction false} CandidatesDistinct(views: seq<TargetView>, q: Query, n: nat)
    requires n <= |views|
    ensures forall i, k :: 0 <= i < k < |CandidatesUpTo(views, q, n)| ==>
      CandidatesUpTo(views, q, n)[i] != CandidatesUpTo(views, q, n)[k]
  {
    if n > 0 {
      CandidatesDistinct(views, q, n - 1);
    }
  }

  /** Exact weighted share: with nobody muted, weights unchanged and no wrap of the
      counter into the sign bit, any round of calls as long as the total weight chooses
      each candidate exactly its weight times, whatever value the counter starts at. */
  lemma TargetShare(views: seq<TargetView>, q: Query, a: nat, now: Time, j: nat)
    requires WellFormedViews(views)
    requires forall i :: 0 <= i < |views| ==> !Muted(views[i], now)
    requires var cands := Candidates(views, q);
             j < |cands| && a + Total(Weights(views, cands)) <= INT64_SIGN
    ensures var cands := Candidates(views, q);
            var w := Weights(views, cands);
            Total(w) > 0 && CallsChoosing(views, cands, a, Total(w), now, cands[j]) == w[j]
  {
    var cands := Candidates(views, q);
    PositiveTotal(KeyWeights(views, cands));
    CandidatesDistinct(views, q, |views|);
    CallsAreFavours(views, cands, a, Total(Weights(views, cands)), now, j);
    FavoursArePicks(Weights(views, cands), a, Total(Weights(views, cands)), j);
    ExactShare(Weights(views, cands), a, j);
  }

  /** What a candidate weighs: its active keys as long as any candidate has one, otherwise its
      configured keys. */
  lemma WeightMeans(views: seq<TargetView>, cands: seq<nat>, j: nat)
    requires (forall k :: 0 <= k < |cands| ==> cands[k] < |views|) && j < |cands|
    ensures Weights(views, cands)[j]
         == if exists k :: 0 <= k < |cands| && views[cands[k]].activeCount > 0 then views[cands[j]].activeCount
            else views[cands[j]].keyCount
  {
    var w := ActiveWeights(views, cands);
    if k :| 0 <= k < |cands| && views[cands[k]].activeCount > 0 {
      TotalAtLeast(w, k);
    } else {
      ZeroTotal(w);
    }
  }

  lemma {:induction false} ZeroTotal(w: seq<nat>)
    requires forall k :: 0 <= k < |w| ==> w[k] == 0
    ensures Total(w) == 0
  {
    if w != [] {
      ZeroTotal(w[1..]);
    }
  }

  lemma {:induction false} CandidatesInOrder(views: seq<TargetView>, q: Query, n: nat)
    requires n <= |views|
    ensures forall i, k :: 0 <= i < k < |CandidatesUpTo(views, q, n)| ==>
      CandidatesUpTo(views, q, n)[i] < CandidatesUpTo(views, q, n)[k]
  {
    if n > 0 {
      CandidatesInOrder(views, q, n - 1);
    }
  }

  /** The chosen target is the favourite or, if that is muted, the first eligible target that
      is not. */
  lemma FallbackIsFirst(views: seq<TargetView>, q: Query, counter: nat, now: Time)
    requires WellFormedViews(views) && counter < UINT64 && Candidates(views, q) != []
    ensures var cands := Candidates(views, q);
            && Total(Weights(views, cands)) > 0
            && var favourite := cands[Favourite(Weights(views, cands), counter)];
               var chosen := ChosenTarget(views, cands, counter, now);
               if !Muted(views[favourite], now) then chosen == Some(favourite)
               else forall t: nat :: chosen == Some(t) ==>
                 forall e: nat :: e < t && Eligible(views[e].info, q) ==> Muted(views[e], now)
  {
    hide Weights, Favourite, Eligible;
    var cands := Candidates(views, q);
    WeightsPositive(views, cands);
    CandidatesInOrder(views, q, |views|);
    var r := FirstUnmuted(views, cands, now, 0);
    if r < |cands| {
      forall e: nat | e < cands[r] && Eligible(views[e].info, q)
        ensures Muted(views[e], now)
      {
        CandidatesUpToComplete(views, q, |views|, e);
        var k :| 0 <= k < |cands| && cands[k] == e;
      }
    }
  }

  /** A target without live keys is not chosen while another candidate has some and
      nobody is muted. */
  lemma DeadTargetNotChosen(views: seq<TargetView>, q: Query, counter: nat, now: Time, other: nat)
    requires WellFormedViews(views) && counter < INT64_SIGN
    requires forall i :: 0 <= i < |views| ==> !Muted(views[i], now)
    requires other < |views| && Eligible(views[other].info, q) && views[other].activeCount > 0
    ensures var cands := Candidates(views, q);
            && cands != [] && Total(Weights(views, cands)) > 0
            && var chosen := ChosenTarget(views, cands, counter, now);
               chosen.Some? && views[chosen.value].activeCount > 0
  {
    var cands := Candidates(views, q);
    CandidatesUpToComplete(views, q, |views|, other);
    var k :| 0 <= k < |cands| && cands[k] == other;
    var w := ActiveWeights(views, cands);
    TotalAtLeast(w, k);
    ZeroWeightNeverPicked(w, counter % Total(w));
  }

  lemma {:induction false} TotalAtLeast(w: seq<nat>, k: nat)
    requires k < |w|
    ensures Total(w) >= w[k]
  {
    if k > 0 {
      TotalAtLeast(w[1..], k - 1);
    }
  }

  // ---------------------------------------------------------------------------
  // Past 2^63 calls

  /** Past 2^63 calls the signed index is negative unless it is zero, and picks the first
      candidate whatever the weights. */
  lemma SignWrapPicksFirst(w: seq<nat>, counter: nat)
    requires w != [] && Total(w) > 0 && INT64_SIGN <= counter < UINT64
    ensures (UINT64 - counter) % Total(w) != 0 ==> Favourite(w, counter) == 0
    ensures (UINT64 - counter) % Total(w) == 0 ==> Favourite(w, counter) == Pick(w, 0)
  {
  }

  /** Of `n` consecutive values counted down from `m` one is a multiple of `n`. */
  lemma MultipleInRound(m: nat, i: nat, n: nat)
    requires i < n && i <= m
    ensures (m - i) % n == 0 <==> i == m % n
  {
    var q, r := m / n, m % n;
    assert m == q * n + r;
    if i <= r {
      Modular.ModOfMultiplePlus(m - i, q, n, r - i);
    } else {
      Modular.Distribute(q - 1, 1, n);
      Modular.ModOfMultiplePlus(m - i, q - 1, n, r - i + n);
    }
  }

  /** The turns of candidate `j` in `len` calls past 2^63: all go to the first candidate,
      except one, if it is among them, that goes to the first candidate with any weight. */
  function NegativeTurns(w: seq<nat>, a: nat, len: nat, j: nat): nat
    requires w != [] && Total(w) > 0 && a + len <= UINT64
  {
    if (UINT64 - a) % Total(w) >= len then (if j == 0 then len else 0)
    else (if j == 0 then len - 1 else 0) + Indicator(Pick(w, 0) == j)
  }

  lemma {:induction false} FavoursPastSign(w: seq<nat>, a: nat, len: nat, j: nat)
    requires w != [] && Total(w) > 0 && INT64_SIGN <= a && a + len <= UINT64 && len <= Total(w)
    ensures Favours(w, a, len, j) == NegativeTurns(w, a, len, j)
    decreases len
  {
    hide CounterAfter, Total, Favourite;
    if len > 0 {
      NoWrap(a, len - 1);
      FavoursPastSign(w, a, len - 1, j);
      MultipleInRound(UINT64 - a, len - 1, Total(w));
      SignWrapPicksFirst(w, a + len - 1);
    }
  }

  /** A stretch of calls in two parts. */
  lemma {:induction false} FavoursSplit(w: seq<nat>, a: nat, m: nat, k: nat, j: nat)
    requires w != [] && Total(w) > 0
    ensures Favours(w, a, m + k, j) == Favours(w, a, m, j) + Favours(w, CounterAfter(a, m), k, j)
    decreases k
  {
    hide Favourite, CounterAfter;
    if k > 0 {
      FavoursSplit(w, a, m, k - 1, j);
      CounterAdds(a, m, k - 1);
      assert Favours(w, a, m + k, j)
          == Favours(w, a, m + (k - 1), j) + Indicator(Favourite(w, CounterAfter(a, m + (k - 1))) == j);
    }
  }

  /** The turns of candidate `j` in the round of calls that starts at counter `a`: its
      weight below 2^63, `NegativeTurns` above, and in a round that crosses 2^63 or 2^64
      the picks of the part below it and the turns of the part above. */
  function ShareOfRound(w: seq<nat>, a: nat, j: nat): nat
    requires j < |w| && 0 < Total(w) <= INT64_SIGN && a < UINT64
  {
    var n := Total(w);
    if a + n <= INT64_SIGN then w[j]
    else if a < INT64_SIGN then Picks(w, a, INT64_SIGN - a, j) + NegativeTurns(w, INT64_SIGN, a + n - INT64_SIGN, j)
    else if a + n <= UINT64 then NegativeTurns(w, a, n, j)
    else NegativeTurns(w, a, UINT64 - a, j) + Picks(w, 0, a + n - UINT64, j)
  }

  lemma RoundFavours(w: seq<nat>, a: nat, j: nat)
    requires j < |w| && 0 < Total(w) <= INT64_SIGN && a < UINT64
    ensures Favours(w, a, Total(w), j) == ShareOfRound(w, a, j)
  {
    hide Favours, Picks, NegativeTurns, CounterAfter;
    var n := Total(w);
    if a + n <= INT64_SIGN {
      FavoursArePicks(w, a, n, j);
      ExactShare(w, a, j);
    } else if a < INT64_SIGN {
      var m := INT64_SIGN - a;
      FavoursSplit(w, a, m, n - m, j);
      NoWrap(a, m);
      FavoursArePicks(w, a, m, j);
      FavoursPastSign(w, INT64_SIGN, n - m, j);
    } else if a + n <= UINT64 {
      FavoursPastSign(w, a, n, j);
    } else {
      var m := UINT64 - a;
      FavoursSplit(w, a, m, n - m, j);
      CounterAdds(a, m, 0);
      FavoursPastSign(w, a, m, j);
      FavoursArePicks(w, 0, n - m, j);
    }
  }

  /** The share of every round, wherever it starts, with nobody muted and weights
      unchanged. */
  lemma RoundShare(views: seq<TargetView>, q: Query, a: nat, now: Time, j: nat)
    requires WellFormedViews(views) && a < UINT64
    requires forall i :: 0 <= i < |views| ==> !Muted(views[i], now)
    requires var cands := Candidates(views, q);
             j < |cands| && Total(Weights(views, cands)) <= INT64_SIGN
    ensures var cands := Candidates(views, q);
            var w := Weights(views, cands);
            Total(w) > 0 && CallsChoosing(views, cands, a, Total(w), now, cands[j]) == ShareOfRound(w, a, j)
  {
    hide Weights, Favours, CallsChoosing, ShareOfRound;
    var cands := Candidates(views, q);
    WeightsPositive(views, cands);
    CandidatesDistinct(views, q, |views|);
    CallsAreFavours(views, cands, a, Total(Weights(views, cands)), now, j);
    RoundFavours(Weights(views, cands), a, j);
  }

  /** The share of a whole round past 2^63 calls: all turns but one go to the first
      candidate, and that one to the first candidate with any weight. */
  lemma ShareOfNegativeRound(w: seq<nat>, a: nat, j: nat)
    requires w != [] && Total(w) > 0 && INT64_SIGN <= a && a + Total(w) <= UINT64
    ensures Favours(w, a, Total(w), j) == (if j == 0 then Total(w) - 1 else 0) + Indicator(Pick(w, 0) == j)
  {
    FavoursPastSign(w, a, Total(w), j);
  }

  lemma {:induction false} OnlyOneWeighs(w: seq<nat>, k: nat, j: nat)
    requires k < |w| && j < |w| && j != k && w[k] == Total(w)
    ensures w[j] == 0
    decreases |w|
  {
    if k == 0 {
      ZeroTail(w[1..], j - 1);
    } else {
      TotalAtLeast(w[1..], k - 1);
      if j > 0 {
        OnlyOneWeighs(w[1..], k - 1, j - 1);
      }
    }
  }

  lemma NegativeShareIff(w: seq<nat>, a: nat)
    requires w != [] && Total(w) > 0 && INT64_SIGN <= a && a + Total(w) <= UINT64
    ensures (forall j :: 0 <= j < |w| ==> Favours(w, a, Total(w), j) == w[j]) <==> w[0] == Total(w) || Total(w) == 1
  {
    var p := Pick(w, 0);
    ZeroWeightNeverPicked(w, 0);
    TotalAtLeast(w, p);
    ShareOfNegativeRound(w, a, 0);
    if w[0] == Total(w) || Total(w) == 1 {
      forall j | 0 <= j < |w|
        ensures Favours(w, a, Total(w), j) == w[j]
      {
        ShareOfNegativeRound(w, a, j);
        if j != p {
          OnlyOneWeighs(w, p, j);
        }
      }
    }
  }

  /** So the exact share holds past 2^63 calls if and only if the first candidate has all
      the weight, or the total weight is one. */
  lemma TargetShareIff(views: seq<TargetView>, q: Query, a: nat, now: Time)
    requires WellFormedViews(views) && Candidates(views, q) != []
    requires forall i :: 0 <= i < |views| ==> !Muted(views[i], now)
    requires INT64_SIGN <= a && a + Total(Weights(views, Candidates(views, q))) <= UINT64
    ensures var cands := Candidates(views, q);
            var w := Weights(views, cands);
            && Total(w) > 0
            && ((forall j :: 0 <= j < |cands| ==> CallsChoosing(views, cands, a, Total(w), now, cands[j]) == w[j])
                <==> w[0] == Total(w) || Total(w) == 1)
  {
    hide Weights, Favours, CallsChoosing;
    var cands := Candidates(views, q);
    WeightsPositive(views, cands);
    CandidatesDistinct(views, q, |views|);
    var w := Weights(views, cands);
    forall j | 0 <= j < |cands|
      ensures CallsChoosing(views, cands, a, Total(w), now, cands[j]) == Favours(w, a, Total(w), j)
    {
      CallsAreFavours(views, cands, a, Total(w), now, j);
    }
    NegativeShareIff(w, a);
  }

  lemma WeightsPositive(views: seq<TargetView>, cands: seq<nat>)
    requires WellFormedViews(views) && cands != [] && forall k :: 0 <= k < |cands| ==> cands[k] < |views|
    ensures Total(Weights(views, cands)) > 0
  {
    PositiveTotal(KeyWeights(views, cands));
  }
}
