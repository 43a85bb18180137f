/** One request across targets: selection, failover after retryable failures, and the
    success and failure counters. What happens inside one target is an arbitrary
    outcome per attempt. */
module Failover {
  import opened Wrappers
  import opened Clock
  import ModelIndex
  import opened Targets
  import WeightedShare

  datatype SelectionKind = Explicit | AffinityHit | RoundRobin | Failover

  datatype Selection = Selected(target: nat, kind: SelectionKind) | SelectionError(status: nat)

  /** Eligible for the query and not muted now. */
  ghost predicate Usable(b: Balancer, q: Query, now: Time, t: nat)
    requires t < |b.targets|
    reads b.targets
  {
    Eligible(b.targets[t].info, q) && !b.targets[t].IsMuted(now)
  }

  /** The second model check never refuses a usable target. */
  lemma UsableEnsured(b: Balancer, q: Query, now: Time, t: nat)
    requires t < |b.targets| && Usable(b, q, now, t)
    ensures ModelIndex.EnsureModelAllowed(b.targets[t].info.models, q.model).Some?
  {
    ModelIndex.EligibleModelEnsured(b.targets[t].info.models, q.model);
  }

  /** With an explicit target only that one will do. */
  predicate Wanted(info: TargetInfo, requested: string) { requested == "" || info.name == requested }

  ghost predicate NothingUsable(b: Balancer, requested: string, q: Query, now: Time)
    reads b.targets
  {
    forall t: nat :: t < |b.targets| && Wanted(b.targets[t].info, requested) ==> !Usable(b, q, now, t)
  }

  method TargetByName(b: Balancer, name: string) returns (t: nat)
    ensures t <= |b.targets| && (t < |b.targets| ==> b.targets[t].info.name == name)
    ensures forall i :: 0 <= i < t ==> b.targets[i].info.name != name
  {
    t := 0;
    while t < |b.targets| && b.targets[t].info.name != name
      invariant t <= |b.targets|
      invariant forall i :: 0 <= i < t ==> b.targets[i].info.name != name
    {
      t := t + 1;
    }
  }

  /** What becomes of an explicit choice of a target the caller may use. */
  ghost function ExplicitAnswer(t: nat, info: TargetInfo, mutedUntil: Time, q: Query, now: Time): Selection {
    if !TakesModel(info.models, q.model) then SelectionError(400)
    else if info.paused then SelectionError(503)
    else if !info.supportsPath(q.path) then SelectionError(400)
    else if info.name in q.attempted || mutedUntil > now then SelectionError(503)
    else Selected(t, Explicit)
  }

  /** The answer to an explicit choice: 403 for a target the caller may not use, 400 for a name
      no target has, otherwise what that target says. */
  ghost predicate ExplicitChoice(b: Balancer, requested: string, q: Query, now: Time, sel: Selection)
    reads b.targets
  {
    if q.allowed.Some? && requested !in q.allowed.value then sel == SelectionError(403)
    else
      && ((forall t: nat :: t < |b.targets| ==> b.targets[t].info.name != requested) ==> sel == SelectionError(400))
      && (forall t: nat :: t < |b.targets| && b.targets[t].info.name == requested ==>
            sel == ExplicitAnswer(t, b.targets[t].info, b.targets[t].mutedUntil, q, now))
  }

  /** The status when no target could be chosen: 503 if eligible ones are muted, 502 when some
      were tried, 400 for a model that none takes. */
  ghost predicate NoTargetStatus(b: Balancer, q: Query, status: nat) {
    status == if AnyEligible(b, q) then 503 else if q.attempted != {} then 502 else if q.model != "" then 400 else 502
  }

  /** The explicit branch, with a status for each reason to refuse. */
  method SelectExplicit(b: Balancer, requested: string, q: Query, now: Time) returns (sel: Selection)
    requires b.Valid() && requested != ""
    ensures sel.Selected? ==> sel.target < |b.targets| && b.targets[sel.target].info.name == requested
    ensures sel.Selected? ==> sel.kind == Explicit && Usable(b, q, now, sel.target)
    ensures sel.SelectionError? ==> NothingUsable(b, requested, q, now)
    ensures ExplicitChoice(b, requested, q, now, sel)
  {
    if !Permitted(requested, q.allowed) {
      return SelectionError(403);
    }
    var t := TargetByName(b, requested);
    if t == |b.targets| {
      return SelectionError(400);
    }
    var info := b.targets[t].info;
    assert forall i :: 0 <= i < |b.targets| && b.targets[i].info.name == requested ==> i == t;
    EligibleMeans(info, q);
    hide TakesModel, ModelIndex.ModelAllowed;
    if !ModelIndex.ModelAllowed(info.models, q.model) {
      return SelectionError(400);
    }
    if info.paused {
      return SelectionError(503);
    }
    if !info.supportsPath(q.path) {
      return SelectionError(400);
    }
    if info.name in q.attempted || b.targets[t].IsMuted(now) {
      return SelectionError(503);
    }
    return Selected(t, Explicit);
  }

  lemma ViewsMute(b: Balancer, views: seq<TargetView>, q: Query, now: Time, counter: nat)
    requires b.Shows(views) && WellFormedViews(views) && counter < UINT64
    ensures var cands := Candidates(views, q);
            && (cands != [] ==> WeightedShare.Total(Weights(views, cands)) > 0) && (cands != [] <==> AnyEligible(b, q))
            && var chosen := ChosenTarget(views, cands, counter, now);
               && (chosen.Some? ==> chosen.value < |b.targets| && Usable(b, q, now, chosen.value))
               && (chosen.None? ==> NothingUsable(b, "", q, now))
  {
    hide Candidates, ChosenTarget, Eligible, Weights, WellFormedViews, AnyEligible, Balancer.Shows;
    ChoiceSoundComplete(views, q, counter, now);
    SomeCandidate(b, views, q);
    forall t: nat | t < |views|
      ensures t < |b.targets| && views[t].info == b.targets[t].info
      ensures Muted(views[t], now) <==> b.targets[t].IsMuted(now)
    {
      ShownTarget(b, views, t, now);
    }
    assert |views| == |b.targets| by { AsManyShown(b, views); }
  }

  lemma AsManyShown(b: Balancer, views: seq<TargetView>)
    requires b.Shows(views)
    ensures |views| == |b.targets|
  {
  }

  lemma ShownTarget(b: Balancer, views: seq<TargetView>, t: nat, now: Time)
    requires b.Shows(views) && t < |views|
    ensures t < |b.targets| && views[t].info == b.targets[t].info
    ensures Muted(views[t], now) <==> b.targets[t].IsMuted(now)
  {
  }

  lemma SomeCandidate(b: Balancer, views: seq<TargetView>, q: Query)
    requires b.Shows(views)
    ensures Candidates(views, q) != [] <==> AnyEligible(b, q)
  {
    hide Eligible;
    var cands := Candidates(views, q);
    if cands != [] {
      assert Eligible(b.targets[cands[0]].info, q);
    }
    if t: nat :| t < |b.targets| && Eligible(b.targets[t].info, q) {
      CandidatesUpToComplete(views, q, |views|, t);
    }
  }

  /** The target of that name if it is usable. */
  method StickyTarget(b: Balancer, name: string, q: Query, now: Time) returns (hit: Option<nat>)
    requires b.Valid() && q.attempted == {}
    ensures hit.Some? ==> hit.value < |b.targets| && b.targets[hit.value].info.name == name
    ensures hit.Some? ==> Usable(b, q, now, hit.value)
    ensures forall t: nat :: t < |b.targets| && b.targets[t].info.name == name && Usable(b, q, now, t) ==>
      hit == Some(t)
  {
    hide Serves;
    var t := TargetByName(b, name);
    assert forall i :: 0 <= i < |b.targets| && b.targets[i].info.name == name ==> i == t;
    if t < |b.targets| && Permitted(name, q.allowed) && Serves(b.targets[t].info, q) && !b.targets[t].IsMuted(now) {
      return Some(t);
    }
    return None;
  }

  ghost predicate AnyEligible(b: Balancer, q: Query) {
    exists t: nat :: t < |b.targets| && Eligible(b.targets[t].info, q)
  }

  /** The weighted choice, with the status of each way to find nothing. */
  method SelectByTurn(b: Balancer, q: Query, hadAffinity: bool, now: Time) returns (sel: Selection)
    requires b.Valid()
    modifies b`rrCounter
    ensures b.Valid()
    ensures sel.Selected? ==> sel.target < |b.targets| && Usable(b, q, now, sel.target)
    ensures sel.Selected? ==> sel.kind == if hadAffinity then Failover else RoundRobin
    ensures sel.SelectionError? ==> NothingUsable(b, "", q, now)
    ensures sel.SelectionError? ==> NoTargetStatus(b, q, sel.status)
  {
    hide ChosenTarget, Candidates, Usable, NothingUsable, AnyEligible, Balancer.Shows, Weights, WellFormedViews;
    ghost var counter := b.rrCounter;
    var found, views := b.FindAvailable(q, now);
    ViewsMute(b, views, q, now, counter);
    if found.candidate.Some? {
      return Selected(found.candidate.value, if hadAffinity then Failover else RoundRobin);
    }
    if found.earliest.Some? {
      return SelectionError(503);
    }
    if q.attempted != {} {
      return SelectionError(502);
    }
    return SelectionError(if q.model != "" then 400 else 502);
  }

  /** `selectTarget`. The sticky target is only tried on a request's first attempt. */
  method SelectTarget(b: Balancer, requested: string, q: Query, sticky: Option<string>, now: Time)
    returns (sel: Selection)
    requires b.Valid()
    modifies b`rrCounter
    ensures b.Valid()
    ensures sel.Selected? ==> sel.target < |b.targets| && Usable(b, q, now, sel.target)
    ensures sel.Selected? ==> Wanted(b.targets[sel.target].info, requested)
    ensures sel.Selected? && requested != "" ==> sel.kind == Explicit
    ensures sel.SelectionError? ==> NothingUsable(b, requested, q, now)
    ensures requested == "" && sticky.Some? && q.attempted == {} ==>
      forall t: nat :: t < |b.targets| && b.targets[t].info.name == sticky.value && Usable(b, q, now, t) ==>
        sel == Selected(t, AffinityHit)
    ensures requested == "" && sel.Selected? && sel.kind != AffinityHit ==>
      sel.kind == if sticky.Some? && q.attempted == {} then Failover else RoundRobin
    ensures requested == "" && sel.Selected? && sel.kind == AffinityHit ==>
      sticky == Some(b.targets[sel.target].info.name) && q.attempted == {}
    ensures requested != "" ==> ExplicitChoice(b, requested, q, now, sel)
    ensures requested == "" && sel.SelectionError? ==> NoTargetStatus(b, q, sel.status)
  {
    if requested != "" {
      sel := SelectExplicit(b, requested, q, now);
      return;
    }
    hide Usable, NothingUsable, NoTargetStatus, Balancer.Valid;
    var hadAffinity := sticky.Some? && q.attempted == {};
    if hadAffinity {
      var hit := StickyTarget(b, sticky.value, q, now);
      if hit.Some? {
        assert b.targets[hit.value].info.name == sticky.value;
        return Selected(hit.value, AffinityHit);
      }
    }
    sel := SelectByTurn(b, q, hadAffinity, now);
  }

  // ---------------------------------------------------------------------------
  // ServeHTTP

  /** A request up to the target loop: the caller, if authenticated, with the targets
      it may use, and what the checks ahead of the loop read off it. */
  datatype Request = Request(
    caller: Option<Option<set<string>>>,
    bodyReadable: bool,
    localList: bool,
    quotaExceeded: bool,
    requested: string,
    model: string,
    path: string)

  /** What forwarding to one target, with all its key retries, comes to. */
  datatype ForwardOutcome = Responded(status: nat) | Retryable(status: nat) | Fatal(status: nat)

  /** How a request is answered. */
  datatype Served =
    | LocalList
    | Upstream(target: nat, status: nat)
    | Refused(status: nat)
    | OutOfTargets(status: nat)

  /** The answer an outcome of the last target amounts to. */
  function AnswerTo(outcome: ForwardOutcome, target: nat): Served {
    if outcome.Responded? then Upstream(target, outcome.status) else Refused(outcome.status)
  }

  predicate IsUpstreamFailureStatus(status: nat) { status >= 500 || status == 408 || status == 429 }

  predicate IsSuccess(served: Served) {
    served.LocalList? || (served.Upstream? && !IsUpstreamFailureStatus(served.status))
  }

  /** One forward: the target, and its muting when it was chosen. */
  datatype Hop = Hop(target: nat, at: Time, mutedUntil: Time)

  function TargetName(b: Balancer, t: nat): string {
    if t < |b.targets| then b.targets[t].info.name else ""
  }

  function AttemptedNames(b: Balancer, hops: seq<Hop>): set<string> {
    if hops == [] then {}
    else AttemptedNames(b, hops[..|hops| - 1]) + {TargetName(b, hops[|hops| - 1].target)}
  }

  function QueryOf(r: Request, attempted: set<string>): Query
    requires r.caller.Some?
  {
    Query(r.caller.value, attempted, r.model, r.path)
  }

  ghost predicate FairHop(b: Balancer, r: Request, hop: Hop) {
    && hop.target < |b.targets| && hop.mutedUntil <= hop.at
    && r.caller.Some? && Permitted(b.targets[hop.target].info.name, r.caller.value)
    && Serves(b.targets[hop.target].info, QueryOf(r, {})) && Wanted(b.targets[hop.target].info, r.requested)
  }

  /** Every forward went to a target that may serve the request, was unmuted when
      chosen and had not been tried before. */
  ghost predicate FairHops(b: Balancer, r: Request, hops: seq<Hop>) {
    && (forall k :: 0 <= k < |hops| ==> FairHop(b, r, hops[k]))
    && (forall i, k :: 0 <= i < k < |hops| ==> hops[i].target != hops[k].target)
  }

  /** How the forwards of a request decide it: all but the last are retryable failures, and the
      last one's outcome is the answer, unless it too sends the request on. */
  ghost predicate TookCourse(hops: seq<Hop>, outcomes: nat -> ForwardOutcome, explicit: bool, served: Served) {
    && (forall k: nat :: k < |hops| - 1 ==> outcomes(k).Retryable? && !explicit)
    && if hops == [] then served.OutOfTargets?
       else
         match outcomes(|hops| - 1)
         case Responded(status) => served == Upstream(hops[|hops| - 1].target, status)
         case Fatal(status) => served == Refused(status)
         case Retryable(status) => if explicit then served == Refused(status) else served.OutOfTargets?
  }

  /** The forwards so far were retryable failures, and nobody asked for one target. */
  ghost predicate SentOn(hops: seq<Hop>, outcomes: nat -> ForwardOutcome, explicit: bool) {
    (hops != [] ==> !explicit) && forall k: nat :: k < |hops| ==> outcomes(k).Retryable?
  }

  lemma CourseEnds(hops: seq<Hop>, hop: Hop, outcomes: nat -> ForwardOutcome, explicit: bool)
    requires SentOn(hops, outcomes, explicit)
    ensures var last := outcomes(|hops|);
            if last.Retryable? && !explicit then SentOn(hops + [hop], outcomes, explicit)
            else TookCourse(hops + [hop], outcomes, explicit, AnswerTo(last, hop.target))
  {
  }

  lemma NothingSent(outcomes: nat -> ForwardOutcome, explicit: bool)
    ensures SentOn([], outcomes, explicit)
  {
  }

  lemma CourseWithoutTarget(hops: seq<Hop>, outcomes: nat -> ForwardOutcome, explicit: bool, status: nat)
    requires SentOn(hops, outcomes, explicit)
    ensures TookCourse(hops, outcomes, explicit, OutOfTargets(status))
  {
  }

  /** No target is left for the request, and the status says why. */
  ghost predicate NoneLeft(b: Balancer, r: Request, hops: seq<Hop>, now: Time, status: nat)
    requires r.caller.Some?
    reads b.targets
  {
    var q := QueryOf(r, AttemptedNames(b, hops));
    && NothingUsable(b, r.requested, q, now)
    && (r.requested == "" ==> NoTargetStatus(b, q, status))
    && (r.requested != "" ==> ExplicitChoice(b, r.requested, q, now, SelectionError(status)))
  }

  /** What a forward leaves at its target: muted for the quiet period after a failure of the
      upstream, unmuted after a success. */
  ghost predicate HopMark(t: TargetState, outcome: ForwardOutcome, at: Time, quietPeriod: int)
    reads t
  {
    match outcome
    case Responded(status) =>
      t.mutedUntil == if status >= 500 || status == 408 || status == 429 then at + Quiet(quietPeriod) else ZERO_TIME
    case Retryable(_) => t.mutedUntil == at + Quiet(quietPeriod)
    case Fatal(_) => true
  }

  function Quiet(quietPeriod: int): int { if quietPeriod <= 0 then 60 * SECOND else quietPeriod }

  ghost predicate Marked(b: Balancer, hops: seq<Hop>, outcomes: nat -> ForwardOutcome, ends: nat -> Time,
                         quietPeriod: int)
    reads b.targets
  {
    forall k: nat :: k < |hops| ==>
      hops[k].target < |b.targets| && HopMark(b.targets[hops[k].target], outcomes(k), ends(k), quietPeriod)
  }

  ghost predicate NotTried(b: Balancer, hops: seq<Hop>, t: TargetState) {
    forall k: nat :: k < |hops| && hops[k].target < |b.targets| ==> b.targets[hops[k].target] != t
  }

  lemma NothingMarked(b: Balancer, outcomes: nat -> ForwardOutcome, ends: nat -> Time, quietPeriod: int)
    ensures Marked(b, [], outcomes, ends, quietPeriod)
  {
  }

  /** The targets of the earlier forwards are others. */
  lemma HopsApart(b: Balancer, r: Request, hops: seq<Hop>, hop: Hop)
    requires b.DistinctNames() && FairHops(b, r, hops + [hop])
    ensures hop.target < |b.targets|
    ensures forall k: nat :: k < |hops| ==>
      hops[k].target < |b.targets| && b.targets[hops[k].target] != b.targets[hop.target]
  {
    hide FairHop;
    var all := hops + [hop];
    assert all[|hops|] == hop && FairHop(b, r, all[|hops|]);
    InTargets(b, r, hop);
    forall k: nat | k < |hops|
      ensures hops[k].target < |b.targets| && b.targets[hops[k].target] != b.targets[hop.target]
    {
      assert all[k] == hops[k] && FairHop(b, r, all[k]);
      InTargets(b, r, hops[k]);
      assert b.targets[hops[k].target].info.name != b.targets[hop.target].info.name;
    }
  }

  lemma TriedGrows(b: Balancer, hops: seq<Hop>, hop: Hop)
    requires hop.target < |b.targets|
    ensures forall t :: NotTried(b, hops + [hop], t) <==> NotTried(b, hops, t) && t != b.targets[hop.target]
  {
    var all := hops + [hop];
    assert all[|hops|] == hop && forall k: nat :: k < |hops| ==> all[k] == hops[k];
  }

  lemma InTargets(b: Balancer, r: Request, hop: Hop)
    requires FairHop(b, r, hop)
    ensures hop.target < |b.targets|
  {
  }

  class Service {
    const balancer: Balancer
    const quietPeriod: int
    var totalRequests: nat
    var totalSuccess: nat
    var totalFailures: nat
    var totalTargetRetries: nat
    var activeRequests: int

    constructor (balancer: Balancer, quietPeriod: int)
      ensures this.balancer == balancer && this.quietPeriod == quietPeriod
      ensures totalRequests == totalSuccess == totalFailures == 0 && activeRequests == 0
    {
      this.balancer, this.quietPeriod := balancer, quietPeriod;
      totalRequests, totalSuccess, totalFailures, totalTargetRetries, activeRequests := 0, 0, 0, 0, 0;
    }

    method AnyTargetRequiresModel() returns (required: bool)
      ensures required <==> NeedsModel()
    {
      var i := 0;
      while i < |balancer.targets|
        invariant i <= |balancer.targets|
        invariant forall k :: 0 <= k < i ==> balancer.targets[k].info.models == map[]
      {
        if |balancer.targets[i].info.models| > 0 {
          return true;
        }
        i := i + 1;
      }
      return false;
    }

    /** An authenticated request to a gateway with targets. */
    ghost predicate Known(r: Request) { r.caller.Some? && balancer.targets != [] }

    /** Such a request with a readable body that is for the upstream. */
    ghost predicate Readable(r: Request) { Known(r) && r.bodyReadable && !r.localList }

    /** Some target has model mappings. */
    ghost predicate NeedsModel() { exists t :: t in balancer.targets && t.info.models != map[] }

    /** The checks ahead of the target loop; None lets the request through. */
    method Admit(r: Request) returns (answer: Option<Served>)
      modifies this`totalSuccess, this`totalFailures
      ensures answer.None? ==>
        r.caller.Some? && totalSuccess == old(totalSuccess) && totalFailures == old(totalFailures)
      ensures answer.Some? ==> answer.value.LocalList? || answer.value.Refused?
      ensures answer.Some? ==> OneMore(old(totalSuccess), old(totalFailures), totalSuccess, totalFailures, answer.value)
      ensures r.caller.None? ==> answer == Some(Refused(401))
      ensures r.caller.Some? && balancer.targets == [] ==> answer == Some(Refused(503))
      ensures Known(r) && !r.bodyReadable ==> answer == Some(Refused(400))
      ensures Known(r) && r.bodyReadable && r.localList ==> answer == Some(LocalList)
      ensures Readable(r) && r.model == "" && NeedsModel() ==> answer == Some(Refused(400))
      ensures Readable(r) && !(r.model == "" && NeedsModel()) && r.quotaExceeded ==> answer == Some(Refused(429))
      ensures Readable(r) && !(r.model == "" && NeedsModel()) && !r.quotaExceeded ==> answer == None
    {
      if r.caller.None? {
        totalFailures := totalFailures + 1;
        return Some(Refused(401));
      }
      if |balancer.targets| == 0 {
        totalFailures := totalFailures + 1;
        return Some(Refused(503));
      }
      if !r.bodyReadable {
        totalFailures := totalFailures + 1;
        return Some(Refused(400));
      }
      if r.localList {
        totalSuccess := totalSuccess + 1;
        return Some(LocalList);
      }
      if r.model == "" {
        var required := AnyTargetRequiresModel();
        if required {
          totalFailures := totalFailures + 1;
          return Some(Refused(400));
        }
      }
      if r.quotaExceeded {
        totalFailures := totalFailures + 1;
        return Some(Refused(429));
      }
      return None;
    }

    /** What the outcome of a forward does to its target and to the counters; None sends
        the request on to another target. */
    method Settle(t: TargetState, target: nat, outcome: ForwardOutcome, at: Time, explicit: bool)
      returns (answer: Option<Served>)
      modifies this`totalSuccess, this`totalFailures, this`totalTargetRetries, t
      ensures answer.None? <==> outcome.Retryable? && !explicit
      ensures answer.None? ==> totalSuccess == old(totalSuccess) && totalFailures == old(totalFailures)
      ensures answer.Some? ==> OneMore(old(totalSuccess), old(totalFailures), totalSuccess, totalFailures, answer.value)
      ensures answer.Some? ==> answer.value == AnswerTo(outcome, target)
      ensures totalTargetRetries == old(totalTargetRetries) + if answer.None? then 1 else 0
      ensures outcome.Fatal? ==> unchanged(t)
      ensures HopMark(t, outcome, at, quietPeriod)
      ensures outcome.Retryable? || (outcome.Responded? && IsUpstreamFailureStatus(outcome.status)) ==>
        t.IsMuted(at) && t.consecutiveFailure == old(t.consecutiveFailure) + 1
      ensures outcome.Responded? && !IsUpstreamFailureStatus(outcome.status) ==> t.consecutiveFailure == 0
    {
      match outcome
      case Responded(status) =>
        if IsUpstreamFailureStatus(status) {
          t.MarkFailure(at, quietPeriod);
          totalFailures := totalFailures + 1;
        } else {
          t.MarkSuccess(at);
          totalSuccess := totalSuccess + 1;
        }
        return Some(Upstream(target, status));
      case Fatal(status) =>
        totalFailures := totalFailures + 1;
        return Some(Refused(status));
      case Retryable(status) =>
        t.MarkFailure(at, quietPeriod);
        if explicit {
          totalFailures := totalFailures + 1;
          return Some(Refused(status));
        }
        totalTargetRetries := totalTargetRetries + 1;
        return None;
    }

    /** The same for the `k`-th forward of a request: the marks of the earlier forwards stay. */
    method SettleHop(r: Request, target: nat, outcomes: nat -> ForwardOutcome, ends: nat -> Time, k: nat,
                     ghost hops: seq<Hop>, ghost hop: Hop)
      returns (answer: Option<Served>)
      requires balancer.Valid() && target < |balancer.targets| && hop.target == target && |hops| == k
      requires FairHops(balancer, r, hops + [hop]) && Marked(balancer, hops, outcomes, ends, quietPeriod)
      modifies this`totalSuccess, this`totalFailures, this`totalTargetRetries, balancer.targets[target]
      ensures balancer.Valid()
      ensures answer.None? <==> outcomes(k).Retryable? && r.requested == ""
      ensures answer.None? ==> totalSuccess == old(totalSuccess) && totalFailures == old(totalFailures)
      ensures answer.Some? ==> OneMore(old(totalSuccess), old(totalFailures), totalSuccess, totalFailures, answer.value)
      ensures answer.Some? ==> answer.value == AnswerTo(outcomes(k), target)
      ensures Marked(balancer, hops + [hop], outcomes, ends, quietPeriod)
      ensures forall t :: t in balancer.targets && NotTried(balancer, hops + [hop], t) ==>
        NotTried(balancer, hops, t) && t.mutedUntil == old(t.mutedUntil)
    {
      assert balancer.DistinctNames();
      hide FairHops, Balancer.Valid, AnswerTo, OneMore;
      HopsApart(balancer, r, hops, hop);
      TriedGrows(balancer, hops, hop);
      answer := Settle(balancer.targets[target], target, outcomes(k), ends(k), r.requested != "");
    }

    /** The choice of the next target; without one the request has failed. */
    method ChooseHop(r: Request, sticky: Option<string>, attempted: set<string>, now: Time, ghost hops: seq<Hop>)
      returns (sel: Selection, ghost hop: Hop)
      requires balancer.Valid() && r.caller.Some?
      requires FairHops(balancer, r, hops) && attempted == AttemptedNames(balancer, hops)
      modifies this`totalFailures, balancer`rrCounter
      ensures balancer.Valid()
      ensures totalFailures == old(totalFailures) + if sel.SelectionError? then 1 else 0
      ensures sel.SelectionError? ==> NoneLeft(balancer, r, hops, now, sel.status)
      ensures sel.Selected? ==>
        && sel.target == hop.target < |balancer.targets| && |hops| < |balancer.targets|
        && FairHops(balancer, r, hops + [hop])
        && AttemptedNames(balancer, hops + [hop]) == attempted + {balancer.targets[sel.target].info.name}
    {
      hide ModelIndex.EnsureModelAllowed, NothingUsable, Balancer.Valid, FairHops, AnyEligible, Eligible;
      hide AttemptedNames, NoTargetStatus, ExplicitChoice, Wanted;
      var q := QueryOf(r, attempted);
      sel := SelectTarget(balancer, r.requested, q, sticky, now);
      if sel.Selected? {
        var t := balancer.targets[sel.target];
        // The model is asked for once more; an eligible target never refuses it.
        var upstream := ModelIndex.EnsureModelAllowed(t.info.models, r.model);
        UsableEnsured(balancer, q, now, sel.target);
        assert upstream.Some?;
        hop := Hop(sel.target, now, t.mutedUntil);
        HopFair(balancer, r, hops, hop, q);
      } else {
        hop := Hop(0, now, now);
        totalFailures := totalFailures + 1;
      }
    }

    /** The failover loop: at most one forward per target. Attempt `k` starts at
        `clock(k)` and ends at `ends(k)` in `outcomes(k)`. */
    method TryTargets(r: Request, sticky: Option<string>, outcomes: nat -> ForwardOutcome, clock: nat -> Time,
                      ends: nat -> Time)
      returns (served: Served, ghost hops: seq<Hop>)
      requires balancer.Valid() && r.caller.Some?
      modifies this`totalSuccess, this`totalFailures, this`totalTargetRetries, balancer`rrCounter, balancer.targets
      ensures balancer.Valid() && FairHops(balancer, r, hops) && |hops| <= |balancer.targets|
      ensures OneMore(old(totalSuccess), old(totalFailures), totalSuccess, totalFailures, served)
      ensures TookCourse(hops, outcomes, r.requested != "", served)
      ensures served.OutOfTargets? ==> NoneLeft(balancer, r, hops, clock(|hops|), served.status)
      ensures Marked(balancer, hops, outcomes, ends, quietPeriod)
      ensures forall t :: t in balancer.targets && NotTried(balancer, hops, t) ==> t.mutedUntil == old(t.mutedUntil)
    {
      hide Balancer.Valid, FairHops, AttemptedNames, NoneLeft, Marked, NotTried;
      hide TookCourse, SentOn, AnswerTo;
      NothingMarked(balancer, outcomes, ends, quietPeriod);
      NothingSent(outcomes, r.requested != "");
      FairStart(balancer, r);
      var attempted: set<string> := {};
      var attempt := 0;
      hops := [];
      while true
        invariant balancer.Valid() && |hops| == attempt <= |balancer.targets|
        invariant FairHops(balancer, r, hops) && attempted == AttemptedNames(balancer, hops)
        invariant totalSuccess == old(totalSuccess) && totalFailures == old(totalFailures)
        invariant SentOn(hops, outcomes, r.requested != "")
        invariant Marked(balancer, hops, outcomes, ends, quietPeriod)
        invariant forall t :: t in balancer.targets && NotTried(balancer, hops, t) ==> t.mutedUntil == old(t.mutedUntil)
        decreases |balancer.targets| - attempt
      {
        var sel, hop := ChooseHop(r, sticky, attempted, clock(attempt), hops);
        if sel.SelectionError? {
          CourseWithoutTarget(hops, outcomes, r.requested != "", sel.status);
          return OutOfTargets(sel.status), hops;
        }
        attempted := attempted + {balancer.targets[sel.target].info.name};
        CourseEnds(hops, hop, outcomes, r.requested != "");
        var answer := SettleHop(r, sel.target, outcomes, ends, attempt, hops, hop);
        attempt, hops := attempt + 1, hops + [hop];
        if answer.Some? {
          return answer.value, hops;
        }
      }
    }

    /** `ServeHTTP`. Every way through it records its outcome itself, so the deferred
        block has only the active request to take back. */
    method ServeHTTP(r: Request, sticky: Option<string>, outcomes: nat -> ForwardOutcome, clock: nat -> Time,
                     ends: nat -> Time)
      returns (served: Served, ghost hops: seq<Hop>)
      requires balancer.Valid()
      modifies this, balancer`rrCounter, balancer.targets
      ensures balancer.Valid() && FairHops(balancer, r, hops) && |hops| <= |balancer.targets|
      ensures totalRequests == old(totalRequests) + 1 && activeRequests == old(activeRequests)
      ensures OneMore(old(totalSuccess), old(totalFailures), totalSuccess, totalFailures, served)
      ensures totalSuccess + totalFailures == old(totalSuccess) + old(totalFailures) + 1
      ensures r.caller.None? ==> served == Refused(401) && hops == []
      ensures r.caller.Some? && balancer.targets == [] ==> served == Refused(503) && hops == []
      ensures Known(r) && !r.bodyReadable ==> served == Refused(400) && hops == []
      ensures Known(r) && r.bodyReadable && r.localList ==> served == LocalList && hops == []
      ensures Readable(r) && r.model == "" && NeedsModel() ==> served == Refused(400) && hops == []
      ensures Readable(r) && !(r.model == "" && NeedsModel()) && r.quotaExceeded ==>
        served == Refused(429) && hops == []
      ensures Readable(r) && !(r.model == "" && NeedsModel()) && !r.quotaExceeded ==>
        && TookCourse(hops, outcomes, r.requested != "", served)
        && (served.OutOfTargets? ==> NoneLeft(balancer, r, hops, clock(|hops|), served.status))
      ensures Marked(balancer, hops, outcomes, ends, quietPeriod)
      ensures forall t :: t in balancer.targets && NotTried(balancer, hops, t) ==> t.mutedUntil == old(t.mutedUntil)
    {
      hide Balancer.Valid, FairHops, NoneLeft, TookCourse, QueryOf;
      FairStart(balancer, r);
      totalRequests := totalRequests + 1;
      activeRequests := activeRequests + 1;
      var answer := Admit(r);
      hops := [];
      if answer.Some? {
        served := answer.value;
      } else {
        served, hops := TryTargets(r, sticky, outcomes, clock, ends);
      }
      activeRequests := activeRequests - 1;
    }
  }

  lemma {:induction false} DistinctBelow(xs: seq<nat>, n: nat)
    requires forall k :: 0 <= k < |xs| ==> xs[k] < n
    requires forall i, k :: 0 <= i < k < |xs| ==> xs[i] != xs[k]
    ensures |xs| <= n
    decreases n
  {
    if xs != [] {
      assert xs[0] < n;
      if n - 1 in xs {
        var p :| 0 <= p < |xs| && xs[p] == n - 1;
        DistinctBelow(xs[..p] + xs[p + 1..], n - 1);
      } else {
        DistinctBelow(xs, n - 1);
      }
    }
  }

  lemma FairStart(b: Balancer, r: Request)
    ensures FairHops(b, r, []) && AttemptedNames(b, []) == {}
  {
  }

  lemma FairHopsBounded(b: Balancer, r: Request, hops: seq<Hop>)
    requires FairHops(b, r, hops)
    ensures |hops| <= |b.targets|
  {
    DistinctBelow(seq(|hops|, k requires 0 <= k < |hops| => hops[k].target), |b.targets|);
  }

  lemma {:induction false} AttemptedHas(b: Balancer, hops: seq<Hop>, k: nat)
    requires k < |hops|
    ensures TargetName(b, hops[k].target) in AttemptedNames(b, hops)
  {
    if k < |hops| - 1 {
      AttemptedHas(b, hops[..|hops| - 1], k);
    }
  }

  lemma NamesGrow(b: Balancer, hops: seq<Hop>, hop: Hop)
    ensures AttemptedNames(b, hops + [hop]) == AttemptedNames(b, hops) + {TargetName(b, hop.target)}
  {
    assert (hops + [hop])[..|hops|] == hops;
  }

  lemma EligibleIsFair(b: Balancer, r: Request, hop: Hop, q: Query)
    requires r.caller.Some? && q == QueryOf(r, q.attempted)
    requires hop.target < |b.targets| && Eligible(b.targets[hop.target].info, q) && hop.mutedUntil <= hop.at
    requires Wanted(b.targets[hop.target].info, r.requested)
    ensures FairHop(b, r, hop) && TargetName(b, hop.target) == b.targets[hop.target].info.name
    ensures TargetName(b, hop.target) !in q.attempted
  {
    hide Wanted;
  }

  /** One more usable target keeps the hops fair; there is one hop per target at most. */
  lemma HopFair(b: Balancer, r: Request, hops: seq<Hop>, hop: Hop, q: Query)
    requires FairHops(b, r, hops) && r.caller.Some? && q == QueryOf(r, AttemptedNames(b, hops))
    requires hop.target < |b.targets| && Eligible(b.targets[hop.target].info, q) && hop.mutedUntil <= hop.at
    requires Wanted(b.targets[hop.target].info, r.requested)
    ensures FairHops(b, r, hops + [hop]) && |hops| < |b.targets|
    ensures AttemptedNames(b, hops + [hop]) == AttemptedNames(b, hops) + {b.targets[hop.target].info.name}
  {
    EligibleIsFair(b, r, hop, q);
    hide FairHop, Eligible, Wanted, TargetName, AttemptedNames;
    NamesGrow(b, hops, hop);
    forall k | 0 <= k < |hops|
      ensures hops[k].target != hop.target
    {
      AttemptedHas(b, hops, k);
    }
    FairHopsBounded(b, r, hops + [hop]);
  }

  /** Exactly one counter moved by one, and the right one. */
  predicate OneMore(success: nat, failures: nat, success': nat, failures': nat, served: Served) {
    && success' == success + (if IsSuccess(served) then 1 else 0)
    && failures' == failures + (if IsSuccess(served) then 0 else 1)
  }
}
