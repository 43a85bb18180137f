/** Conservation of the in-flight counters over concurrent forwards.

    A forward acquires its key's slot, and gives it back through a once-only release:
    from the deferred call when it fails, or from closing the response body when it
    handed the slot over to it. Bodies may be closed any number of times. */
module InFlight {
  import opened Period
  import opened KeyState
  import opened KeyPools
  import opened KeyRuns
  import opened RetryLoop

  datatype Forward = Forward(key: nat, handedOff: bool, released: bool)

  /** `floorHits` counts releases that found the counter already at zero. */
  datatype Ledger = Ledger(pool: PoolState, forwards: seq<Forward>, floorHits: nat)

  datatype LedgerEvent =
    | Begin(key: nat)
    | ReturnWithError(f: nat)
    | HandOff(f: nat)
    | CloseBody(f: nat)
    | OtherPoolStep(op: PoolOp, now: nat, r: int)

  /** The body of the `sync.Once`: release the slot, with the floor at zero. */
  function ReleaseOnce(l: Ledger, f: nat): Ledger
    requires f < |l.forwards|
  {
    var fw := l.forwards[f];
    if fw.released then l
    else
      var atFloor := !(fw.key < |l.pool.inFlight| && l.pool.inFlight[fw.key] > 0);
      Ledger(ReleaseStep(l.pool, fw.key), l.forwards[f := fw.(released := true)],
             l.floorHits + if atFloor then 1 else 0)
  }

  ghost predicate LedgerStep(l: Ledger, ev: LedgerEvent, l': Ledger) {
    match ev
    case Begin(key) =>
      key < |l.pool.keys|
      && l' == l.(pool := AcquireStep(l.pool, key), forwards := l.forwards + [Forward(key, false, false)])
    case ReturnWithError(f) =>
      // The deferred call runs on every return, and does nothing after a hand-off.
      f < |l.forwards| && l' == if l.forwards[f].handedOff then l else ReleaseOnce(l, f)
    case HandOff(f) =>
      f < |l.forwards| && !l.forwards[f].released
      && l' == l.(forwards := l.forwards[f := l.forwards[f].(handedOff := true)])
    case CloseBody(f) =>
      f < |l.forwards| && l.forwards[f].handedOff && l' == ReleaseOnce(l, f)
    case OtherPoolStep(op, now, r) =>
      !op.AcquireInFlight? && !op.ReleaseInFlight?
      && Step(l.pool, op, now, l'.pool, r) && l'.forwards == l.forwards && l'.floorHits == l.floorHits
  }

  ghost predicate IsLedgerRun(ledgers: seq<Ledger>, events: seq<LedgerEvent>) {
    && |ledgers| == |events| + 1
    && forall k :: 0 <= k < |events| ==> LedgerStep(ledgers[k], events[k], ledgers[k + 1])
  }

  /** Forwards that hold key `i`'s slot. */
  function Outstanding(forwards: seq<Forward>, i: nat): nat {
    if forwards == [] then 0
    else Outstanding(forwards[1..], i) + if forwards[0].key == i && !forwards[0].released then 1 else 0
  }

  ghost predicate Balanced(l: Ledger) {
    && Inv(l.pool) && l.floorHits == 0
    && (forall f :: 0 <= f < |l.forwards| ==> l.forwards[f].key < |l.pool.keys|)
    && (forall i: nat :: i < |l.pool.inFlight| ==> l.pool.inFlight[i] == Outstanding(l.forwards, i))
  }

  /** A new pool with no forward yet. */
  function FreshLedger(n: nat, reset: ResetSpec): Ledger { Ledger(InitialState(n, reset), [], 0) }

  lemma FreshBalanced(n: nat, reset: ResetSpec)
    requires 0 < n < UINT32 && WellFormedReset(reset)
    ensures Balanced(FreshLedger(n, reset))
  {
    InitialInv(n, reset);
  }

  lemma {:induction false} OutstandingAppend(forwards: seq<Forward>, fw: Forward, i: nat)
    ensures Outstanding(forwards + [fw], i)
         == Outstanding(forwards, i) + if fw.key == i && !fw.released then 1 else 0
  {
    if forwards != [] {
      OutstandingAppend(forwards[1..], fw, i);
      assert (forwards + [fw])[1..] == forwards[1..] + [fw];
    }
  }

  /** Replacing one forward changes the count of its own key only. */
  lemma {:induction false} OutstandingUpdate(forwards: seq<Forward>, f: nat, fw: Forward, i: nat)
    requires f < |forwards| && fw.key == forwards[f].key
    ensures Outstanding(forwards[f := fw], i)
         == Outstanding(forwards, i)
            - (if forwards[f].key == i && !forwards[f].released then 1 else 0)
            + (if fw.key == i && !fw.released then 1 else 0)
  {
    if f > 0 {
      OutstandingUpdate(forwards[1..], f - 1, fw, i);
      assert forwards[f := fw][1..] == forwards[1..][f - 1 := fw];
    } else {
      assert forwards[f := fw][1..] == forwards[1..];
    }
  }

  lemma ReleaseOnceBalanced(l: Ledger, f: nat)
    requires Balanced(l) && f < |l.forwards|
    ensures Balanced(ReleaseOnce(l, f)) && ReleaseOnce(l, f).forwards[f].released
  {
    var fw := l.forwards[f];
    if !fw.released {
      var l' := ReleaseOnce(l, f);
      forall i: nat | i < |l.pool.inFlight|
        ensures l'.pool.inFlight[i] == Outstanding(l'.forwards, i)
        ensures i == fw.key ==> l.pool.inFlight[i] > 0
      {
        OutstandingUpdate(l.forwards, f, fw.(released := true), i);
      }
    }
  }

  lemma OtherStepKeepsInFlight(s: PoolState, op: PoolOp, now: nat, s': PoolState, r: int)
    requires Step(s, op, now, s', r) && !op.AcquireInFlight? && !op.ReleaseInFlight?
    ensures s'.inFlight == s.inFlight
  {
  }

  lemma LedgerStepBalanced(l: Ledger, ev: LedgerEvent, l': Ledger)
    requires Balanced(l) && LedgerStep(l, ev, l')
    ensures Balanced(l')
  {
    match ev
    case Begin(key) =>
      forall i: nat | i < |l.pool.inFlight|
        ensures l'.pool.inFlight[i] == Outstanding(l'.forwards, i)
      {
        OutstandingAppend(l.forwards, Forward(key, false, false), i);
      }
    case ReturnWithError(f) => ReleaseOnceBalanced(l, f);
    case HandOff(f) =>
      forall i: nat | i < |l.pool.inFlight|
        ensures l'.pool.inFlight[i] == Outstanding(l'.forwards, i)
      {
        OutstandingUpdate(l.forwards, f, l.forwards[f].(handedOff := true), i);
      }
    case CloseBody(f) => ReleaseOnceBalanced(l, f);
    case OtherPoolStep(op, now, r) =>
      StepKeepsInv(l.pool, op, now, l'.pool, r);
      OtherStepKeepsInFlight(l.pool, op, now, l'.pool, r);
  }

  lemma {:induction false} RunBalanced(ledgers: seq<Ledger>, events: seq<LedgerEvent>, k: nat)
    requires IsLedgerRun(ledgers, events) && k <= |events| && Balanced(ledgers[0])
    ensures Balanced(ledgers[k])
  {
    if k > 0 {
      RunBalanced(ledgers, events, k - 1);
      LedgerStepBalanced(ledgers[k - 1], events[k - 1], ledgers[k]);
    }
  }

  /** In every state reachable from a new pool a key's counter is the number of forwards
      that hold its slot, whatever the interleaving, and the floor at zero has never been
      needed. */
  lemma InFlightConserved(ledgers: seq<Ledger>, events: seq<LedgerEvent>, n: nat, reset: ResetSpec, k: nat, i: nat)
    requires IsLedgerRun(ledgers, events) && k <= |events|
    requires 0 < n < UINT32 && WellFormedReset(reset) && ledgers[0] == FreshLedger(n, reset)
    requires i < |ledgers[k].pool.inFlight|
    ensures ledgers[k].pool.inFlight[i] == Outstanding(ledgers[k].forwards, i) && ledgers[k].floorHits == 0
  {
    FreshBalanced(n, reset);
    RunBalanced(ledgers, events, k);
  }

  lemma {:induction false} NoneOutstanding(forwards: seq<Forward>, i: nat)
    ensures Outstanding(forwards, i) == 0 <==>
      forall f :: 0 <= f < |forwards| && forwards[f].key == i ==> forwards[f].released
  {
    if forwards != [] {
      NoneOutstanding(forwards[1..], i);
      forall f | 0 <= f < |forwards| && forwards[f].key == i && f > 0
        ensures forwards[f] == forwards[1..][f - 1]
      {
      }
    }
  }

  /** A key's counter is back at zero exactly when all its forwards have released,
      whether by an error return or by a closed body. */
  lemma InFlightDrains(ledgers: seq<Ledger>, events: seq<LedgerEvent>, n: nat, reset: ResetSpec, k: nat, i: nat)
    requires IsLedgerRun(ledgers, events) && k <= |events|
    requires 0 < n < UINT32 && WellFormedReset(reset) && ledgers[0] == FreshLedger(n, reset)
    requires i < |ledgers[k].pool.inFlight|
    ensures ledgers[k].pool.inFlight[i] == 0 <==>
      forall f :: 0 <= f < |ledgers[k].forwards| && ledgers[k].forwards[f].key == i ==> ledgers[k].forwards[f].released
  {
    InFlightConserved(ledgers, events, n, reset, k, i);
    NoneOutstanding(ledgers[k].forwards, i);
  }

  // ---------------------------------------------------------------------------
  // The forwards of the retry loop are such events

  /** The events lead from one ledger to the other. */
  ghost predicate LedgerPath(l: Ledger, events: seq<LedgerEvent>, l': Ledger)
    decreases |events|
  {
    if events == [] then l' == l
    else exists m :: LedgerStep(l, events[0], m) && LedgerPath(m, events[1..], l')
  }

  lemma PathOne(l: Ledger, ev: LedgerEvent, l': Ledger)
    requires LedgerStep(l, ev, l')
    ensures LedgerPath(l, [ev], l')
  {
    assert LedgerPath(l', [ev][1..], l');
  }

  lemma PathStep(l: Ledger, ev: LedgerEvent, m: Ledger, events: seq<LedgerEvent>, l': Ledger)
    requires LedgerStep(l, ev, m) && LedgerPath(m, events, l')
    ensures LedgerPath(l, [ev] + events, l')
  {
    assert ([ev] + events)[1..] == events;
  }

  lemma {:induction false} PathBalanced(l: Ledger, events: seq<LedgerEvent>, l': Ledger)
    requires LedgerPath(l, events, l') && Balanced(l)
    ensures Balanced(l')
    decreases |events|
  {
    hide Balanced, LedgerStep;
    if events != [] {
      var m :| LedgerStep(l, events[0], m) && LedgerPath(m, events[1..], l');
      LedgerStepBalanced(l, events[0], m);
      PathBalanced(m, events[1..], l');
    }
  }

  /** What a forward does once it has a key: it takes the slot, marks the key if the reply
      says so, and gives the slot back on an error or hands it to the body. */
  function AfterSelection(f: nat, u: Upstream, now: nat, key: nat): seq<LedgerEvent> {
    [Begin(key)]
    + (if KeyFailure(u) then [OtherPoolStep(MarkExhausted(key, u.code.value), now, -1)] else [])
    + [if u.SendError? then ReturnWithError(f) else HandOff(f)]
  }

  function ForwardEvents(f: nat, client: string, u: Upstream, now: nat, done: nat, res: Forwarded): seq<LedgerEvent> {
    if res.NoKey? then [OtherPoolStep(SelectForClient(client), now, -1)]
    else [OtherPoolStep(SelectForClient(client), now, res.key)] + AfterSelection(f, u, done, res.key)
  }

  /** The forwards on the books after it. */
  function ForwardsAfter(forwards: seq<Forward>, res: Forwarded): seq<Forward> {
    match res
    case NoKey => forwards
    case Failed(key, _) => forwards + [Forward(key, false, true)]
    case Responded(key, _) => forwards + [Forward(key, true, false)]
  }

  lemma FailedPath(l: Ledger, u: Upstream, now: nat, key: nat)
    requires Inv(l.pool) && key < |l.pool.keys| && u.SendError?
    ensures LedgerPath(l, AfterSelection(|l.forwards|, u, now, key),
                       l.(forwards := l.forwards + [Forward(key, false, true)]))
  {
    hide Inv;
    var f := |l.forwards|;
    var held := l.(pool := AcquireStep(l.pool, key), forwards := l.forwards + [Forward(key, false, false)]);
    var done := l.(forwards := l.forwards + [Forward(key, false, true)]);
    AcquireRelease(l.pool, key);
    assert held.forwards[f := Forward(key, false, true)] == done.forwards;
    assert ReleaseOnce(held, f) == done by { SlotHeld(l.pool, key); }
    PathOne(held, ReturnWithError(f), done);
    PathStep(l, Begin(key), held, [ReturnWithError(f)], done);
    assert AfterSelection(f, u, now, key) == [Begin(key)] + [ReturnWithError(f)];
  }

  lemma SlotHeld(s: PoolState, key: nat)
    requires Inv(s) && key < |s.keys|
    ensures |AcquireStep(s, key).inFlight| == |s.keys| && AcquireStep(s, key).inFlight[key] > 0
  {
  }

  lemma RespondedPath(l: Ledger, u: Upstream, now: nat, key: nat)
    requires Inv(l.pool) && key < |l.pool.keys| && u.Reply?
    ensures LedgerPath(l, AfterSelection(|l.forwards|, u, now, key),
                       l.(pool := AcquireStep(AfterReply(l.pool, key, u, now), key),
                          forwards := l.forwards + [Forward(key, true, false)]))
  {
    hide Inv, AcquireStep, MarkStep;
    var f := |l.forwards|;
    var held := l.(pool := AcquireStep(l.pool, key), forwards := l.forwards + [Forward(key, false, false)]);
    var marked := held.(pool := AcquireStep(AfterReply(l.pool, key, u, now), key));
    var done := marked.(forwards := l.forwards + [Forward(key, true, false)]);
    assert held.forwards[f := Forward(key, true, false)] == done.forwards;
    PathOne(marked, HandOff(f), done);
    if KeyFailure(u) {
      var mark := OtherPoolStep(MarkExhausted(key, u.code.value), now, -1);
      AcquireKeepsInv(l.pool, key);
      ReleaseAfterMark(l.pool, key, u.code.value, now);
      PathStep(held, mark, marked, [HandOff(f)], done);
      PathStep(l, Begin(key), held, [mark] + [HandOff(f)], done);
      assert AfterSelection(f, u, now, key) == [Begin(key)] + ([mark] + [HandOff(f)]);
    } else {
      PathStep(l, Begin(key), held, [HandOff(f)], done);
      assert AfterSelection(f, u, now, key) == [Begin(key)] + [HandOff(f)];
    }
  }

  lemma AcquireKeepsInv(s: PoolState, key: nat)
    requires Inv(s) && key < |s.keys|
    ensures Inv(AcquireStep(s, key))
  {
    StepKeepsInv(s, AcquireInFlight(key), 0, AcquireStep(s, key), -1);
  }

  /** Every forward, however it ends, is a path of ledger events. */
  lemma ForwardPath(l: Ledger, client: string, u: Upstream, now: nat, done: nat, mid: PoolState, res: Forwarded,
                    s': PoolState)
    requires Inv(l.pool) && ForwardStep(l.pool, client, u, now, done, mid, res, s')
    ensures LedgerPath(l, ForwardEvents(|l.forwards|, client, u, now, done, res),
                       l.(pool := s', forwards := ForwardsAfter(l.forwards, res)))
  {
    hide Inv, SelectForClientStep, AfterReply, LedgerPath, AfterSelection;
    var chosen := l.(pool := mid);
    if res.NoKey? {
      PathOne(l, OtherPoolStep(SelectForClient(client), now, -1), chosen);
    } else {
      var l' := l.(pool := s', forwards := ForwardsAfter(l.forwards, res));
      if res.Failed? {
        FailedPath(chosen, u, done, res.key);
      } else {
        RespondedPath(chosen, u, done, res.key);
      }
      PathStep(l, OtherPoolStep(SelectForClient(client), now, res.key), chosen,
               AfterSelection(|l.forwards|, u, done, res.key), l');
    }
  }

  /** A forward of the retry loop, with the ledger kept beside the pool. */
  method LedgerForward(pool: KeyPool, client: string, u: Upstream, probe: nat -> bool, now: nat, done: nat,
                       ghost l: Ledger)
    returns (res: Forwarded, body: ResponseBody?, ghost l': Ledger)
    requires pool.Valid() && pool.clock <= now <= done && client != "" && OnlyHardFailures(pool.Abs())
    requires Balanced(l) && l.pool == pool.Abs()
    modifies pool, pool.entries, pool.inFlight, pool.tokenSamples
    ensures pool.Valid() && pool.clock <= now && l'.pool == pool.Abs()
    ensures LedgerPath(l, ForwardEvents(|l.forwards|, client, u, now, done, res), l') && Balanced(l')
    ensures l'.forwards == ForwardsAfter(l.forwards, res)
    ensures body != null ==> fresh(body) && body.pool == pool && OnBooks(body, l', |l.forwards|)
  {
    hide KeyPool.Valid, KeyPool.Abs, Balanced, ForwardStep, LedgerPath, OnlyHardFailures;
    ghost var mid: PoolState;
    res, body, mid := ForwardRequest(pool, client, u, probe, now, done);
    l' := l.(pool := pool.Abs(), forwards := ForwardsAfter(l.forwards, res));
    ForwardPath(l, client, u, now, done, mid, res, pool.Abs());
    PathBalanced(l, ForwardEvents(|l.forwards|, client, u, now, done, res), l');
  }

  /** The body of the `f`-th forward: open as long as the slot is not released. */
  ghost predicate OnBooks(b: ResponseBody, l: Ledger, f: nat)
    reads b
  {
    f < |l.forwards| && l.forwards[f] == Forward(b.key, true, !b.open)
  }

  /** Closing a body, for the first time or again, is the ledger's event. */
  method LedgerClose(b: ResponseBody, ghost l: Ledger, ghost f: nat) returns (ghost l': Ledger)
    requires b.pool.Valid() && Balanced(l) && l.pool == b.pool.Abs() && OnBooks(b, l, f)
    modifies b, b.pool.inFlight
    ensures b.pool.Valid() && l'.pool == b.pool.Abs()
    ensures LedgerStep(l, CloseBody(f), l') && Balanced(l') && OnBooks(b, l', f) && !b.open
  {
    hide KeyPool.Valid, KeyPool.Abs, Balanced, ReleaseStep;
    l' := ReleaseOnce(l, f);
    LedgerStepBalanced(l, CloseBody(f), l');
    b.Close();
  }
}
