/** Which key a client gets, in plain terms: requests in flight, tokens of the last three
    minutes, and whose turn it is. */
module KeyLoad {
  import opened Clock
  import opened KeyState
  import opened KeySelection
  import Modular

  // ---------------------------------------------------------------------------
  // Tokens of the last three minutes

  /** Tokens of the samples taken at or after `from`, added up from the back. */
  function Tokens(samples: seq<TokenSample>, from: Time): int {
    if samples == [] then 0
    else
      var last := samples[|samples| - 1];
      Tokens(samples[..|samples| - 1], from) + if from <= last.at then last.tokens else 0
  }

  ghost function Recent(s: PoolState, i: nat, now: Time): int
    requires i < |s.history|
  {
    Tokens(s.history[i], now - 3 * MINUTE)
  }

  lemma {:induction false} WindowGrows(samples: seq<TokenSample>, x: TokenSample, from: Time)
    ensures WindowSum(samples + [x], from) == WindowSum(samples, from) + if from <= x.at then x.tokens else 0
  {
    if samples == [] {
      assert [x][1..] == [];
    } else {
      WindowGrows(samples[1..], x, from);
      assert (samples + [x])[1..] == samples[1..] + [x];
    }
  }

  lemma {:induction false} WindowIsTokens(samples: seq<TokenSample>, from: Time)
    ensures WindowSum(samples, from) == Tokens(samples, from)
    decreases |samples|
  {
    if samples != [] {
      var front, last := samples[..|samples| - 1], samples[|samples| - 1];
      WindowIsTokens(front, from);
      WindowGrows(front, last, from);
      assert samples == front + [last];
    }
  }

  lemma LoadIsRecent(s: PoolState, now: Time)
    requires |s.history| == |s.keys|
    ensures forall i: nat :: i < |s.keys| ==> Load(s, i, now) == Recent(s, i, now)
  {
    forall i: nat | i < |s.keys|
      ensures Load(s, i, now) == Recent(s, i, now)
    {
      WindowIsTokens(s.history[i], now - TOKEN_WINDOW);
    }
  }

  /** Recorded tokens weigh on their key for three minutes, and on no other key. */
  lemma RecordCounts(s: PoolState, i: nat, tokens: int, now: Time, j: nat, later: Time)
    requires |s.history| == |s.keys| && i < |s.keys| && j < |s.keys| && tokens > 0 && now <= later
    ensures var s' := RecordStep(s, i, tokens, now);
            && s'.keys == s.keys && s'.inFlight == s.inFlight && s'.rr == s.rr && |s'.history| == |s.history|
            && Load(s', j, later) == Load(s, j, later) + if j == i && later <= now + 3 * MINUTE then tokens else 0
  {
    WindowGrows(s.history[i], TokenSample(now, tokens), later - TOKEN_WINDOW);
  }

  // ---------------------------------------------------------------------------
  // The least busy key

  /** Fewer requests in flight or, with as many, fewer recent tokens. */
  ghost predicate Busier(s: PoolState, j: nat, r: nat, now: Time)
    requires j < |s.keys| && r < |s.keys| && |s.inFlight| == |s.keys| && |s.history| == |s.keys|
  {
    s.inFlight[r] < s.inFlight[j] || (s.inFlight[r] == s.inFlight[j] && Recent(s, r, now) < Recent(s, j, now))
  }

  lemma ScoreIsBusier(s: PoolState, a: nat, b: nat, now: Time)
    requires a < |s.keys| && b < |s.keys| && |s.inFlight| == |s.keys| && |s.history| == |s.keys|
    ensures ScoreLess(s, a, b, now) <==> Busier(s, b, a, now)
  {
    LoadIsRecent(s, now);
  }

  /** `r` has no more requests in flight than any active key, and no more recent tokens than
      an active key with as many. */
  ghost predicate LeastBusy(s: PoolState, r: nat, now: Time)
    requires r < |s.keys| && |s.inFlight| == |s.keys| && |s.history| == |s.keys|
  {
    && Active(s.keys[r])
    && (forall j: nat :: j < |s.keys| && Active(s.keys[j]) ==> s.inFlight[r] <= s.inFlight[j])
    && (forall j: nat :: j < |s.keys| && Active(s.keys[j]) && s.inFlight[j] == s.inFlight[r] ==>
          Recent(s, r, now) <= Recent(s, j, now))
  }

  lemma LeastLoadedIsLeastBusy(s: PoolState, r: nat, now: Time)
    requires r < |s.keys| && |s.inFlight| == |s.keys| && |s.history| == |s.keys|
    requires Active(s.keys[r]) && LeastLoaded(s, r, now)
    ensures LeastBusy(s, r, now)
  {
    hide ScoreLess, Recent;
    forall j: nat | j < |s.keys| && Active(s.keys[j])
      ensures !Busier(s, r, j, now)
    {
      ScoreIsBusier(s, j, r, now);
    }
    assert forall j: nat :: j < |s.keys| && Active(s.keys[j]) ==> !Busier(s, r, j, now);
  }

  /** The best active key is the first of the least busy ones. */
  lemma BestIsFirstLeastBusy(s: PoolState, now: Time)
    requires |s.inFlight| == |s.keys| && |s.history| == |s.keys|
    ensures var r := BestActive(s, now, 0, -1);
            && (r == -1 <==> forall j :: 0 <= j < |s.keys| ==> !Active(s.keys[j]))
            && (r >= 0 ==> LeastBusy(s, r, now))
            && (r >= 0 ==> forall j: nat :: j < r && Active(s.keys[j]) ==> Busier(s, j, r, now))
  {
    hide BestActive, ScoreLess, Busier, LeastBusy;
    BestActiveIsLeast(s, now);
    var r := BestActive(s, now, 0, -1);
    if r >= 0 {
      LeastLoadedIsLeastBusy(s, r, now);
      forall j: nat | j < r && Active(s.keys[j])
        ensures Busier(s, j, r, now)
      {
        ScoreIsBusier(s, r, j, now);
      }
    }
  }

  /** A new client, or one whose binding is active and due for rebalancing, gets a least
      busy key. */
  lemma ClientGetsLeastBusy(s: PoolState, client: string, now: nat)
    requires Inv(s)
    requires AnyActive(s.keys)
    requires client in s.bound ==>
      Active(s.keys[s.bound[client]]) && Sub(now, s.boundAt[client]) >= 30 * SECOND
    ensures var ch := ChooseForClient(s, client, now);
            0 <= ch.idx < |s.keys| && ch.keys == s.keys && LeastBusy(s, ch.idx, now)
  {
    hide ChooseForClient, LeastLoaded, LeastBusy;
    ClientGetsLeastLoaded(s, client, now);
    ChoiceSound(s, client, now);
    LeastLoadedIsLeastBusy(s, ChooseForClient(s, client, now).idx, now);
  }

  /** A binding to an active key is kept for thirty seconds, and after that as long as the
      key is among the least busy. */
  lemma BindingKept(s: PoolState, client: string, now: nat)
    requires Inv(s) && client in s.bound && Active(s.keys[s.bound[client]])
    requires Sub(now, s.boundAt[client]) < 30 * SECOND || LeastBusy(s, s.bound[client], now)
    ensures var ch := ChooseForClient(s, client, now);
            && ch.idx == s.bound[client] && ch.keys == s.keys && ch.rr == s.rr
            && (ch.rebind <==> Sub(now, s.boundAt[client]) >= 30 * SECOND)
  {
    hide BestActive, ScoreLess;
    var key, best := s.bound[client], BestActive(s, now, 0, -1);
    if best >= 0 {
      ScoreIsBusier(s, best, key, now);
      BestIsFirstLeastBusy(s, now);
    }
  }

  // ---------------------------------------------------------------------------
  // Whose turn it is

  /** The key `e` steps after position `start`, going round. */
  function SlotAt(start: nat, e: nat, n: nat): (k: nat)
    requires n > 0
    ensures k < n
  {
    (start + e) % n
  }

  /** `r` is the first active key at or cyclically after position `start`, `d` steps on. */
  ghost predicate InTurn(keys: seq<KeyEntry>, start: nat, r: nat, d: nat)
    requires |keys| > 0
  {
    d < |keys| && r == SlotAt(start, d, |keys|) && Active(keys[r]) && NoneBefore(keys, start, d)
  }

  ghost predicate NoneBefore(keys: seq<KeyEntry>, start: nat, d: nat)
    requires |keys| > 0
  {
    forall e: nat :: e < d ==> !Active(keys[SlotAt(start, e, |keys|)])
  }

  lemma CyclicStep(keys: seq<KeyEntry>, start: nat, i: nat)
    requires 0 < |keys| && i <= |keys|
    ensures CyclicActive(keys, start, i)
         == if i == |keys| then -1
            else if Active(keys[SlotAt(start, i, |keys|)]) then SlotAt(start, i, |keys|)
            else CyclicActive(keys, start, i + 1)
  {
  }

  lemma {:induction false} SearchTakesTurns(keys: seq<KeyEntry>, start: nat, i: nat) returns (d: nat)
    requires i <= |keys| && |keys| > 0 && CyclicActive(keys, start, i) >= 0 && NoneBefore(keys, start, i)
    ensures InTurn(keys, start, CyclicActive(keys, start, i), d)
    decreases |keys| - i
  {
    hide CyclicActive, SlotAt;
    CyclicStep(keys, start, i);
    d := i;
    if !Active(keys[SlotAt(start, i, |keys|)]) {
      d := SearchTakesTurns(keys, start, i + 1);
    }
  }

  lemma FromResidue(rr: nat, e: nat, n: nat)
    requires n > 0
    ensures SlotAt(rr % n, e, n) == SlotAt(rr, e, n)
  {
    var q, r, x := rr / n, rr % n, (rr % n + e) / n;
    assert rr == q * n + r;
    assert r + e == x * n + (r + e) % n;
    Modular.Distribute(q, x, n);
    Modular.ModOfMultiplePlus(rr + e, q + x, n, (r + e) % n);
  }

  lemma TurnFromResidue(keys: seq<KeyEntry>, rr: nat, r: nat, d: nat)
    requires |keys| > 0 && InTurn(keys, rr % |keys|, r, d)
    ensures InTurn(keys, rr, r, d)
  {
    hide SlotAt;
    forall e: nat
      ensures SlotAt(rr % |keys|, e, |keys|) == SlotAt(rr, e, |keys|)
    {
      FromResidue(rr, e, |keys|);
    }
  }

  ghost predicate AnyActive(keys: seq<KeyEntry>) { exists j :: 0 <= j < |keys| && Active(keys[j]) }

  /** `selectKey` takes the active keys in turn: the first one at or after the counter, which
      moves on by one. */
  lemma SelectKeyInTurn(s: PoolState, now: nat) returns (d: nat)
    requires Inv(s) && AnyActive(s.keys)
    ensures var (s', r) := SelectKeyStep(s, now);
            && r >= 0 && InTurn(s.keys, s.rr, r, d) && s'.keys == s.keys
            && s'.rr == if s.rr + 1 == UINT32 then 0 else s.rr + 1
  {
    hide CyclicActive, InTurn;
    CyclicActiveComplete(s.keys, s.rr % |s.keys|);
    d := SearchTakesTurns(s.keys, s.rr % |s.keys|, 0);
    TurnFromResidue(s.keys, s.rr, CyclicActive(s.keys, s.rr % |s.keys|, 0), d);
  }

  /** `selectNextActiveKey` goes on to the first active key after the given one. */
  lemma NextActiveInTurn(s: PoolState, after: AfterIndex, now: nat) returns (d: nat)
    requires Inv(s) && AnyActive(s.keys)
    ensures var (s', r) := NextActiveStep(s, after, now);
            s' == s && r >= 0 && InTurn(s.keys, after + 1, r, d)
  {
    hide CyclicActive, InTurn;
    CyclicActiveComplete(s.keys, after + 1);
    d := SearchTakesTurns(s.keys, after + 1, 0);
  }

  lemma RoundRobinStep(keys: seq<KeyEntry>, rr: nat, tries: nat)
    requires 0 < |keys| && tries > 0
    ensures RoundRobin(keys, rr, tries)
         == if Active(keys[SlotAt(rr, 0, |keys|)]) then (SlotAt(rr, 0, |keys|), NextCounter(rr))
            else RoundRobin(keys, NextCounter(rr), tries - 1)
  {
  }

  lemma SlotShift(start: nat, i: nat, n: nat)
    requires n > 0
    ensures SlotAt(start + i, 0, n) == SlotAt(start, i, n)
  {
  }

  lemma {:induction false} RoundRobinInTurn(keys: seq<KeyEntry>, start: nat, i: nat, last: nat) returns (d: nat)
    requires i <= last < |keys| && start + |keys| <= UINT32
    requires Active(keys[SlotAt(start, last, |keys|)]) && NoneBefore(keys, start, i)
    ensures var (idx, rr') := RoundRobin(keys, start + i, |keys| - i);
            idx >= 0 && InTurn(keys, start, idx, d) && rr' == NextCounter(start + d)
    decreases |keys| - i
  {
    hide SlotAt, RoundRobin;
    RoundRobinStep(keys, start + i, |keys| - i);
    SlotShift(start, i, |keys|);
    d := i;
    if !Active(keys[SlotAt(start, i, |keys|)]) {
      assert NextCounter(start + i) == start + (i + 1) by { Modular.ModSmall(start + i + 1, UINT32); }
      d := RoundRobinInTurn(keys, start, i + 1, last);
    }
  }

  /** New clients of a pool without any load take the active keys in turn, and the counter
      moves past the key taken (while it does not wrap within the search). */
  lemma IdleClientsTakeTurns(s: PoolState, client: string, now: nat) returns (d: nat)
    requires Inv(s) && client !in s.bound && s.rr + |s.keys| <= UINT32
    requires AnyActive(s.keys)
    requires forall j: nat :: j < |s.keys| && Active(s.keys[j]) ==> s.inFlight[j] == 0 && Recent(s, j, now) == 0
    ensures var ch := ChooseForClient(s, client, now);
            && ch.idx >= 0 && InTurn(s.keys, s.rr, ch.idx, d) && ch.keys == s.keys && ch.rebind
            && ch.rr == NextCounter(s.rr + d)
  {
    hide BestActive, Recent, Load, RoundRobin, InTurn, NextCounter, Overflow;
    LoadIsRecent(s, now);
    assert !HasSignal(s, now);
    BestActiveIsActive(s, now);
    var j :| 0 <= j < |s.keys| && Active(s.keys[j]);
    var last := DistanceTo(s.rr, j, |s.keys|);
    d := RoundRobinInTurn(s.keys, s.rr, 0, last);
  }

  lemma DistanceTo(start: nat, j: nat, n: nat) returns (d: nat)
    requires j < n
    ensures d < n && SlotAt(start, d, n) == j
  {
    d := Modular.CyclicDistance(start, j, n);
    Modular.CyclicDistanceHits(start, j, n);
  }

  /** With any load a new client gets a least busy key and the counter stays. */
  lemma LoadedClientsDoNot(s: PoolState, client: string, now: nat, i: nat)
    requires Inv(s) && client !in s.bound && i < |s.keys| && Active(s.keys[i])
    requires s.inFlight[i] > 0 || Recent(s, i, now) > 0
    ensures var ch := ChooseForClient(s, client, now);
            && ch.idx >= 0 && LeastBusy(s, ch.idx, now) && ch.keys == s.keys && ch.rr == s.rr
            && forall j: nat :: j < ch.idx && Active(s.keys[j]) ==> Busier(s, j, ch.idx, now)
  {
    hide BestActive, Recent, LeastBusy, Busier;
    LoadIsRecent(s, now);
    assert Loaded(s, i, now);
    assert HasSignal(s, now);
    BestIsFirstLeastBusy(s, now);
  }

  /** A client whose key is out of order goes on to the first active key at or after the
      counter, which stays where it is. */
  lemma OverflowInTurn(s: PoolState, client: string, now: nat) returns (d: nat)
    requires Inv(s) && client in s.bound && !Active(s.keys[s.bound[client]]) && AnyActive(s.keys)
    ensures var ch := ChooseForClient(s, client, now);
            && ch.idx >= 0 && InTurn(s.keys, s.rr, ch.idx, d) && ch.keys == s.keys && ch.rr == s.rr && ch.rebind
  {
    hide CyclicActive, InTurn;
    CyclicActiveComplete(s.keys, s.rr % |s.keys|);
    d := SearchTakesTurns(s.keys, s.rr % |s.keys|, 0);
    TurnFromResidue(s.keys, s.rr, CyclicActive(s.keys, s.rr % |s.keys|, 0), d);
  }

  /** Without an active key a client gets the first key that has rested, in order of the
      list, and that one is in working order then. */
  lemma RestedInOrder(s: PoolState, client: string, now: nat, j: nat)
    requires Inv(s) && !AnyActive(s.keys) && j < |s.keys| && Available(s.keys[j], now)
    ensures var ch := ChooseForClient(s, client, now);
            && 0 <= ch.idx <= j && ch.rebind && ch.rr == s.rr
            && (forall k :: 0 <= k < ch.idx ==> !Available(s.keys[k], now))
            && |ch.keys| == |s.keys| && Active(ch.keys[ch.idx]) && Cleared(ch.keys[ch.idx])
            && forall k :: 0 <= k < |s.keys| && k != ch.idx ==> ch.keys[k] == s.keys[k]
  {
    hide CyclicActive, FirstCooled, BestActive, RoundRobin;
    CyclicActiveComplete(s.keys, s.rr % |s.keys|);
    FirstCooledComplete(s.keys, now, 0);
    BestActiveIsLeast(s, now);
  }

  // ---------------------------------------------------------------------------
  // Counting

  function ActiveSet(keys: seq<KeyEntry>): set<nat> { set i: nat | i < |keys| && Active(keys[i]) }

  lemma {:induction false} ActiveKeysCounted(keys: seq<KeyEntry>)
    ensures CountActive(keys) == |ActiveSet(keys)|
    decreases |keys|
  {
    if keys != [] {
      var front, last := keys[..|keys| - 1], |keys| - 1;
      ActiveKeysCounted(front);
      assert ActiveSet(keys) == if Active(keys[last]) then ActiveSet(front) + {last} else ActiveSet(front);
    }
  }
}
