/** The sliding token window of one key: the pruned sample list against the full
    history it stands for. */
module TokenWindow {
  import opened Clock
  import opened KeyState

  ghost predicate Chronological(samples: seq<TokenSample>) {
    forall j, k :: 0 <= j < k < |samples| ==> samples[j].at <= samples[k].at
  }

  /** `kept` is what remains of `full` once only samples that had left the window
      by `clock` were dropped from the front. */
  ghost predicate PrunedFrom(full: seq<TokenSample>, kept: seq<TokenSample>, clock: Time) {
    && |kept| <= |full|
    && kept == full[|full| - |kept|..]
    && Chronological(full)
    && (forall j :: 0 <= j < |full| ==> full[j].at <= clock)
    && (forall j :: 0 <= j < |full| - |kept| ==> full[j].at < clock - TOKEN_WINDOW)
  }

  /** Dropping samples older than the cutoff does not change the window's sum. */
  lemma {:induction false} DropExpired(samples: seq<TokenSample>, n: nat, cutoff: Time)
    requires n <= |samples|
    requires forall j :: 0 <= j < n ==> samples[j].at < cutoff
    ensures WindowSum(samples, cutoff) == WindowSum(samples[n..], cutoff)
  {
    if n > 0 {
      DropExpired(samples[1..], n - 1, cutoff);
      assert samples[1..][n - 1..] == samples[n..];
    } else {
      assert samples[0..] == samples;
    }
  }

  lemma {:induction false} AllInWindow(samples: seq<TokenSample>, cutoff: Time)
    requires forall j :: 0 <= j < |samples| ==> samples[j].at >= cutoff
    ensures WindowSum(samples, cutoff) == TokenSum(samples)
  {
    if samples != [] {
      AllInWindow(samples[1..], cutoff);
    }
  }

  /** At every later instant the pruned list and the full history have the same
      window sum. */
  lemma WindowRefines(full: seq<TokenSample>, kept: seq<TokenSample>, clock: Time, now: Time)
    requires PrunedFrom(full, kept, clock) && clock <= now
    ensures WindowSum(kept, now - TOKEN_WINDOW) == WindowSum(full, now - TOKEN_WINDOW)
  {
    DropExpired(full, |full| - |kept|, now - TOKEN_WINDOW);
  }

  lemma PrunedFromLater(full: seq<TokenSample>, kept: seq<TokenSample>, clock: Time, now: Time)
    requires PrunedFrom(full, kept, clock) && clock <= now
    ensures PrunedFrom(full, kept, now)
  {
  }

  lemma PruneMore(full: seq<TokenSample>, kept: seq<TokenSample>, n: nat, now: Time)
    requires PrunedFrom(full, kept, now) && n <= |kept|
    requires forall j :: 0 <= j < n ==> kept[j].at < now - TOKEN_WINDOW
    ensures PrunedFrom(full, kept[n..], now)
  {
    forall j | 0 <= j < |full| - |kept[n..]|
      ensures full[j].at < now - TOKEN_WINDOW
    {
      var d := |full| - |kept|;
      if j >= d {
        assert full[j] == kept[j - d];
      }
    }
  }

  /** Once the front sample is inside the window, the plain sum of the pruned list
      is the window sum of the full history. */
  lemma PrunedSum(full: seq<TokenSample>, kept: seq<TokenSample>, now: Time)
    requires PrunedFrom(full, kept, now)
    requires kept != [] ==> kept[0].at >= now - TOKEN_WINDOW
    ensures TokenSum(kept) == WindowSum(full, now - TOKEN_WINDOW)
  {
    var d := |full| - |kept|;
    forall j | 0 <= j < |kept|
      ensures kept[j].at >= now - TOKEN_WINDOW
    {
      assert kept[j] == full[d + j] && kept[0] == full[d];
    }
    AllInWindow(kept, now - TOKEN_WINDOW);
    WindowRefines(full, kept, now, now);
  }

  /** The pruned lists of a whole pool. */
  ghost predicate AllPruned(full: seq<seq<TokenSample>>, kept: seq<seq<TokenSample>>, clock: Time) {
    |kept| == |full| && forall i :: 0 <= i < |full| ==> PrunedFrom(full[i], kept[i], clock)
  }

  /** What the pruning loop leaves of a list. */
  ghost predicate DropsExpired(samples: seq<TokenSample>, kept: seq<TokenSample>, now: Time) {
    && |kept| <= |samples| && kept == samples[|samples| - |kept|..]
    && (forall j :: 0 <= j < |samples| - |kept| ==> samples[j].at < now - TOKEN_WINDOW)
    && (kept != [] ==> kept[0].at >= now - TOKEN_WINDOW)
  }

  lemma PruneOne(full: seq<seq<TokenSample>>, all: seq<seq<TokenSample>>, clock: Time,
                 i: nat, kept: seq<TokenSample>, now: Time)
    requires AllPruned(full, all, clock) && clock <= now && i < |full|
    requires DropsExpired(all[i], kept, now)
    ensures AllPruned(full, all[i := kept], now)
  {
    PrunedFromLater(full[i], all[i], clock, now);
    PruneMore(full[i], all[i], |all[i]| - |kept|, now);
    forall j | 0 <= j < |full| && j != i
      ensures PrunedFrom(full[j], all[j], now)
    {
      PrunedFromLater(full[j], all[j], clock, now);
    }
  }

  lemma RecordOne(full: seq<seq<TokenSample>>, all: seq<seq<TokenSample>>, clock: Time,
                  i: nat, tokens: int, now: Time)
    requires AllPruned(full, all, clock) && clock <= now && i < |full|
    ensures AllPruned(full[i := full[i] + [TokenSample(now, tokens)]],
                      all[i := all[i] + [TokenSample(now, tokens)]], now)
  {
    PrunedFromLater(full[i], all[i], clock, now);
    RecordSample(full[i], all[i], now, tokens);
    forall j | 0 <= j < |full| && j != i
      ensures PrunedFrom(full[j], all[j], now)
    {
      PrunedFromLater(full[j], all[j], clock, now);
    }
  }

  lemma RecordSample(full: seq<TokenSample>, kept: seq<TokenSample>, now: Time, tokens: int)
    requires PrunedFrom(full, kept, now)
    ensures PrunedFrom(full + [TokenSample(now, tokens)], kept + [TokenSample(now, tokens)], now)
  {
  }

  /** The loop that drops the expired samples at the front. */
  method Prune(samples: seq<TokenSample>, now: Time) returns (kept: seq<TokenSample>)
    ensures DropsExpired(samples, kept, now)
  {
    var cutoff := now - TOKEN_WINDOW;
    var i := 0;
    while i < |samples| && samples[i].at < cutoff
      invariant i <= |samples|
      invariant forall j :: 0 <= j < i ==> samples[j].at < cutoff
    {
      i := i + 1;
    }
    kept := samples[i..];
  }

  method SumTokens(samples: seq<TokenSample>) returns (sum: int)
    ensures sum == TokenSum(samples)
  {
    sum := 0;
    var i := 0;
    while i < |samples|
      invariant i <= |samples|
      invariant sum + TokenSum(samples[i..]) == TokenSum(samples)
    {
      sum := sum + samples[i].tokens;
      assert samples[i..][1..] == samples[i + 1..];
      i := i + 1;
    }
  }
}
