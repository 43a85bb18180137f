/** Which limit a counter has: that of its own dimension in the client's configuration, read
    when the counter is loaded and again when its period starts over. */
module QuotaLimits {
  import opened Clock
  import opened Period
  import opened UsageIndex
  import opened Pricing
  import opened QuotaModel

  /** The counter has the limit configured for its dimension. */
  ghost predicate HasLimit(dims: Counters, d: Dimension, l: Limits)
    requires d in dims
  {
    && (d == Daily ==> dims[d].limit == l.daily)
    && (d == Weekly ==> dims[d].limit == l.weekly)
    && (d == Monthly ==> dims[d].limit == l.monthly)
  }

  /** One counter for each positive limit, save those of `missing`. */
  ghost predicate CountersFor(dims: Counters, l: Limits, missing: set<Dimension>) {
    && (Daily in dims <==> l.daily > 0.0 && Daily !in missing)
    && (Weekly in dims <==> l.weekly > 0.0 && Weekly !in missing)
    && (Monthly in dims <==> l.monthly > 0.0 && Monthly !in missing)
    && forall d :: d in dims ==> HasLimit(dims, d, l)
  }

  /** After an evaluation a client has a counter for each positive limit whose sum could be
      had; without a positive limit it has neither counters nor an entry. */
  lemma EvaluatedLimits(prices: CostTable, s: QuotaState, es: seq<Event>, c: string, now: nat, faults: Faults)
    requires !faults.list
    ensures var s' := EvaluateStep(prices, s, es, c, now, faults);
            if c in s.config && (s.config[c].daily > 0.0 || s.config[c].weekly > 0.0 || s.config[c].monthly > 0.0)
            then c in s'.counters && CountersFor(s'.counters[c], s.config[c], faults.sums)
            else c !in s'.counters && c !in s'.exceeded
  {
    hide HourSpent, NextReset, PeriodFrom, FirstOver;
  }

  /** So it is after the fallback, with nothing spent. */
  lemma FallbackLimits(s: QuotaState, c: string, now: nat, faults: Faults)
    requires c !in s.counters && !faults.reload && HasQuota(s, c)
    ensures var s' := FallbackStep(s, c, now, faults);
            && c in s'.counters && CountersFor(s'.counters[c], s.config[c], {})
            && forall d :: d in s'.counters[c] ==> s'.counters[c][d].used == 0.0
  {
    hide NextReset;
  }

  /** A counter whose period has passed starts at nothing with the limit configured now, or
      with its old one if that cannot be read; the others are left alone. */
  lemma FlipRefreshes(s: QuotaState, c: string, dims: Counters, now: nat, faults: Faults, d: Dimension)
    requires d in dims
    ensures var flipped := FlipAll(s, c, dims, now, faults);
            && d in flipped
            && (dims[d].resetsAt > now ==> flipped[d] == dims[d])
            && (dims[d].resetsAt <= now ==> flipped[d].used == 0.0 && flipped[d].resetsAt > now)
            && (dims[d].resetsAt <= now && c in s.config && d !in faults.refresh ==> HasLimit(flipped, d, s.config[c]))
            && (dims[d].resetsAt <= now && (c !in s.config || d in faults.refresh) ==>
                  flipped[d].limit == dims[d].limit)
  {
    PeriodBounds(d, now);
  }

  /** When `Check` drops an expired entry, the counters that expire with it start over in the
      same way, and no others. */
  lemma RestartRefreshes(s: QuotaState, c: string, now: nat, faults: Faults, d: Dimension)
    requires c in s.exceeded && s.exceeded[c].resetsAt <= now && c in s.counters && d in s.counters[c]
    ensures var s', old_ := CheckStep(s, c, now, faults).0, s.counters[c][d];
            var over := old_.resetsAt == s.exceeded[c].resetsAt || old_.resetsAt <= now;
            && c in s'.counters && d in s'.counters[c] && c !in s'.exceeded
            && (!over ==> s'.counters[c][d] == old_)
            && (over ==> s'.counters[c][d].used == 0.0 && s'.counters[c][d].resetsAt > now)
            && (over && c in s.config && d !in faults.refresh ==> HasLimit(s'.counters[c], d, s.config[c]))
  {
    PeriodBounds(d, now);
  }
}
