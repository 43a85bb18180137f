/** Weighted round robin over candidate targets: which one a counter value picks, and
    the exact share each one gets. */
module WeightedShare {
  import Modular

  function Total(w: seq<nat>): nat {
    if w == [] then 0 else w[0] + Total(w[1..])
  }

  /** First candidate whose cumulative weight exceeds `r`. */
  function Pick(w: seq<nat>, r: int): (j: nat)
    requires w != [] && r < Total(w)
    ensures j < |w|
    decreases |w|
  {
    assert w[1..] == [] ==> Total(w[1..]) == 0;
    if r < w[0] then 0 else 1 + Pick(w[1..], r - w[0])
  }

  function Indicator(b: bool): nat { if b then 1 else 0 }

  /** How many of the counter values `a .. a + len` pick candidate `j`. */
  function Picks(w: seq<nat>, a: nat, len: nat, j: nat): nat
    requires Total(w) > 0
    decreases len
  {
    if len == 0 then 0
    else Picks(w, a, len - 1, j) + Indicator(Pick(w, (a + len - 1) % Total(w)) == j)
  }

  /** The same count over plain residues, without the wrap. */
  function Hits(w: seq<nat>, len: nat, j: nat): nat
    requires len <= Total(w)
  {
    if len == 0 then 0 else Hits(w, len - 1, j) + Indicator(Pick(w, len - 1) == j)
  }

  /** Residues below the first weight pick the first candidate; the rest pick as if it
      were not there. */
  lemma {:induction false} HitsSplit(w: seq<nat>, len: nat, j: nat)
    requires w != [] && len <= Total(w)
    ensures Hits(w, len, j) ==
      if len <= w[0] then (if j == 0 then len else 0)
      else if j == 0 then w[0] else Hits(w[1..], len - w[0], j - 1)
    decreases len
  {
    if len > 0 {
      HitsSplit(w, len - 1, j);
    }
  }

  /** Over one full round of residues a candidate is picked exactly its weight times. */
  lemma {:induction false} FullRound(w: seq<nat>, j: nat)
    requires j < |w|
    ensures Hits(w, Total(w), j) == w[j]
    decreases |w|
  {
    HitsSplit(w, Total(w), j);
    if j > 0 {
      FullRound(w[1..], j - 1);
      if Total(w) <= w[0] {
        ZeroTail(w[1..], j - 1);
      }
    }
  }

  lemma {:induction false} ZeroTail(w: seq<nat>, j: nat)
    requires j < |w| && Total(w) == 0
    ensures w[j] == 0
    decreases |w|
  {
    if j > 0 {
      ZeroTail(w[1..], j - 1);
    }
  }

  lemma {:induction false} PicksAreHits(w: seq<nat>, len: nat, j: nat)
    requires 0 < Total(w) && len <= Total(w)
    ensures Picks(w, 0, len, j) == Hits(w, len, j)
    decreases len
  {
    if len > 0 {
      PicksAreHits(w, len - 1, j);
      Modular.ModSmall(len - 1, Total(w));
    }
  }

  /** Taking the first value off the front of a window instead of the last. */
  lemma {:induction false} PicksFront(w: seq<nat>, a: nat, len: nat, j: nat)
    requires Total(w) > 0 && len > 0
    ensures Picks(w, a, len, j) == Indicator(Pick(w, a % Total(w)) == j) + Picks(w, a + 1, len - 1, j)
    decreases len
  {
    if len > 1 {
      PicksFront(w, a, len - 1, j);
    }
  }

  /** Sliding a window of one full round by one step keeps every count. */
  lemma {:induction false} WindowSlides(w: seq<nat>, a: nat, j: nat)
    requires Total(w) > 0
    ensures Picks(w, a, Total(w), j) == Picks(w, 0, Total(w), j)
    decreases a
  {
    if a > 0 {
      WindowSlides(w, a - 1, j);
      PicksFront(w, a - 1, Total(w), j);
      Modular.PeriodicMod(a - 1, Total(w));
    }
  }

  /** Exact weighted share: any `Total(w)` consecutive counter values, wherever they
      start, pick each candidate exactly its weight times. */
  lemma ExactShare(w: seq<nat>, a: nat, j: nat)
    requires Total(w) > 0 && j < |w|
    ensures Picks(w, a, Total(w), j) == w[j]
  {
    WindowSlides(w, a, j);
    PicksAreHits(w, Total(w), j);
    FullRound(w, j);
  }

  /** A candidate without weight is never picked. */
  lemma {:induction false} ZeroWeightNeverPicked(w: seq<nat>, r: nat)
    requires r < Total(w)
    ensures w[Pick(w, r)] > 0
    decreases |w|
  {
    if r >= w[0] {
      ZeroWeightNeverPicked(w[1..], r - w[0]);
    }
  }

  /** The candidate picked is the one whose share of the round, in the order of the list,
      holds the value; a negative value picks the first candidate. */
  lemma {:induction false} PickMeans(w: seq<nat>, r: int)
    requires w != [] && r < Total(w)
    ensures var j := Pick(w, r);
            if r < 0 then j == 0 else Total(w[..j]) <= r < Total(w[..j + 1])
    decreases |w|
  {
    var j := Pick(w, r);
    if r < w[0] {
      assert w[..1][1..] == [] && w[..1][0] == w[0];
    } else {
      PickMeans(w[1..], r - w[0]);
      assert w[..j][1..] == w[1..][..j - 1] && w[..j + 1][1..] == w[1..][..j];
    }
  }
}
