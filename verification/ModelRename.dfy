/** Renaming a model inside a request body: a byte scanner that replaces the old name
    only where it is a whole token, against the reading of the body as a sequence of
    maximal token runs. The scanner folds the case of ASCII letters in the body; how the
    names themselves are lowered and compared is left to Go's Unicode tables. */
module ModelRename {

  newtype byte = x: int | 0 <= x < 256

  predicate IsUpper(b: byte) { 65 <= b <= 90 }

  function ToLowByte(b: byte): byte { if IsUpper(b) then b + 32 else b }

  /** Letters, digits, and `-` `_` `.` `/` `:`. */
  predicate IsTokenByte(b: byte) {
    97 <= b <= 122 || IsUpper(b) || 48 <= b <= 57 || b == 45 || b == 95 || b == 46 || b == 47 || b == 58
  }

  predicate EqualFold(a: seq<byte>, b: seq<byte>) {
    |a| == |b| && forall i :: 0 <= i < |a| ==> ToLowByte(a[i]) == ToLowByte(b[i])
  }

  predicate AllTokens(s: seq<byte>) { forall i :: 0 <= i < |s| ==> IsTokenByte(s[i]) }

  // ---------------------------------------------------------------------------
  // By token runs

  /** Length of the token run at the start. */
  function RunLength(data: seq<byte>): (n: nat)
    ensures n <= |data| && AllTokens(data[..n])
    ensures n < |data| ==> !IsTokenByte(data[n])
  {
    if data == [] || !IsTokenByte(data[0]) then 0
    else
      var n := RunLength(data[1..]);
      assert data[..n + 1] == [data[0]] + data[1..][..n];
      n + 1
  }

  function RenameRun(run: seq<byte>, new_: seq<byte>, old_: seq<byte>): seq<byte> {
    if EqualFold(run, old_) then new_ else run
  }

  /** Every maximal token run that is the old name, up to case, becomes the new name;
      everything else is copied. */
  function RenameRuns(data: seq<byte>, new_: seq<byte>, old_: seq<byte>): seq<byte>
    decreases |data|
  {
    if data == [] then []
    else if IsTokenByte(data[0]) then
      var n := RunLength(data);
      RenameRun(data[..n], new_, old_) + RenameRuns(data[n..], new_, old_)
    else [data[0]] + RenameRuns(data[1..], new_, old_)
  }

  // ---------------------------------------------------------------------------
  // By scanning

  /** The text starts with the old name, which stands alone: no token byte right before
      (`inside`) or right after it. */
  predicate WholeMatch(d: seq<byte>, inside: bool, old_: seq<byte>) {
    !inside && |old_| <= |d| && EqualFold(d[..|old_|], old_) && (|old_| == |d| || !IsTokenByte(d[|old_|]))
  }

  /** What the scanner writes for the text `d`; `inside` says that the byte before `d` is
      a token byte. */
  function Scan(d: seq<byte>, inside: bool, new_: seq<byte>, old_: seq<byte>): seq<byte>
    requires old_ != []
    decreases |d|
  {
    if |d| < |old_| then d
    else if WholeMatch(d, inside, old_) then
      new_ + Scan(d[|old_|..], IsTokenByte(d[|old_| - 1]), new_, old_)
    else [d[0]] + Scan(d[1..], IsTokenByte(d[0]), new_, old_)
  }

  predicate Inside(data: seq<byte>, i: nat)
    requires i <= |data|
  {
    i > 0 && IsTokenByte(data[i - 1])
  }

  predicate NoUpper(s: seq<byte>) { forall i :: 0 <= i < |s| ==> !IsUpper(s[i]) }

  predicate IsAscii(s: seq<byte>) { forall i :: 0 <= i < |s| ==> s[i] < 128 }

  function LowBytes(s: seq<byte>): (t: seq<byte>)
    ensures |t| == |s|
  {
    seq(|s|, i requires 0 <= i < |s| => ToLowByte(s[i]))
  }

  /** What is used of `strings.ToLower` and `strings.EqualFold`: the lowered name `low` has
      no upper-case ASCII letter and is empty only if the name is; and what they do to ASCII
      names. `same` says that the two names are equal under EqualFold. */
  predicate GoFolds(new_: seq<byte>, old_: seq<byte>, low: seq<byte>, same: bool) {
    && NoUpper(low) && (low == [] <==> old_ == [])
    && (IsAscii(old_) ==> low == LowBytes(old_))
    && (IsAscii(old_) && IsAscii(new_) ==> (same <==> EqualFold(old_, new_)))
  }

  lemma {:induction false} RenameLowered(data: seq<byte>, new_: seq<byte>, old_: seq<byte>)
    ensures RenameRuns(data, new_, LowBytes(old_)) == RenameRuns(data, new_, old_)
    decreases |data|
  {
    hide EqualFold, LowBytes, IsTokenByte;
    if data != [] {
      if IsTokenByte(data[0]) {
        var n := RunLength(data);
        FoldLowered(data[..n], old_);
        RenameLowered(data[n..], new_, old_);
      } else {
        RenameLowered(data[1..], new_, old_);
      }
    }
  }

  lemma FoldLowered(run: seq<byte>, old_: seq<byte>)
    ensures EqualFold(run, LowBytes(old_)) <==> EqualFold(run, old_)
  {
    if EqualFold(run, LowBytes(old_)) {
      forall i | 0 <= i < |run|
        ensures ToLowByte(run[i]) == ToLowByte(old_[i])
      {
        assert ToLowByte(run[i]) == ToLowByte(LowBytes(old_)[i]);
      }
    }
  }

  lemma TokensLowered(old_: seq<byte>)
    ensures AllTokens(old_) ==> AllTokens(LowBytes(old_))
  {
    FoldLowered(old_, old_);
    if AllTokens(old_) {
      TokenFold(old_, LowBytes(old_));
    }
  }

  /** `replaceModelInBytesInsensitive`, given what Go's Unicode tables make of the names. */
  method ReplaceModel(data: seq<byte>, new_: seq<byte>, old_: seq<byte>, low: seq<byte>, same: bool)
    returns (out: seq<byte>)
    requires GoFolds(new_, old_, low, same)
    ensures old_ == [] || same ==> out == data
    ensures old_ != [] && !same ==> out == Scan(data, false, new_, low)
    ensures old_ != [] && !same && AllTokens(low) ==> out == RenameRuns(data, new_, low)
    ensures old_ != [] && IsAscii(old_) && IsAscii(new_) && !EqualFold(old_, new_) && AllTokens(old_) ==>
      out == RenameRuns(data, new_, old_)
  {
    hide RenameRuns, AllTokens, EqualFold, IsTokenByte, NoUpper, LowBytes, IsAscii, Scan;
    if old_ == [] || same {
      return data;
    }
    if AllTokens(low) {
      ScanIsRename(data, new_, low);
    }
    if IsAscii(old_) {
      RenameLowered(data, new_, old_);
      TokensLowered(old_);
    }
    out := ScanAll(data, new_, low);
  }

  lemma ScanCopies(d: seq<byte>, inside: bool, new_: seq<byte>, old_: seq<byte>)
    requires 0 < |old_| <= |d| && !WholeMatch(d, inside, old_)
    ensures Scan(d, inside, new_, old_) == [d[0]] + Scan(d[1..], IsTokenByte(d[0]), new_, old_)
  {
  }

  lemma ScanReplaces(d: seq<byte>, inside: bool, new_: seq<byte>, old_: seq<byte>)
    requires 0 < |old_| <= |d| && WholeMatch(d, inside, old_)
    ensures Scan(d, inside, new_, old_) == new_ + Scan(d[|old_|..], IsTokenByte(d[|old_| - 1]), new_, old_)
  {
  }

  /** The scanning loop, for a lowered name. */
  method ScanAll(data: seq<byte>, new_: seq<byte>, old_: seq<byte>) returns (out: seq<byte>)
    requires old_ != [] && NoUpper(old_)
    ensures out == Scan(data, false, new_, old_)
  {
    hide EqualFold, IsTokenByte, NoUpper;
    out := [];
    var i := 0;
    assert data[0..] == data;
    while i < |data|
      invariant i <= |data| && out + Scan(data[i..], Inside(data, i), new_, old_) == Scan(data, false, new_, old_)
    {
      if |data| - i < |old_| {
        out := out + data[i..];
        return;
      }
      hide Scan;
      var matches := MatchesHere(data, i, old_);
      var end := i + |old_|;
      if !matches || (i > 0 && IsTokenByte(data[i - 1])) || (end < |data| && IsTokenByte(data[end])) {
        ScanCopies(data[i..], Inside(data, i), new_, old_);
        assert data[i..][1..] == data[i + 1..];
        Regroup(out, [data[i]], Scan(data[i + 1..], Inside(data, i + 1), new_, old_));
        out := out + [data[i]];
        i := i + 1;
      } else {
        ScanReplaces(data[i..], Inside(data, i), new_, old_);
        assert data[i..][|old_|..] == data[end..];
        Regroup(out, new_, Scan(data[end..], Inside(data, end), new_, old_));
        out := out + new_;
        i := end;
      }
    }
  }

  lemma Regroup(a: seq<byte>, b: seq<byte>, c: seq<byte>)
    ensures a + (b + c) == (a + b) + c
  {
  }

  /** The comparison loop. */
  method MatchesHere(data: seq<byte>, i: nat, old_: seq<byte>) returns (matches: bool)
    requires i + |old_| <= |data| && NoUpper(old_)
    ensures matches == EqualFold(data[i..][..|old_|], old_)
  {
    var j := 0;
    while j < |old_|
      invariant j <= |old_|
      invariant forall k :: 0 <= k < j ==> ToLowByte(data[i..][..|old_|][k]) == ToLowByte(old_[k])
    {
      assert data[i..][..|old_|][j] == data[i + j];
      if ToLowByte(data[i + j]) != old_[j] {
        return false;
      }
      j := j + 1;
    }
    return true;
  }

  // ---------------------------------------------------------------------------
  // The scanner renames runs

  lemma TokenFold(a: seq<byte>, b: seq<byte>)
    requires EqualFold(a, b)
    ensures AllTokens(a) <==> AllTokens(b)
  {
    forall i | 0 <= i < |a|
      ensures IsTokenByte(a[i]) <==> IsTokenByte(b[i])
    {
      assert ToLowByte(a[i]) == ToLowByte(b[i]);
    }
  }

  lemma {:induction false} RunLengthIs(data: seq<byte>, n: nat)
    requires n <= |data| && AllTokens(data[..n]) && (n < |data| ==> !IsTokenByte(data[n]))
    ensures RunLength(data) == n
  {
    if n > 0 {
      assert data[..n][0] == data[0];
      assert data[1..][..n - 1] == data[..n][1..];
      RunLengthIs(data[1..], n - 1);
    }
  }

  /** What is left to write when `d` remains: inside a run that is not renamed, first the
      rest of that run. */
  function Rest(d: seq<byte>, inside: bool, new_: seq<byte>, old_: seq<byte>): seq<byte> {
    if inside then
      var n := RunLength(d);
      d[..n] + RenameRuns(d[n..], new_, old_)
    else RenameRuns(d, new_, old_)
  }

  lemma {:induction false} ShortUnchanged(data: seq<byte>, new_: seq<byte>, old_: seq<byte>)
    requires |data| < |old_|
    ensures RenameRuns(data, new_, old_) == data
    decreases |data|
  {
    if data != [] {
      var n := RunLength(data);
      if IsTokenByte(data[0]) {
        ShortUnchanged(data[n..], new_, old_);
        assert data == data[..n] + data[n..];
      } else {
        ShortUnchanged(data[1..], new_, old_);
        assert data == [data[0]] + data[1..];
      }
    }
  }

  lemma RestShort(d: seq<byte>, inside: bool, new_: seq<byte>, old_: seq<byte>)
    requires |d| < |old_|
    ensures Rest(d, inside, new_, old_) == d
  {
    hide RenameRuns;
    var n := RunLength(d);
    ShortUnchanged(d, new_, old_);
    ShortUnchanged(d[n..], new_, old_);
    assert d == d[..n] + d[n..];
  }

  /** A whole-token match is a whole run, and is renamed. */
  lemma RestMatch(d: seq<byte>, inside: bool, new_: seq<byte>, old_: seq<byte>)
    requires old_ != [] && AllTokens(old_) && WholeMatch(d, inside, old_)
    ensures Rest(d, inside, new_, old_) == new_ + Rest(d[|old_|..], IsTokenByte(d[|old_| - 1]), new_, old_)
  {
    var L := |old_|;
    var rest := d[L..];
    TokenFold(d[..L], old_);
    RunLengthIs(d, L);
    assert d[..L][0] == d[0] && d[..L][L - 1] == d[L - 1];
    assert rest != [] ==> rest[0] == d[L];
    RunLengthIs(rest, 0);
    assert rest[..0] + RenameRuns(rest[0..], new_, old_) == RenameRuns(rest, new_, old_) by {
      assert rest[0..] == rest;
    }
  }

  /** A byte outside every run is copied. */
  lemma RestSeparator(d: seq<byte>, inside: bool, new_: seq<byte>, old_: seq<byte>)
    requires d != [] && !IsTokenByte(d[0])
    ensures Rest(d, inside, new_, old_) == [d[0]] + Rest(d[1..], false, new_, old_)
  {
    RunLengthIs(d, 0);
    assert d[0..] == d;
  }

  /** So is a byte of a run that is not renamed. */
  lemma RestInRun(d: seq<byte>, inside: bool, new_: seq<byte>, old_: seq<byte>)
    requires d != [] && IsTokenByte(d[0])
    requires inside || !EqualFold(d[..RunLength(d)], old_)
    ensures Rest(d, inside, new_, old_) == [d[0]] + Rest(d[1..], true, new_, old_)
  {
    hide RenameRuns, RunLength, EqualFold, Rest, IsTokenByte;
    RunStep(d);
    RunFirst(d, inside, new_, old_);
    RestInside(d[1..], new_, old_);
    FirstOfRun(d, RunLength(d), RenameRuns(d[RunLength(d)..], new_, old_));
  }

  lemma FirstOfRun(d: seq<byte>, n: nat, rest: seq<byte>)
    requires 0 < n <= |d|
    ensures d[1..][n - 1..] == d[n..] && d[..n] + rest == [d[0]] + (d[1..][..n - 1] + rest)
  {
    assert d[..n] == [d[0]] + d[1..][..n - 1];
    Regroup([d[0]], d[1..][..n - 1], rest);
  }

  lemma RestInside(d: seq<byte>, new_: seq<byte>, old_: seq<byte>)
    ensures Rest(d, true, new_, old_) == d[..RunLength(d)] + RenameRuns(d[RunLength(d)..], new_, old_)
  {
  }

  lemma RunStep(d: seq<byte>)
    requires d != [] && IsTokenByte(d[0])
    ensures RunLength(d) == RunLength(d[1..]) + 1
  {
  }

  lemma RunFirst(d: seq<byte>, inside: bool, new_: seq<byte>, old_: seq<byte>)
    requires d != [] && IsTokenByte(d[0])
    requires inside || !EqualFold(d[..RunLength(d)], old_)
    ensures Rest(d, inside, new_, old_) == d[..RunLength(d)] + RenameRuns(d[RunLength(d)..], new_, old_)
  {
  }

  /** A run that is the old name would have been matched. */
  lemma NoMatchNoRun(d: seq<byte>, old_: seq<byte>)
    requires |old_| <= |d| && !WholeMatch(d, false, old_)
    ensures !EqualFold(d[..RunLength(d)], old_)
  {
  }

  lemma {:induction false} ScanIsRest(d: seq<byte>, inside: bool, new_: seq<byte>, old_: seq<byte>)
    requires old_ != [] && AllTokens(old_)
    ensures Scan(d, inside, new_, old_) == Rest(d, inside, new_, old_)
    decreases |d|
  {
    hide Rest, RenameRuns, RunLength, EqualFold, WholeMatch, IsTokenByte, AllTokens;
    if |d| < |old_| {
      RestShort(d, inside, new_, old_);
    } else if WholeMatch(d, inside, old_) {
      ScanIsRest(d[|old_|..], IsTokenByte(d[|old_| - 1]), new_, old_);
      RestMatch(d, inside, new_, old_);
    } else {
      ScanIsRest(d[1..], IsTokenByte(d[0]), new_, old_);
      if IsTokenByte(d[0]) {
        if !inside {
          NoMatchNoRun(d, old_);
        }
        RestInRun(d, inside, new_, old_);
      } else {
        RestSeparator(d, inside, new_, old_);
      }
    }
  }

  /** Token-level renaming: for an old name made of token bytes the byte scanner does
      exactly what renaming whole token runs does. */
  lemma ScanIsRename(data: seq<byte>, new_: seq<byte>, old_: seq<byte>)
    requires old_ != [] && AllTokens(old_)
    ensures Scan(data, false, new_, old_) == RenameRuns(data, new_, old_)
  {
    ScanIsRest(data, false, new_, old_);
  }

  lemma {:induction false} NoRunRenamed(data: seq<byte>, new_: seq<byte>, old_: seq<byte>)
    requires !AllTokens(old_)
    ensures RenameRuns(data, new_, old_) == data
    decreases |data|
  {
    hide AllTokens, EqualFold, IsTokenByte;
    if data != [] {
      var n := RunLength(data);
      if IsTokenByte(data[0]) {
        if EqualFold(data[..n], old_) {
          TokenFold(data[..n], old_);
        }
        NoRunRenamed(data[n..], new_, old_);
        assert data == data[..n] + data[n..];
      } else {
        NoRunRenamed(data[1..], new_, old_);
        assert data == [data[0]] + data[1..];
      }
    }
  }

  /** For a name with any other byte it does not: the scanner then replaces text that
      spans several runs, starting with the name itself. */
  lemma ScanIsRenameIff(old_: seq<byte>)
    requires old_ != []
    ensures AllTokens(old_) <==>
      forall data: seq<byte>, new_: seq<byte> :: !EqualFold(old_, new_) ==>
        Scan(data, false, new_, old_) == RenameRuns(data, new_, old_)
  {
    if AllTokens(old_) {
      forall data: seq<byte>, new_: seq<byte>
        ensures Scan(data, false, new_, old_) == RenameRuns(data, new_, old_)
      {
        ScanIsRename(data, new_, old_);
      }
    } else {
      NoRunRenamed(old_, [], old_);
      assert old_[..|old_|] == old_;
      assert WholeMatch(old_, false, old_);
      assert Scan(old_, false, [], old_) == [] + Scan(old_[|old_|..], IsTokenByte(old_[|old_| - 1]), [], old_);
      assert Scan(old_, false, [], old_) != RenameRuns(old_, [], old_);
    }
  }

  // ---------------------------------------------------------------------------
  // Renaming twice

  predicate StartsOutside(data: seq<byte>) { data == [] || !IsTokenByte(data[0]) }

  lemma RenameKeepsStart(data: seq<byte>, new_: seq<byte>, old_: seq<byte>)
    requires StartsOutside(data)
    ensures StartsOutside(RenameRuns(data, new_, old_))
  {
  }

  /** A run in front of other text is renamed on its own. */
  lemma RenameFront(run: seq<byte>, rest: seq<byte>, new_: seq<byte>, old_: seq<byte>)
    requires AllTokens(run) && StartsOutside(rest) && old_ != []
    ensures RenameRuns(run + rest, new_, old_) == RenameRun(run, new_, old_) + RenameRuns(rest, new_, old_)
  {
    var data := run + rest;
    if run == [] {
      assert data == rest;
    } else {
      assert data[..|run|] == run && data[|run|..] == rest;
      assert data[0] == run[0];
      RunLengthIs(data, |run|);
    }
  }

  /** Once renamed, a body has no token left that is the old name: renaming it again
      changes nothing, provided the new name is one token (or empty) and not the old. */
  lemma {:induction false} RenameIdempotent(data: seq<byte>, new_: seq<byte>, old_: seq<byte>)
    requires old_ != [] && AllTokens(new_) && !EqualFold(new_, old_)
    ensures RenameRuns(RenameRuns(data, new_, old_), new_, old_) == RenameRuns(data, new_, old_)
    decreases |data|
  {
    if data != [] {
      if IsTokenByte(data[0]) {
        var n := RunLength(data);
        var run, rest := data[..n], data[n..];
        RenameIdempotent(rest, new_, old_);
        RenameKeepsStart(rest, new_, old_);
        RenameFront(RenameRun(run, new_, old_), RenameRuns(rest, new_, old_), new_, old_);
      } else {
        RenameIdempotent(data[1..], new_, old_);
        var out := RenameRuns(data, new_, old_);
        assert out[1..] == RenameRuns(data[1..], new_, old_);
      }
    }
  }

  // ---------------------------------------------------------------------------
  // In bytes and letters

  /** Equal, or the two cases of an ASCII letter. */
  predicate SameLetter(a: byte, b: byte) {
    || a == b
    || (a < 128 && b < 128 && 'A' <= (a as int) as char <= 'Z' && b == a + 32)
    || (a < 128 && b < 128 && 'A' <= (b as int) as char <= 'Z' && a == b + 32)
  }

  /** What the scanner compares: the case of ASCII letters is ignored, and nothing else. */
  lemma FoldMeans(a: seq<byte>, b: seq<byte>)
    ensures EqualFold(a, b) <==> |a| == |b| && forall i :: 0 <= i < |a| ==> SameLetter(a[i], b[i])
  {
    forall x: byte, y: byte
      ensures SameLetter(x, y) <==> ToLowByte(x) == ToLowByte(y)
    {
      LetterFolds(x, y);
    }
  }

  lemma LetterFolds(x: byte, y: byte)
    ensures SameLetter(x, y) <==> ToLowByte(x) == ToLowByte(y)
  {
  }

  /** What names are made of. */
  lemma TokenBytesAre(b: byte)
    ensures IsTokenByte(b) <==> b < 128 && var c := (b as int) as char;
              'a' <= c <= 'z' || 'A' <= c <= 'Z' || '0' <= c <= '9' || c in "-_./:"
  {
    if b < 128 {
      assert ((b as int) as char) as int == b as int;
    }
  }

  predicate EndsOutside(data: seq<byte>) { data == [] || !IsTokenByte(data[|data| - 1]) }

  /** Wherever a token run stands in a body, it becomes the new name if it is the old one in
      any case, and stays as it is otherwise, whatever is around it. */
  lemma {:induction false} RunRenamed(pre: seq<byte>, run: seq<byte>, post: seq<byte>, new_: seq<byte>, old_: seq<byte>)
    requires EndsOutside(pre) && run != [] && AllTokens(run) && StartsOutside(post) && old_ != []
    ensures RenameRuns(pre + run + post, new_, old_)
         == RenameRuns(pre, new_, old_)
            + (if |run| == |old_| && forall i :: 0 <= i < |run| ==> SameLetter(run[i], old_[i]) then new_ else run)
            + RenameRuns(post, new_, old_)
    decreases |pre|
  {
    hide EqualFold, SameLetter, IsTokenByte, AllTokens, RenameRuns;
    FoldMeans(run, old_);
    var out, tail := RenameRun(run, new_, old_), RenameRuns(post, new_, old_);
    if pre == [] {
      assert pre + run + post == run + post;
      RenameFront(run, post, new_, old_);
      RenameNothing(new_, old_);
    } else {
      var n := FirstPart(pre);
      var rest := pre[n..];
      RunRenamed(rest, run, post, new_, old_);
      var middle := RenameRuns(rest, new_, old_);
      var head := RenameHead(pre, run + post, n, new_, old_);
      assert RenameRuns(pre, new_, old_) == head + middle by {
        assert pre + [] == pre && rest + [] == rest;
        var same := RenameHead(pre, [], n, new_, old_);
      }
      Regroup(pre, run, post);
      Regroup(rest, run, post);
      Regroup(head, middle, out);
      Regroup(head, middle + out, tail);
    }
  }

  lemma RenameNothing(new_: seq<byte>, old_: seq<byte>)
    ensures RenameRuns([], new_, old_) == []
  {
  }

  /** The first run, or the first byte outside a run. */
  lemma FirstPart(pre: seq<byte>) returns (n: nat)
    requires pre != [] && EndsOutside(pre)
    ensures n == if IsTokenByte(pre[0]) then RunLength(pre) else 1
    ensures 0 < n <= |pre| && EndsOutside(pre[n..]) && (IsTokenByte(pre[0]) ==> n < |pre|)
  {
    n := if IsTokenByte(pre[0]) then RunLength(pre) else 1;
    assert n < |pre| || pre[..n][|pre| - 1] == pre[|pre| - 1];
  }

  /** The first run of `pre`, or its first byte outside a run, is renamed on its own. */
  lemma RenameHead(pre: seq<byte>, post: seq<byte>, n: nat, new_: seq<byte>, old_: seq<byte>)
    returns (head: seq<byte>)
    requires pre != [] && n == if IsTokenByte(pre[0]) then RunLength(pre) else 1
    requires n <= |pre| && (IsTokenByte(pre[0]) ==> 0 < n < |pre|)
    ensures head == if IsTokenByte(pre[0]) then RenameRun(pre[..n], new_, old_) else [pre[0]]
    ensures RenameRuns(pre + post, new_, old_) == head + RenameRuns(pre[n..] + post, new_, old_)
  {
    head := if IsTokenByte(pre[0]) then RenameRun(pre[..n], new_, old_) else [pre[0]];
    var data := pre + post;
    assert data[..n] == pre[..n] && data[n..] == pre[n..] + post;
    if IsTokenByte(pre[0]) {
      RunLengthIs(data, n);
    }
  }

  /** Text between runs is copied. */
  lemma {:induction false} OutsideCopied(data: seq<byte>, new_: seq<byte>, old_: seq<byte>)
    requires forall i :: 0 <= i < |data| ==> !IsTokenByte(data[i])
    ensures RenameRuns(data, new_, old_) == data
  {
    if data != [] {
      OutsideCopied(data[1..], new_, old_);
      assert [data[0]] + data[1..] == data;
    }
  }
}
