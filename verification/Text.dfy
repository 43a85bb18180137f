/** The string operations names are normalised with, on ASCII text. */
module Text {

  predicate IsSpace(c: char) {
    c == ' ' || c == '\t' || c == '\n' || c == '\r' || c == '\U{0B}' || c == '\U{0C}'
  }

  function TrimLeft(s: string): (t: string)
    ensures |t| <= |s|
    ensures t == [] || !IsSpace(t[0])
  {
    if s == [] then [] else if IsSpace(s[0]) then TrimLeft(s[1..]) else s
  }

  function TrimRight(s: string): (t: string)
    ensures |t| <= |s|
    ensures t == [] || !IsSpace(t[|t| - 1])
  {
    if s == [] then []
    else if IsSpace(s[|s| - 1]) then TrimRight(s[..|s| - 1]) else s
  }

  /** `strings.TrimSpace`. */
  function Trim(s: string): string { TrimRight(TrimLeft(s)) }

  function LowerChar(c: char): char {
    if 'A' <= c <= 'Z' then (c as int + 32) as char else c
  }

  /** `strings.ToLower`. */
  function Lower(s: string): (t: string)
    ensures |t| == |s|
    ensures forall i :: 0 <= i < |s| ==> t[i] == LowerChar(s[i])
  {
    if s == [] then [] else [LowerChar(s[0])] + Lower(s[1..])
  }

  lemma TrimRightKeepsFirst(s: string)
    requires s != [] && !IsSpace(s[0])
    ensures TrimRight(s) != [] && TrimRight(s)[0] == s[0]
  {
  }

  lemma TrimFixed(s: string)
    requires s == [] || (!IsSpace(s[0]) && !IsSpace(s[|s| - 1]))
    ensures Trim(s) == s
  {
  }

  /** Trimming twice is trimming once. */
  lemma TrimIdempotent(s: string)
    ensures Trim(Trim(s)) == Trim(s)
  {
    var l := TrimLeft(s);
    if l != [] {
      TrimRightKeepsFirst(l);
      TrimFixed(TrimRight(l));
    }
  }

  lemma LowerIdempotent(s: string)
    ensures Lower(Lower(s)) == Lower(s)
  {
  }

  /** Lower-casing a trimmed name leaves it trimmed. */
  lemma TrimLower(s: string)
    ensures Trim(Lower(Trim(s))) == Lower(Trim(s))
  {
    var t := Trim(s);
    if TrimLeft(s) != [] {
      TrimRightKeepsFirst(TrimLeft(s));
    }
    TrimFixed(Lower(t));
  }

  function NormalName(s: string): string { Lower(Trim(s)) }

  /** Normalising a name a second time changes nothing. */
  lemma NormalNameIdempotent(s: string)
    ensures NormalName(NormalName(s)) == NormalName(s)
  {
    TrimLower(s);
    LowerIdempotent(Trim(s));
  }

  lemma {:induction false} TrimLeftMeans(s: string) returns (i: nat)
    ensures i <= |s| && TrimLeft(s) == s[i..] && forall k :: 0 <= k < i ==> s[k] in " \t\n\r\U{0B}\U{0C}"
  {
    i := 0;
    if s != [] && IsSpace(s[0]) {
      i := TrimLeftMeans(s[1..]);
      i := i + 1;
    }
  }

  lemma {:induction false} TrimRightMeans(s: string) returns (j: nat)
    ensures j <= |s| && TrimRight(s) == s[..j] && forall k :: j <= k < |s| ==> s[k] in " \t\n\r\U{0B}\U{0C}"
  {
    j := |s|;
    if s != [] && IsSpace(s[|s| - 1]) {
      j := TrimRightMeans(s[..|s| - 1]);
    }
  }

  /** Trimming takes spaces off both ends, and as many as there are. */
  lemma TrimMeans(s: string) returns (i: nat, j: nat)
    ensures i <= j <= |s| && Trim(s) == s[i..j]
    ensures forall k :: 0 <= k < i || j <= k < |s| ==> s[k] in " \t\n\r\U{0B}\U{0C}"
    ensures i < j ==> s[i] !in " \t\n\r\U{0B}\U{0C}" && s[j - 1] !in " \t\n\r\U{0B}\U{0C}"
  {
    i := TrimLeftMeans(s);
    j := TrimRightMeans(s[i..]);
    j := i + j;
    assert s[i..j] == s[i..][..j - i];
    forall k | j <= k < |s|
      ensures s[k] in " \t\n\r\U{0B}\U{0C}"
    {
      assert s[k] == s[i..][k - i];
    }
    if i < j {
      TrimRightKeepsFirst(s[i..]);
    }
  }

  /** Capital letters become the small ones at the same place of the alphabet; nothing else
      changes. */
  lemma LowerMeans(s: string, i: nat)
    requires i < |s|
    ensures 'A' <= s[i] <= 'Z' ==> Lower(s)[i] as int - 'a' as int == s[i] as int - 'A' as int
    ensures s[i] < 'A' || 'Z' < s[i] ==> Lower(s)[i] == s[i]
  {
    assert Lower(s)[i] == LowerChar(s[i]);
  }
}
