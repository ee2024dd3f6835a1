/** The three loops of the store, written as loops over the used prefix and
    proved to compute what the reference definitions in `Timeline` say. */
module Scans {
  import opened Tweets
  import opened Timeline

  /** Starting value of getNextId's running maximum. */
  const ID_SENTINEL: int := -110

  /** The larger of two integers. */
  function Max(a: int, b: int): int {
    if a > b then a else b
  }

  /** getNextId: a running maximum over the ids, starting from the sentinel. */
  method ScanNextId(t: seq<Tweet>) returns (next: int)
    ensures |t| == 0 ==> next == FIRST_ID
    ensures |t| > 0 ==> next == 1 + Max(MaxId(t), ID_SENTINEL)
    ensures IdsAtLeast(t, ID_SENTINEL) ==> next == NextId(t)
  {
    var maxId := ID_SENTINEL;
    if |t| == 0 {
      return FIRST_ID;
    }
    var i := 0;
    while i < |t|
      invariant 0 <= i <= |t|
      invariant i == 0 ==> maxId == ID_SENTINEL
      invariant i > 0 ==> maxId == Max(MaxId(t[..i]), ID_SENTINEL)
    {
      assert t[..i + 1][..i] == t[..i];
      if t[i].id > maxId {
        maxId := t[i].id;
      }
      i := i + 1;
    }
    assert t[..|t|] == t;
    next := maxId + 1;
  }

  /** selectTweet's search: the first position in `[0, |t|)` holding the id,
      or -1; an empty timeline answers -1 before any scan. */
  method ScanForId(t: seq<Tweet>, searchId: int) returns (pos: int)
    ensures pos == -1 <==> !HasId(t, searchId)
    ensures pos != -1 ==>
              0 <= pos < |t| && t[pos].id == searchId
              && forall j :: 0 <= j < pos ==> t[j].id != searchId
    ensures pos == SelectTweet(t, searchId)
  {
    if |t| <= 0 {
      return -1;
    }
    var i := 0;
    while i < |t|
      invariant 0 <= i <= |t|
      invariant forall j :: 0 <= j < i ==> t[j].id != searchId
    {
      if searchId == t[i].id {
        return i;
      }
      i := i + 1;
    }
    pos := -1;
  }

  /** doDeleteTweet's loop: each later entry is copied one place to the front,
      over the used entries only, and the last copy is dropped. */
  method ShiftLeft(t: seq<Tweet>, p: int) returns (r: seq<Tweet>)
    requires 0 <= p < |t|
    ensures |r| == |t| - 1
    ensures r == RemoveAt(t, p)
    ensures multiset(r) + multiset{t[p]} == multiset(t)
  {
    var a := t;
    var i := p;
    while i < |t| - 1
      invariant p <= i <= |t| - 1
      invariant |a| == |t|
      invariant forall k :: 0 <= k < p ==> a[k] == t[k]
      invariant forall k :: p <= k < i ==> a[k] == t[k + 1]
      invariant forall k :: i <= k < |t| ==> a[k] == t[k]
    {
      a := a[i := a[i + 1]];
      i := i + 1;
    }
    r := a[..|t| - 1];
    assert r == RemoveAt(t, p) by {
      assert forall k :: 0 <= k < |r| ==> r[k] == RemoveAt(t, p)[k];
    }
    assert multiset(r) + multiset{t[p]} == multiset(t) by {
      assert t == t[..p] + [t[p]] + t[p + 1..];
    }
  }
}
