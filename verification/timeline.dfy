/** The timeline operations, stated over the used prefix of the tweet array:
    `t` below is the sequence `timeline[0 .. usedSize)`, and a selection is a
    position in it or -1 for "no tweet selected". */
module Timeline {
  import opened Tweets

  /** No two tweets share an id. */
  predicate IdsDistinct(t: seq<Tweet>) {
    forall i, j :: 0 <= i < j < |t| ==> t[i].id != t[j].id
  }

  /** Every id is at least `lo`. */
  predicate IdsAtLeast(t: seq<Tweet>, lo: int) {
    forall i :: 0 <= i < |t| ==> t[i].id >= lo
  }

  /** No like count is negative. */
  predicate LikesNonNegative(t: seq<Tweet>) {
    forall i :: 0 <= i < |t| ==> t[i].likes >= 0
  }

  /** Some tweet carries the id. */
  predicate HasId(t: seq<Tweet>, id: int) {
    exists i :: 0 <= i < |t| && t[i].id == id
  }

  /** `sel` names a tweet of `t`, or is -1 (no selection). */
  predicate ValidSelection(t: seq<Tweet>, sel: int) {
    sel == -1 || 0 <= sel < |t|
  }

  /** The highest id of a non-empty timeline, taken over growing prefixes
      as the scan in getNextId does. */
  function MaxId(t: seq<Tweet>): (m: int)
    requires |t| > 0
    ensures forall i :: 0 <= i < |t| ==> t[i].id <= m
    ensures HasId(t, m)
  {
    if |t| == 1 then t[0].id
    else
      var front := MaxId(t[..|t| - 1]);
      assert forall i :: 0 <= i < |t| - 1 ==> t[..|t| - 1][i] == t[i];
      if t[|t| - 1].id > front then t[|t| - 1].id else front
  }

  /** The id the next added tweet receives. */
  function NextId(t: seq<Tweet>): (r: int)
    ensures |t| == 0 ==> r == FIRST_ID
    ensures |t| > 0 ==> HasId(t, r - 1)
    ensures forall i :: 0 <= i < |t| ==> t[i].id < r
  {
    if |t| == 0 then FIRST_ID else MaxId(t) + 1
  }

  /** Position of the first tweet with the id, or -1; only `[0, |t|)` is
      scanned. */
  function SelectTweet(t: seq<Tweet>, id: int): (pos: int)
    ensures -1 <= pos < |t|
    ensures pos == -1 <==> !HasId(t, id)
    ensures pos >= 0 ==> t[pos].id == id
    ensures pos >= 0 ==> forall j :: 0 <= j < pos ==> t[j].id != id
  {
    if |t| == 0 then -1
    else if t[0].id == id then 0
    else
      var k := SelectTweet(t[1..], id);
      assert forall j :: 1 <= j < |t| ==> t[1..][j - 1] == t[j];
      if k == -1 then -1 else k + 1
  }

  /** Result of addTweet: the new timeline and the added position, or -1. */
  datatype Added = Added(timeline: seq<Tweet>, pos: int)

  /** Appends a tweet with a fresh id and no likes, unless the timeline is full. */
  function AddTweet(t: seq<Tweet>, m: Message): (r: Added)
    requires |t| <= CAPACITY
    ensures |t| == CAPACITY ==> r.pos == -1 && r.timeline == t
    ensures |t| < CAPACITY ==>
              && r.pos == |t|
              && |r.timeline| == |t| + 1
              && r.timeline[..|t|] == t
              && r.timeline[|t|].id == NextId(t)
              && r.timeline[|t|].msg == m
              && r.timeline[|t|].likes == 0
  {
    if |t| == CAPACITY then Added(t, -1)
    else Added(t + [Tweet(NextId(t), m, 0)], |t|)
  }

  /** Replaces the message of the selected tweet; a selection that names no
      tweet (-1 included) changes nothing. */
  function EditTweet(t: seq<Tweet>, sel: int, m: Message): (r: seq<Tweet>)
    ensures |r| == |t|
    ensures !(0 <= sel < |t|) ==> r == t
    ensures 0 <= sel < |t| ==>
              r[sel].msg == m && r[sel].id == t[sel].id && r[sel].likes == t[sel].likes
    ensures forall i :: 0 <= i < |t| && i != sel ==> r[i] == t[i]
  {
    if !(0 <= sel < |t|) then t
    else t[sel := t[sel].(msg := m)]
  }

  /** Adds one like to the selected tweet; a selection that names no tweet
      (-1 included) changes nothing. */
  function LikeTweet(t: seq<Tweet>, sel: int): (r: seq<Tweet>)
    ensures |r| == |t|
    ensures !(0 <= sel < |t|) ==> r == t
    ensures 0 <= sel < |t| ==>
              r[sel].likes == t[sel].likes + 1 && r[sel].id == t[sel].id && r[sel].msg == t[sel].msg
    ensures forall i :: 0 <= i < |t| && i != sel ==> r[i] == t[i]
  {
    if !(0 <= sel < |t|) then t
    else t[sel := t[sel].(likes := t[sel].likes + 1)]
  }

  /** The timeline with entry `p` taken out and the later entries moved one
      place towards the front. */
  function RemoveAt(t: seq<Tweet>, p: int): (r: seq<Tweet>)
    requires 0 <= p < |t|
    ensures |r| == |t| - 1
    ensures forall i :: 0 <= i < p ==> r[i] == t[i]
    ensures forall i :: p <= i < |r| ==> r[i] == t[i + 1]
  {
    t[..p] + t[p + 1..]
  }

  /** Result of doDeleteTweet: the new timeline and the new selection. */
  datatype Deleted = Deleted(timeline: seq<Tweet>, selected: int)

  /** Deletes the selected tweet and clears the selection; a selection that
      names no tweet (-1 included) changes nothing. */
  function DeleteTweet(t: seq<Tweet>, sel: int): (r: Deleted)
    ensures !(0 <= sel < |t|) ==> r == Deleted(t, sel)
    ensures 0 <= sel < |t| ==>
              && |r.timeline| == |t| - 1
              && r.selected == -1
              && multiset(r.timeline) + multiset{t[sel]} == multiset(t)
              && (forall i :: 0 <= i < sel ==> r.timeline[i] == t[i])
              && (forall i :: sel <= i < |r.timeline| ==> r.timeline[i] == t[i + 1])
  {
    if !(0 <= sel < |t|) then Deleted(t, sel)
    else
      assert t == t[..sel] + [t[sel]] + t[sel + 1..];
      Deleted(RemoveAt(t, sel), -1)
  }

  /** The id of a tweet in a timeline without duplicate ids finds exactly
      that tweet. */
  lemma SelectFindsUniquePosition(t: seq<Tweet>, p: int)
    requires IdsDistinct(t)
    requires 0 <= p < |t|
    ensures SelectTweet(t, t[p].id) == p
  {
  }

  /** The new id is larger than every present id, so an added timeline keeps
      its ids distinct and bounded below. */
  lemma AddKeepsIdsDistinct(t: seq<Tweet>, m: Message)
    requires |t| <= CAPACITY
    requires IdsDistinct(t) && IdsAtLeast(t, FIRST_ID)
    ensures IdsDistinct(AddTweet(t, m).timeline)
    ensures IdsAtLeast(AddTweet(t, m).timeline, FIRST_ID)
  {
  }

  /** A deleted id no longer occurs when ids were distinct. */
  lemma DeleteForgetsId(t: seq<Tweet>, sel: int)
    requires IdsDistinct(t)
    requires 0 <= sel < |t|
    ensures IdsDistinct(DeleteTweet(t, sel).timeline)
    ensures !HasId(DeleteTweet(t, sel).timeline, t[sel].id)
  {
  }

  /** Ids are not a counter: once the tweet holding the highest id is gone,
      the next id is at most the deleted one, so it can be issued again. */
  lemma NextIdAfterDeletingMax(t: seq<Tweet>, p: int)
    requires IdsDistinct(t) && IdsAtLeast(t, FIRST_ID)
    requires 0 <= p < |t|
    requires t[p].id == MaxId(t)
    ensures NextId(RemoveAt(t, p)) <= t[p].id
  {
  }

  /** Adding, deleting the added tweet and adding again issues the same id
      twice at the same position: ids are recomputed from the timeline, not
      drawn from a counter. */
  lemma AddDeleteAddReissuesId(t: seq<Tweet>, m1: Message, m2: Message)
    requires |t| < CAPACITY
    ensures var a1 := AddTweet(t, m1);
            var d := DeleteTweet(a1.timeline, a1.pos);
            var a2 := AddTweet(d.timeline, m2);
            && a2.pos == a1.pos
            && a2.timeline[a2.pos].id == a1.timeline[a1.pos].id
  {
    var a1 := AddTweet(t, m1);
    assert DeleteTweet(a1.timeline, a1.pos).timeline == t by {
      assert a1.timeline[..|t|] == t;
    }
  }

  /** The worked session, first part: three adds from empty give ids 100,
      101, 102 at positions 0, 1, 2. */
  lemma ExampleAdds()
    ensures var t1 := AddTweet([], "A");
            var t2 := AddTweet(t1.timeline, "B");
            var t3 := AddTweet(t2.timeline, "C");
            && [t1.pos, t2.pos, t3.pos] == [0, 1, 2]
            && t3.timeline == [Tweet(100, "A", 0), Tweet(101, "B", 0), Tweet(102, "C", 0)]
  {
    var a := Tweet(100, "A", 0);
    var b := Tweet(101, "B", 0);
    var c := Tweet(102, "C", 0);
    assert AddTweet([], "A") == Added([a], 0);
    assert NextId([a]) == 101 by {
      assert MaxId([a]) == 100;
    }
    assert AddTweet([a], "B") == Added([a, b], 1);
    assert NextId([a, b]) == 102 by {
      assert [a, b][..1] == [a];
      assert MaxId([a, b]) == 101;
    }
    assert AddTweet([a, b], "C") == Added([a, b, c], 2);
  }

  /** The worked session, second part: id 101 is found at 1; liking it gives
      it one like; deleting it leaves 100 and 102 and no selection. */
  lemma ExampleSelectLikeDelete()
    ensures var t := [Tweet(100, "A", 0), Tweet(101, "B", 0), Tweet(102, "C", 0)];
            && SelectTweet(t, 101) == 1
            && LikeTweet(t, 1)[1].likes == 1
            && DeleteTweet(LikeTweet(t, 1), 1)
               == Deleted([Tweet(100, "A", 0), Tweet(102, "C", 0)], -1)
  {
    var a := Tweet(100, "A", 0);
    var b := Tweet(101, "B", 0);
    var c := Tweet(102, "C", 0);
    SelectFindsUniquePosition([a, b, c], 1);
    var liked := [a, b.(likes := 1), c];
    assert LikeTweet([a, b, c], 1) == liked;
    assert RemoveAt(liked, 1) == [a, c];
  }
}
