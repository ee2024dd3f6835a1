/** The state `main` keeps between menu choices, and what each choice does
    to it. */
module Store {
  import opened Tweets
  import opened Timeline

  /** The used prefix of the tweet array and the selected position (-1: none). */
  datatype Store = Store(timeline: seq<Tweet>, selected: int)

  /** What every reachable state satisfies. */
  predicate Valid(s: Store) {
    && |s.timeline| <= CAPACITY
    && IdsDistinct(s.timeline)
    && IdsAtLeast(s.timeline, FIRST_ID)
    && LikesNonNegative(s.timeline)
    && ValidSelection(s.timeline, s.selected)
  }

  /** main's rule after Select and Add: a returned position replaces the
      selection only when it is above -1. */
  function Adopt(selected: int, returned: int): int {
    if returned > -1 then returned else selected
  }

  /** The menu choices. The text a choice reads from the console is carried
      in the command. */
  datatype Command =
    | Display
    | Select(searchId: int)
    | Add(msg: Message)
    | Edit(msg: Message)
    | Like
    | Delete
    | Exit

  /** One pass of main's menu loop. Only the choices that name a timeline
      operation touch the timeline, and only Select, Add and Delete move the
      selection. */
  function Step(s: Store, c: Command): (r: Store)
    requires Valid(s)
    ensures c.Display? || c.Exit? ==> r == s
    ensures c.Select? ==> r.timeline == s.timeline
    ensures c.Edit? || c.Like? ==>
              && r.selected == s.selected
              && |r.timeline| == |s.timeline|
              && forall i :: 0 <= i < |s.timeline| ==> r.timeline[i].id == s.timeline[i].id
  {
    match c
    case Display => s
    case Select(id) => s.(selected := Adopt(s.selected, SelectTweet(s.timeline, id)))
    case Add(m) =>
      var a := AddTweet(s.timeline, m);
      Store(a.timeline, Adopt(s.selected, a.pos))
    case Edit(m) => s.(timeline := EditTweet(s.timeline, s.selected, m))
    case Like => s.(timeline := LikeTweet(s.timeline, s.selected))
    case Delete =>
      var d := DeleteTweet(s.timeline, s.selected);
      Store(d.timeline, d.selected)
    case Exit => s
  }

  /** Adopting a position that is -1 or a valid position keeps the selection
      valid, and the selection follows exactly the positions above -1. */
  lemma AdoptKeepsSelectionValid(t: seq<Tweet>, selected: int, returned: int)
    requires ValidSelection(t, selected)
    requires returned == -1 || 0 <= returned < |t|
    ensures ValidSelection(t, Adopt(selected, returned))
    ensures Adopt(selected, returned) == selected <==> returned == -1 || returned == selected
  {
  }

  /** Adding keeps the store valid and selects the new tweet; a full store
      is left as it was. */
  lemma AddPreservesValid(s: Store, m: Message)
    requires Valid(s)
    ensures Valid(Step(s, Add(m)))
    ensures |s.timeline| == CAPACITY ==> Step(s, Add(m)) == s
    ensures |s.timeline| < CAPACITY ==> Step(s, Add(m)).selected == |s.timeline|
  {
  }

  /** Deleting keeps the store valid and always clears the selection. */
  lemma DeletePreservesValid(s: Store)
    requires Valid(s)
    ensures Valid(Step(s, Delete))
    ensures Step(s, Delete).selected == -1
  {
  }

  /** Every menu choice keeps the store valid. */
  lemma StepPreservesValid(s: Store, c: Command)
    requires Valid(s)
    ensures Valid(Step(s, c))
  {
    match c
    case Add(m) => AddPreservesValid(s, m);
    case Delete => DeletePreservesValid(s);
    case _ =>
  }

  /** The menu loop run over a sequence of choices; like main's do-while it
      ends at the first Exit. */
  function Run(s: Store, cs: seq<Command>): Store
    requires Valid(s)
    decreases |cs|
  {
    if |cs| == 0 || cs[0].Exit? then s
    else
      StepPreservesValid(s, cs[0]);
      Run(Step(s, cs[0]), cs[1..])
  }

  /** Any run of the menu loop keeps the store valid. */
  lemma {:induction false} RunPreservesValid(s: Store, cs: seq<Command>)
    requires Valid(s)
    ensures Valid(Run(s, cs))
    decreases |cs|
  {
    if |cs| > 0 && !cs[0].Exit? {
      StepPreservesValid(s, cs[0]);
      RunPreservesValid(Step(s, cs[0]), cs[1..]);
    }
  }

  /** Choices after the first Exit have no effect. */
  lemma {:induction false} RunStopsAtExit(s: Store, cs: seq<Command>, k: int)
    requires Valid(s)
    requires 0 <= k < |cs| && cs[k].Exit?
    requires forall j :: 0 <= j < k ==> !cs[j].Exit?
    ensures Run(s, cs) == Run(s, cs[..k])
    decreases k
  {
    if k > 0 {
      StepPreservesValid(s, cs[0]);
      assert cs[..k][1..] == cs[1..][..k - 1];
      RunStopsAtExit(Step(s, cs[0]), cs[1..], k - 1);
    }
  }

  /** The state main starts from: no tweets, no selection. */
  const Empty: Store := Store([], -1)

  /** main's three starter tweets, passed as C strings: the state the menu
      loop starts from holds their texts under ids 100, 101, 102 and selects
      the third. */
  function Seeded(b1: seq<char>, b2: seq<char>, b3: seq<char>): (r: Store)
    ensures Valid(r)
    ensures r.selected == 2
    ensures r.timeline == [Tweet(100, CopyMessage(b1), 0), Tweet(101, CopyMessage(b2), 0),
                           Tweet(102, CopyMessage(b3), 0)]
  {
    var m1, m2, m3 := CopyMessage(b1), CopyMessage(b2), CopyMessage(b3);
    StartersValid(m1, m2, m3);
    Starters(m1, m2, m3)
  }

  /** The three addTweet calls before the menu loop; each result is stored
      as the selection directly. */
  function Starters(m1: Message, m2: Message, m3: Message): Store {
    var a1 := AddTweet([], m1);
    var a2 := AddTweet(a1.timeline, m2);
    var a3 := AddTweet(a2.timeline, m3);
    Store(a3.timeline, a3.pos)
  }

  /** The starter tweets get ids 100, 101, 102 and no likes, the third one
      is selected, and the state is valid. */
  lemma StartersValid(m1: Message, m2: Message, m3: Message)
    ensures var s := Starters(m1, m2, m3);
            && s.timeline == [Tweet(100, m1, 0), Tweet(101, m2, 0), Tweet(102, m3, 0)]
            && s.selected == 2
            && Valid(s)
  {
    var x := Tweet(100, m1, 0);
    var y := Tweet(101, m2, 0);
    var z := Tweet(102, m3, 0);
    assert AddTweet([], m1) == Added([x], 0);
    assert NextId([x]) == 101 by {
      assert MaxId([x]) == 100;
    }
    assert AddTweet([x], m2) == Added([x, y], 1);
    assert NextId([x, y]) == 102 by {
      assert [x, y][..1] == [x];
      assert MaxId([x, y]) == 101;
    }
    assert AddTweet([x, y], m3) == Added([x, y, z], 2);
  }

  /** Selecting a present id and liking adds one like to that tweet and
      changes nothing else. */
  lemma SelectThenLike(s: Store, p: int)
    requires Valid(s)
    requires 0 <= p < |s.timeline|
    ensures var r := Step(Step(s, Select(s.timeline[p].id)), Like);
            && r.selected == p
            && |r.timeline| == |s.timeline|
            && r.timeline[p] == s.timeline[p].(likes := s.timeline[p].likes + 1)
            && forall i :: 0 <= i < |s.timeline| && i != p ==> r.timeline[i] == s.timeline[i]
  {
  }
}
