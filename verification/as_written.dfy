/** Four places where Twitter.cpp reaches outside the data it owns, modelled
    as the code is written. The model works on the whole C array: `slots` has
    CAPACITY entries, the first `used` of them are the timeline and the rest
    hold whatever the memory held (the array is never initialised). An
    access past the array, or at index -1, gives `Undefined`. Each defect
    comes with an input that shows it and an all-inputs lemma that says
    exactly when the code agrees with the corrected operation in `Timeline`. */
module AsWritten {
  import opened Tweets
  import opened Timeline

  /** The outcome of code whose behaviour C++ leaves undefined on some inputs. */
  datatype Access<T> = Defined(value: T) | Undefined

  /** The whole tweet array and its used count. */
  predicate IsArray(slots: seq<Tweet>, used: int) {
    |slots| == CAPACITY && 0 <= used <= CAPACITY
  }

  /** A slot value used to fill examples. */
  const Blank: Tweet := Tweet(0, "", 0)

  // ---------------------------------------------------------------------
  // selectTweet scans positions 0 .. usedSize, one past the used entries.

  /** The scan from position `i` with the bound `i <= used`. */
  function ScanFrom(slots: seq<Tweet>, used: int, id: int, i: int): Access<int>
    requires 0 <= i <= used + 1
    decreases used + 1 - i
  {
    if i > used then Defined(-1)
    else if i >= |slots| then Undefined
    else if id == slots[i].id then Defined(i)
    else ScanFrom(slots, used, id, i + 1)
  }

  /** selectTweet as written, after the id has been read. */
  function SelectAsWritten(slots: seq<Tweet>, used: int, id: int): Access<int>
    requires IsArray(slots, used)
  {
    if used <= 0 then Defined(-1) else ScanFrom(slots, used, id, 0)
  }

  /** The scan from `i` finds the first match in `[i, used)`; failing that it
      reads slot `used`, which is past the array when the array is full. */
  lemma {:induction false} ScanFromMeaning(slots: seq<Tweet>, used: int, id: int, i: int)
    requires 0 <= i <= used <= |slots|
    ensures var k := SelectTweet(slots[i..used], id);
            ScanFrom(slots, used, id, i)
            == if k != -1 then Defined(i + k)
               else if used == |slots| then Undefined
               else if slots[used].id == id then Defined(used)
               else Defined(-1)
    decreases used - i
  {
    if i < used {
      var w := slots[i..used];
      assert w[0] == slots[i];
      assert w[1..] == slots[i + 1..used];
      var k := SelectTweet(slots[i + 1..used], id);
      assert SelectTweet(w, id) == if slots[i].id == id then 0 else if k == -1 then -1 else k + 1;
      ScanFromMeaning(slots, used, id, i + 1);
    }
  }

  /** The scan as written answers what the corrected search answers exactly
      when the timeline is empty, the id is among the used entries, or the
      slot just past them exists and holds another id. */
  lemma SelectAsWrittenAgreesIff(slots: seq<Tweet>, used: int, id: int)
    requires IsArray(slots, used)
    ensures SelectAsWritten(slots, used, id) == Defined(SelectTweet(slots[..used], id))
            <==> used == 0 || HasId(slots[..used], id) || (used < CAPACITY && slots[used].id != id)
  {
    if used > 0 {
      ScanFromMeaning(slots, used, id, 0);
      assert slots[0..used] == slots[..used];
    }
  }

  /** Uninitialised memory in the slot past the used entries that happens to
      hold the searched id is "found" there: the returned position 1 is not a
      tweet of a one-tweet timeline, while the corrected search answers -1. */
  lemma SelectFindsSlotPastEnd()
    ensures var slots := [Tweet(100, "A", 0), Tweet(101, "B", 0)] + seq(8, _ => Blank);
            && SelectAsWritten(slots, 1, 101) == Defined(1)
            && SelectTweet(slots[..1], 101) == -1
  {
  }

  /** On a full timeline an absent id makes the scan read past the array. */
  lemma SelectReadsPastFullArray()
    ensures var slots := seq(CAPACITY, i => Tweet(100 + i, "", 0));
            SelectAsWritten(slots, CAPACITY, 7) == Undefined
  {
  }

  // ---------------------------------------------------------------------
  // doDeleteTweet copies timeline[i + 1] for i up to usedSize - 1.

  /** The state doDeleteTweet works on. */
  datatype Memory = Memory(slots: seq<Tweet>, used: int, selected: int)

  /** The copying loop from position `i`. */
  function ShiftFrom(slots: seq<Tweet>, i: int, used: int): Access<seq<Tweet>>
    decreases used - i
  {
    if i >= used then Defined(slots)
    else if i < 0 || i + 1 >= |slots| then Undefined
    else ShiftFrom(slots[i := slots[i + 1]], i + 1, used)
  }

  /** doDeleteTweet as written: only -1 counts as "no selection". */
  function DeleteAsWritten(m: Memory): Access<Memory>
    requires IsArray(m.slots, m.used)
  {
    if m.selected == -1 then Defined(m)
    else
      match ShiftFrom(m.slots, m.selected, m.used)
      case Undefined => Undefined
      case Defined(a) => Defined(Memory(a, m.used - 1, -1))
  }

  /** The copying loop over `[i, used)` moves each slot one place to the
      front; it reads slot `used`, so it fails exactly when that is past the
      array. */
  lemma {:induction false} ShiftFromMeaning(slots: seq<Tweet>, i: int, used: int)
    requires 0 <= i < used <= |slots|
    ensures ShiftFrom(slots, i, used).Undefined? <==> used == |slots|
    ensures ShiftFrom(slots, i, used).Defined? ==>
              var a := ShiftFrom(slots, i, used).value;
              && |a| == |slots|
              && (forall k :: 0 <= k < i ==> a[k] == slots[k])
              && (forall k :: i <= k < used ==> a[k] == slots[k + 1])
    decreases used - i
  {
    if i + 1 < |slots| && i + 1 < used {
      ShiftFromMeaning(slots[i := slots[i + 1]], i + 1, used);
    }
  }

  /** With a tweet selected, the code deletes it as the corrected operation
      does exactly when the timeline is not full; when full it reads past the
      array. */
  lemma DeleteAsWrittenAgreesIff(slots: seq<Tweet>, used: int, sel: int)
    requires IsArray(slots, used)
    requires 0 <= sel < used
    ensures DeleteAsWritten(Memory(slots, used, sel)).Defined? <==> used < CAPACITY
    ensures DeleteAsWritten(Memory(slots, used, sel)).Defined? ==>
              var r := DeleteAsWritten(Memory(slots, used, sel)).value;
              && |r.slots| == CAPACITY
              && r.used == used - 1
              && r.selected == -1
              && r.slots[..r.used] == DeleteTweet(slots[..used], sel).timeline
  {
    ShiftFromMeaning(slots, sel, used);
    if used < CAPACITY {
      var r := DeleteAsWritten(Memory(slots, used, sel)).value;
      var d := DeleteTweet(slots[..used], sel).timeline;
      assert forall k :: 0 <= k < used - 1 ==> r.slots[..r.used][k] == d[k];
    }
  }

  /** Deleting the first tweet of a full timeline reads past the array. */
  lemma DeleteReadsPastFullArray()
    ensures var slots := seq(CAPACITY, i => Tweet(100 + i, "", 0));
            DeleteAsWritten(Memory(slots, CAPACITY, 0)) == Undefined
  {
  }

  /** A selection equal to usedSize, which the scan past the end can
      produce, is not rejected: the loop does not run and the last tweet
      silently leaves the timeline. */
  lemma DeleteAtUsedDropsLast(slots: seq<Tweet>, used: int)
    requires IsArray(slots, used) && used > 0
    ensures DeleteAsWritten(Memory(slots, used, used)) == Defined(Memory(slots, used - 1, -1))
  {
  }

  // ---------------------------------------------------------------------
  // doLikeTweet increments timeline[selected].likes in every case.

  /** doLikeTweet as written: the "no tweet" branch only prints, and the
      increment follows unconditionally. */
  function LikeAsWritten(slots: seq<Tweet>, used: int, sel: int): Access<seq<Tweet>>
    requires IsArray(slots, used)
  {
    if 0 <= sel < |slots| then Defined(slots[sel := slots[sel].(likes := slots[sel].likes + 1)])
    else Undefined
  }

  /** For every valid selection, the code likes as the corrected operation
      does exactly when a tweet is selected. */
  lemma LikeAsWrittenAgreesIff(slots: seq<Tweet>, used: int, sel: int)
    requires IsArray(slots, used)
    requires ValidSelection(slots[..used], sel)
    ensures (LikeAsWritten(slots, used, sel).Defined?
             && LikeAsWritten(slots, used, sel).value[..used] == LikeTweet(slots[..used], sel))
            <==> sel != -1
  {
  }

  /** Liking with no selection writes to index -1, where the documented
      behaviour is to change nothing. */
  lemma LikeWithoutSelectionWritesBeforeArray()
    ensures var slots := seq(CAPACITY, _ => Blank);
            && LikeAsWritten(slots, 0, -1) == Undefined
            && LikeTweet([], -1) == []
  {
  }

  // ---------------------------------------------------------------------
  // addTweet copies MSGSIZE characters from its argument.

  /** addTweet's copy as written: MSGSIZE characters, whatever the length of
      the source text. */
  function CopyAsWritten(src: seq<char>): Access<seq<char>> {
    if |src| < MSGSIZE then Undefined else Defined(src[..MSGSIZE])
  }

  /** The copy as written is defined exactly on sources of at least MSGSIZE
      characters, and then the copied buffer holds the same message. */
  lemma CopyAsWrittenAgreesIff(src: seq<char>)
    ensures CopyAsWritten(src).Defined? <==> |src| >= MSGSIZE
    ensures CopyAsWritten(src).Defined? ==> CopyMessage(CopyAsWritten(src).value) == CopyMessage(src)
  {
  }

  /** A short literal, as main passes for its starter tweets, makes the copy
      read past its end; the corrected copy yields its text. */
  lemma CopyReadsPastShortLiteral()
    ensures CopyAsWritten("A\0") == Undefined
    ensures CopyMessage("A\0") == "A"
  {
    CopyMessageRoundTrip("A");
    assert "A" + [NUL] == "A\0";
  }
}
