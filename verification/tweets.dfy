/** The record kept for each tweet, and the fixed sizes of the timeline. */
module Tweets {

  /** Size of a tweet's character buffer, terminator included. */
  const MSGSIZE: int := 100

  /** Number of tweets the timeline array can hold. */
  const CAPACITY: int := 10

  /** Id given to a tweet added to an empty timeline. */
  const FIRST_ID: int := 100

  /** The C string terminator. */
  const NUL: char := '\0'

  /** The text of a tweet: what a buffer of MSGSIZE characters holds
      in front of its terminator, so at most MSGSIZE - 1 characters and no
      NUL among them. */
  type Message = m: seq<char> | |m| <= MSGSIZE - 1 && NUL !in m witness ""

  /** One timeline entry. */
  datatype Tweet = Tweet(id: int, msg: Message, likes: int)

  /** The C string held in `src`: the characters before the first NUL, at
      most `limit` of them, never reading past `src`. */
  function CText(src: seq<char>, limit: nat): (m: seq<char>)
    ensures |m| <= limit && |m| <= |src|
    ensures m == src[..|m|]
    ensures NUL !in m
    ensures |m| < limit && |m| < |src| ==> src[|m|] == NUL
    decreases limit
  {
    if limit == 0 || |src| == 0 || src[0] == NUL then []
    else [src[0]] + CText(src[1..], limit - 1)
  }

  /** The corrected copy: the message text of a C string buffer. */
  function CopyMessage(src: seq<char>): (m: Message)
    ensures |m| <= |src| && m == src[..|m|] && NUL !in m
    ensures |m| < MSGSIZE - 1 && |m| < |src| ==> src[|m|] == NUL
  {
    CText(src, MSGSIZE - 1)
  }

  /** A NUL-free text that fits is read back exactly from its terminated
      buffer. */
  lemma CopyMessageRoundTrip(s: seq<char>)
    requires NUL !in s && |s| <= MSGSIZE - 1
    ensures CopyMessage(s + [NUL]) == s
  {
    var src := s + [NUL];
    var m := CopyMessage(src);
    assert forall i :: 0 <= i < |s| ==> src[i] == s[i] && src[i] != NUL;
    assert forall i :: 0 <= i < |m| ==> m[i] == src[i];
    assert src[|s|] == NUL;
    assert |m| == |s|;
    assert src[..|s|] == s;
  }
}
