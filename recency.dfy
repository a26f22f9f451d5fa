/** Ordering by creation time, newest first: what `.sort({ createdAt: -1 })` asks of the
    document store. The store's own sort is not visible; the model sorts by insertion,
    which keeps records with equal timestamps in stored order. */
module Recency {

  /** `s` is ordered by `stamp`, non-increasing (newest first). */
  ghost predicate NewestFirst<T>(s: seq<T>, stamp: T -> nat) {
    forall i, j :: 0 <= i < j < |s| ==> stamp(s[i]) >= stamp(s[j])
  }

  /** Puts `x` into an already ordered sequence, ahead of every record no newer than it. */
  function InsertByStamp<T>(x: T, s: seq<T>, stamp: T -> nat): (r: seq<T>)
    requires NewestFirst(s, stamp)
    ensures NewestFirst(r, stamp)
    ensures multiset(r) == multiset(s) + multiset{x}
    ensures |r| == |s| + 1
    ensures r[0] == x || (s != [] && r[0] == s[0])
  {
    if s == [] || stamp(x) >= stamp(s[0]) then
      PrependKeepsOrder(x, s, stamp);
      [x] + s
    else
      var tail := InsertByStamp(x, s[1..], stamp);
      PrependKeepsOrder(s[0], tail, stamp);
      assert multiset(s) == multiset{s[0]} + multiset(s[1..]) by {
        assert s == [s[0]] + s[1..];
      }
      [s[0]] + tail
  }

  /** A record no older than the head of an ordered sequence can go in front of it. */
  lemma PrependKeepsOrder<T>(h: T, t: seq<T>, stamp: T -> nat)
    requires NewestFirst(t, stamp)
    requires t == [] || stamp(h) >= stamp(t[0])
    ensures NewestFirst([h] + t, stamp)
  {
    var r := [h] + t;
    forall i, j | 0 <= i < j < |r|
      ensures stamp(r[i]) >= stamp(r[j])
    {
      if i == 0 {
        assert r[j] == t[j - 1];
        if j > 1 {
          assert stamp(t[0]) >= stamp(t[j - 1]);
        }
      } else {
        assert r[i] == t[i - 1] && r[j] == t[j - 1];
      }
    }
  }

  /** The records of `s` ordered newest first. */
  function SortNewestFirst<T>(s: seq<T>, stamp: T -> nat): (r: seq<T>)
    ensures NewestFirst(r, stamp)
    ensures multiset(r) == multiset(s)
    ensures |r| == |s|
  {
    if s == [] then []
    else
      assert s == [s[0]] + s[1..];
      InsertByStamp(s[0], SortNewestFirst(s[1..], stamp), stamp)
  }
}
