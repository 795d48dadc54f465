/** The spinning reel shown while a random pick is pending (Roulette.tsx):
    a shuffled prefix of the catalog, repeated twice so that scrolling by
    half the reel's height lands on an identical picture. */
module Roulette {
  import opened Types

  /** At most this many episodes appear in one copy of the reel. */
  const MaxReelEpisodes: nat := 30

  /** Height, in pixels, of one reel item. */
  const ItemHeight: nat := 480

  function Min(a: nat, b: nat): nat {
    if a <= b then a else b
  }

  /** The number of distinct reel slots for a catalog of n episodes. */
  function CopyLength(n: nat): nat {
    Min(MaxReelEpisodes, n)
  }

  /** The reel built from an already shuffled list: its first
      `min(30, n)` items, twice. */
  function ReelOf(shuffled: seq<Episode>): (reel: seq<Episode>)
    ensures |reel| == 2 * CopyLength(|shuffled|)
    ensures reel[..CopyLength(|shuffled|)] == reel[CopyLength(|shuffled|)..]
    ensures reel[..CopyLength(|shuffled|)] == shuffled[..CopyLength(|shuffled|)]
    ensures multiset(reel[..CopyLength(|shuffled|)]) <= multiset(shuffled)
  {
    var k := CopyLength(|shuffled|);
    var shortList := shuffled[..k];
    assert shuffled == shortList + shuffled[k..];
    assert (shortList + shortList)[..k] == shortList;
    assert (shortList + shortList)[k..] == shortList;
    shortList + shortList
  }

  /** `reelItems`: the catalog shuffled by an arbitrary permutation (the
      random comparator of the source), then cut and doubled. */
  method BuildReel(episodes: seq<Episode>) returns (reel: seq<Episode>)
    ensures |reel| == 2 * CopyLength(|episodes|)
    ensures reel[..CopyLength(|episodes|)] == reel[CopyLength(|episodes|)..]
    ensures forall e :: e in reel ==> e in episodes
    ensures multiset(reel[..CopyLength(|episodes|)]) <= multiset(episodes)
  {
    var shuffled :| multiset(shuffled) == multiset(episodes);
    assert |shuffled| == |multiset(shuffled)| == |episodes|;
    reel := ReelOf(shuffled);
    forall e | e in reel
      ensures e in episodes
    {
      var i :| 0 <= i < |reel| && reel[i] == e;
      var k := CopyLength(|episodes|);
      var j := if i < k then i else i - k;
      assert reel[j] == reel[..k][j] == shuffled[..k][j] == shuffled[j];
      if i >= k {
        assert reel[i] == reel[k..][j] == reel[..k][j];
      }
      assert e in multiset(shuffled);
    }
  }

  /** `totalHeight`: every reel item stacked. */
  function TotalHeight(reel: seq<Episode>): (h: nat)
    ensures h % ItemHeight == 0 && h / ItemHeight == |reel|
  {
    |reel| * ItemHeight
  }

  /** The keyframe end offset: half the total height, which is exact
      because an item's height is even; for an even-length reel it spans
      the first half of the items. */
  function LoopOffset(reel: seq<Episode>): (o: nat)
    ensures 2 * o == |reel| * ItemHeight
    ensures |reel| % 2 == 0 ==> o == (|reel| / 2) * ItemHeight
  {
    HalfHeight(|reel|);
    TotalHeight(reel) / 2
  }

  /** `count` items of even height split into two equal heights; an even
      count splits into two equal item counts. */
  lemma HalfHeight(count: nat)
    ensures (count * ItemHeight) % 2 == 0
    ensures count % 2 == 0 ==> (count * ItemHeight) / 2 == (count / 2) * ItemHeight
  {
    var half := count * (ItemHeight / 2);
    assert count * ItemHeight == 2 * half;
    if count % 2 == 0 {
      var m := count / 2;
      assert count == 2 * m;
      assert half == m * ItemHeight;
    }
  }

  /** The animation scrolls exactly one copy: the offset is
      `min(30, n)` items, and the item found that far below any slot of the
      first copy is the same episode, so restarting the animation is
      invisible. */
  lemma SeamlessLoop(shuffled: seq<Episode>)
    ensures LoopOffset(ReelOf(shuffled)) == CopyLength(|shuffled|) * ItemHeight
    ensures forall i :: 0 <= i < CopyLength(|shuffled|) ==>
      ReelOf(shuffled)[i] == ReelOf(shuffled)[i + LoopOffset(ReelOf(shuffled)) / ItemHeight]
  {
    var reel := ReelOf(shuffled);
    var k := CopyLength(|shuffled|);
    assert TotalHeight(reel) == 2 * (k * ItemHeight);
    assert LoopOffset(reel) == k * ItemHeight;
    assert LoopOffset(reel) / ItemHeight == k;
    forall i | 0 <= i < k
      ensures reel[i] == reel[i + k]
    {
      assert reel[i] == reel[..k][i] == reel[k..][i] == reel[i + k];
    }
  }
}
