/** The sliding window of hit times that the limiters keep. */
module SlidingWindow {

  /** The hits inside the sliding window. */
  function Recent(hits: seq<real>, now: real, window: real): seq<real> {
    if hits == [] then []
    else
      var h := hits[|hits| - 1];
      Recent(hits[..|hits| - 1], now, window) + (if now - h < window then [h] else [])
  }

  lemma {:induction false} RecentIn(hits: seq<real>, now: real, window: real)
    ensures forall i :: 0 <= i < |Recent(hits, now, window)| ==> Recent(hits, now, window)[i] in hits
  {
    if hits != [] {
      RecentIn(hits[..|hits| - 1], now, window);
      assert hits == hits[..|hits| - 1] + [hits[|hits| - 1]];
    }
  }

  lemma {:induction false} RecentPast(hits: seq<real>, now: real, window: real, bound: real)
    requires forall i :: 0 <= i < |hits| ==> hits[i] <= bound
    ensures forall i :: 0 <= i < |Recent(hits, now, window)| ==> Recent(hits, now, window)[i] <= bound
    ensures now - bound >= window ==> Recent(hits, now, window) == []
  {
    if hits != [] {
      RecentPast(hits[..|hits| - 1], now, window, bound);
    }
  }

  lemma RecentEmpty(now: real, window: real)
    ensures Recent([], now, window) == []
  {
  }

  /** How many hits are later than `from`. */
  function CountAbove(hits: seq<real>, from: real): nat {
    if hits == [] then 0 else CountAbove(hits[..|hits| - 1], from) + (if hits[|hits| - 1] > from then 1 else 0)
  }

  lemma {:induction false} RecentCounts(hits: seq<real>, now: real, window: real, from: real)
    requires from >= now - window
    ensures CountAbove(Recent(hits, now, window), from) == CountAbove(hits, from)
  {
    if hits != [] {
      var n := |hits| - 1;
      RecentCounts(hits[..n], now, window, from);
      var r := Recent(hits[..n], now, window);
      if now - hits[n] < window {
        assert (r + [hits[n]])[..|r|] == r;
      } else {
        assert Recent(hits, now, window) == r;
      }
    }
  }

  lemma {:induction false} RecentAreAbove(hits: seq<real>, now: real, window: real)
    ensures |Recent(hits, now, window)| == CountAbove(hits, now - window)
  {
    if hits != [] {
      RecentAreAbove(hits[..|hits| - 1], now, window);
    }
  }

  lemma CountMore(hits: seq<real>, h: real, from: real)
    ensures CountAbove(hits + [h], from) == CountAbove(hits, from) + (if h > from then 1 else 0)
  {
    assert (hits + [h])[..|hits|] == hits;
  }

  lemma NoneAbove(from: real)
    ensures CountAbove([], from) == 0
  {
  }

  lemma {:induction false} RecentAtMost(hits: seq<real>, now: real, window: real, from: real)
    ensures CountAbove(Recent(hits, now, window), from) <= CountAbove(hits, from)
  {
    if hits != [] {
      var n := |hits| - 1;
      RecentAtMost(hits[..n], now, window, from);
      var r := Recent(hits[..n], now, window);
      if now - hits[n] < window {
        assert (r + [hits[n]])[..|r|] == r;
      } else {
        assert Recent(hits, now, window) == r;
      }
    }
  }
}
