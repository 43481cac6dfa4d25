/** The sample list of the on-screen FPS counter: the performance-counter
    readings of the most recent frames, at most 50 of them. The FPS value
    computed from them and the text drawing are floating point and font calls,
    and are not modelled. */
module FpsCounter {
  import opened Common

  const MaxSamples: nat := 50

  /** The newest `MaxSamples` elements of `s`, oldest first. */
  function Newest(s: seq<int32>): (r: seq<int32>)
    ensures |r| <= MaxSamples && |r| == if |s| <= MaxSamples then |s| else MaxSamples
    ensures forall k :: 0 <= k < |r| ==> r[k] == s[|s| - |r| + k]
  {
    if |s| <= MaxSamples then s else s[|s| - MaxSamples..]
  }

  /** One frame's update: drop the oldest sample when the list is full, then
      append the new one (`pop_front` then `push_back`). */
  function PushSample(times: seq<int32>, t: int32): (r: seq<int32>)
    requires |times| <= MaxSamples
    ensures r == Newest(times + [t])
  {
    (if |times| == MaxSamples then times[1..] else times) + [t]
  }

  /** The list after one update per reading of `ts`, in order. */
  function RecordAll(times: seq<int32>, ts: seq<int32>): (r: seq<int32>)
    requires |times| <= MaxSamples
    ensures |r| <= MaxSamples
    decreases |ts|
  {
    if ts == [] then times else RecordAll(PushSample(times, ts[0]), ts[1..])
  }

  /** Dropping elements from the front does not change the newest 50 as long
      as at least 50 remain. */
  lemma NewestOfSuffix(x: seq<int32>, k: nat)
    requires k + MaxSamples <= |x|
    ensures Newest(x[k..]) == Newest(x)
  {
    assert x[k..][|x| - k - MaxSamples..] == x[|x| - MaxSamples..];
  }

  lemma NewestOfNewest(a: seq<int32>, b: seq<int32>)
    ensures Newest(Newest(a) + b) == Newest(a + b)
  {
    if |a| > MaxSamples {
      var k := |a| - MaxSamples;
      assert Newest(a) + b == (a + b)[k..];
      NewestOfSuffix(a + b, k);
    }
  }

  /** One push followed by the rest is the newest samples of everything. */
  lemma PushThenRest(times: seq<int32>, t: int32, rest: seq<int32>)
    requires |times| <= MaxSamples
    ensures Newest(PushSample(times, t) + rest) == Newest(times + ([t] + rest))
  {
    NewestOfNewest(times + [t], rest);
    assert times + [t] + rest == times + ([t] + rest);
  }

  /** However many frames are recorded, the list holds exactly the newest
      50 readings of everything recorded so far. */
  lemma {:induction false} RecordAllKeepsNewest(times: seq<int32>, ts: seq<int32>)
    requires |times| <= MaxSamples
    ensures RecordAll(times, ts) == Newest(times + ts)
    decreases |ts|
  {
    if ts == [] {
      assert times + ts == times;
    } else {
      RecordAllKeepsNewest(PushSample(times, ts[0]), ts[1..]);
      PushThenRest(times, ts[0], ts[1..]);
      assert [ts[0]] + ts[1..] == ts;
    }
  }

  /** `static std::list<int> m_times` of `ShowFPS`. */
  class FpsSamples {
    var times: seq<int32>

    ghost predicate Valid()
      reads this
    {
      |times| <= MaxSamples
    }

    constructor ()
      ensures Valid() && times == []
    {
      times := [];
    }

    /** Record one reading of the performance counter; the 64-bit reading is
        truncated to `int` by `static_cast<int>`. */
    method Record(counter: int)
      requires Valid()
      modifies this
      ensures Valid()
      ensures times == PushSample(old(times), Wrap32(counter))
    {
      if |times| == MaxSamples {
        times := times[1..];
      }
      times := times + [Wrap32(counter)];
    }
  }
}
