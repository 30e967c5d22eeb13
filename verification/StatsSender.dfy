/** The sinkhole's counters and the task that reports their growth. */
module StatsSender {
  import opened Bytes
  import opened StatsLine
  import opened StatsCollector

  class Sender {
    const node: bytes
    var counters: Counters
    var last: Counters

    /** Every interval so far, whether its datagram was sent or dropped. */
    ghost var intervals: seq<Report>

    ghost predicate Valid()
      reads this
    {
      && WellFormed(counters) && WellFormed(last) && WellFormedReports(intervals)
      && 0 < |node| < NAME_SIZE && SPACE !in node
      && last == Last(intervals, node)
    }

    constructor (nodeIp: bytes)
      requires 0 < |nodeIp| < NAME_SIZE && SPACE !in nodeIp
      ensures Valid() && node == nodeIp && counters == last == ZERO && intervals == []
    {
      node := nodeIp;
      counters, last := ZERO, ZERO;
      intervals := [];
    }

    method CountBlocked()
      requires Valid()
      modifies this`counters
      ensures Valid() && counters == old(counters).(blocked := Add32(old(counters).blocked, 1))
    {
      counters := counters.(blocked := Add32(counters.blocked, 1));
    }

    method CountTimeout()
      requires Valid()
      modifies this`counters
      ensures Valid() && counters == old(counters).(timeouts := Add32(old(counters).timeouts, 1))
    {
      counters := counters.(timeouts := Add32(counters.timeouts, 1));
    }

    method CountForwarded(us: u32)
      requires Valid()
      modifies this`counters
      ensures Valid()
      ensures counters.blocked == old(counters).blocked && counters.timeouts == old(counters).timeouts
      ensures counters.forwarded == Add32(old(counters).forwarded, 1)
      ensures counters.latSum == Add32(old(counters).latSum, us)
      ensures forall b :: 0 <= b < BUCKETS ==>
                counters.hist[b] == if b == LatBucket(us) then Add32(old(counters).hist[b], 1) else old(counters).hist[b]
    {
      hide LatBucket;
      var b := LatBucket(us);
      counters := counters.(forwarded := Add32(counters.forwarded, 1), latSum := Add32(counters.latSum, us),
                            hist := counters.hist[b := Add32(counters.hist[b], 1)]);
    }

    /**
     * One interval: the growth since the previous one is what a datagram carries, if it can be sent at all
     * (canSend: a socket and a resolved target). The snapshot advances either way.
     */
    method SendOnce(canSend: bool, uptime: nat) returns (datagram: Option<bytes>)
      requires Valid() && uptime < Pow10(13)
      modifies this`last, this`intervals
      ensures Valid() && last == counters
      ensures intervals == old(intervals) + [Report(node, counters, uptime)]
      ensures datagram.Some? <==> canSend
      ensures canSend ==> datagram == Some(Line(node, Delta(intervals, |intervals| - 1), uptime))
    {
      var cur := counters;
      var d := Minus(cur, last);
      ghost var before := intervals;
      hide Minus, Line;
      last := cur;
      intervals := intervals + [Report(node, cur, uptime)];
      assert intervals[..|before|] == before;
      assert d == Delta(intervals, |before|);
      if !canSend {
        return None;
      }
      LineFits(node, d, uptime);
      var line := Line(node, d, uptime);
      return if |line| == 0 || |line| >= LINE_SIZE then None else Some(line);
    }
  }
}
