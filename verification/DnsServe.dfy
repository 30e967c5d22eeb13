/** One turn of the serve loop: parse, match, answer NXDOMAIN, replay from the cache, or forward. */
module DnsServe {
  import opened Bytes
  import opened Bits
  import opened Text
  import opened Hash
  import opened Normalize
  import opened DnsWire
  import opened LeftDrop
  import opened DnsCache

  const MAX_TRIES: nat := 4

  /** What one recv on the upstream socket delivers. */
  datatype Recv = Failed | Datagram(data: bytes)

  /** Everything one turn of the loop gets from outside. */
  datatype Turn = Turn(
    packet: Option<bytes>,          // None: receive timeout
    lookup: (nat, u64) -> bool,     // answers of the list lookups of this turn
    now: int,
    sendOk: bool,
    recvs: nat -> Recv)

  ghost predicate WellFormedTurn(t: Turn) {
    && (t.packet.Some? ==> |t.packet.value| <= DNS_MAX_PKT)
    && forall k: nat :: t.recvs(k).Datagram? ==> |t.recvs(k).data| <= DNS_MAX_PKT
  }

  // ---- upstream ------------------------------------------------------------------------------------

  /** A response to this query: long enough, same ID, QR set. */
  predicate Matches(query: bytes, d: bytes)
    requires |query| >= 2
  {
    |d| >= HEADER && d[0] == query[0] && d[1] == query[1] && QrSet(d[2])
  }

  /** The first matching datagram from attempt k on, unless a receive fails first. */
  function FirstMatch(query: bytes, recvs: nat -> Recv, k: nat): (r: Option<bytes>)
    requires |query| >= 2
    ensures r.Some? ==> Matches(query, r.value) && exists j: nat :: recvs(j) == Datagram(r.value)
    decreases MAX_TRIES - k
  {
    if k >= MAX_TRIES then None else
    match recvs(k)
    case Failed => None
    case Datagram(d) => if Matches(query, d) then Some(d) else FirstMatch(query, recvs, k + 1)
  }

  function Upstream(query: bytes, sendOk: bool, recvs: nat -> Recv): (r: Option<bytes>)
    requires |query| >= 2
    ensures r.Some? ==> Matches(query, r.value) && exists j: nat :: recvs(j) == Datagram(r.value)
  {
    if sendOk then FirstMatch(query, recvs, 0) else None
  }

  /** A datagram that answers the query: at least 12 bytes, its ID, QR set. */
  predicate Answers(query: bytes, r: Recv)
    requires |query| >= 2
  {
    r.Datagram? && |r.data| >= 12 && r.data[0] == query[0] && r.data[1] == query[1] && r.data[2] >= 128
  }

  /** Attempt k, one of four, brings the first answer, and every earlier one brought some other datagram. */
  ghost predicate FirstAnswer(query: bytes, recvs: nat -> Recv, k: nat)
    requires |query| >= 2
  {
    k < 4 && Answers(query, recvs(k)) && forall j: nat :: j < k ==> recvs(j).Datagram? && !Answers(query, recvs(j))
  }

  lemma {:induction false} FirstMatchIs(query: bytes, recvs: nat -> Recv, k: nat)
    requires |query| >= 2 && k <= 4 && forall j: nat :: j < k ==> recvs(j).Datagram? && !Answers(query, recvs(j))
    ensures match FirstMatch(query, recvs, k)
            case Some(d) => exists m: nat :: FirstAnswer(query, recvs, m) && d == recvs(m).data
            case None => forall m: nat :: !FirstAnswer(query, recvs, m)
    decreases 4 - k
  {
    if k < 4 && recvs(k).Datagram? {
      FlagBits(if |recvs(k).data| > 2 then recvs(k).data[2] else 0);
      hide QrSet;
      if Matches(query, recvs(k).data) {
        assert FirstAnswer(query, recvs, k);
      } else {
        FirstMatchIs(query, recvs, k + 1);
      }
    }
  }

  /** The upstream answer is that first answer; without a send or without one there is none. */
  lemma UpstreamIsFirst(query: bytes, sendOk: bool, recvs: nat -> Recv)
    requires |query| >= 2
    ensures forall k: nat :: sendOk && FirstAnswer(query, recvs, k) ==>
              Upstream(query, sendOk, recvs) == Some(recvs(k).data)
    ensures !sendOk || (forall k: nat :: !FirstAnswer(query, recvs, k)) ==> Upstream(query, sendOk, recvs) == None
  {
    FirstMatchIs(query, recvs, 0);
    hide FirstMatch, Matches;
    forall k: nat, m: nat | FirstAnswer(query, recvs, k) && FirstAnswer(query, recvs, m) ensures k == m {
    }
  }

  // ---- the cache key -----------------------------------------------------------------------------------

  type u16 = x: int | 0 <= x < 65536

  function Xor16(a: u16, b: u16): (r: u16) {
    Pow2Values();
    Xor(a, b, 16)
  }

  function XorHigh(high: u32, qtype: u16): u32 { high - high % 65536 + Xor16(high % 65536, qtype) }

  /** h ^ (qtype << 32): only bits 32 to 47 can change. */
  function CacheKey(h: u64, qtype: u16): (key: u64) {
    h % TWO_32 + TWO_32 * XorHigh(h / TWO_32, qtype)
  }

  /** One name's answers of different types never share a key. */
  lemma TypesKeptApart(h: u64, q1: u16, q2: u16)
    requires CacheKey(h, q1) == CacheKey(h, q2)
    ensures q1 == q2
  {
    Pow2Values();
    XorInjective(h / TWO_32 % 65536, q1, q2, 16);
  }

  /**
   * Two hashes meet under two types exactly when they differ by the types' difference in bits 32 to 47. So with one
   * type only equal hashes meet, and one hash never meets itself under two types.
   */
  lemma KeysMeetExactly(h1: u64, t1: u16, h2: u64, t2: u16)
    ensures CacheKey(h1, t1) == CacheKey(h2, t2) <==>
              && h1 % 0x1_0000_0000 == h2 % 0x1_0000_0000 && h1 / 0x1_0000_0000_0000 == h2 / 0x1_0000_0000_0000
              && Xor16(h1 / 0x1_0000_0000 % 0x1_0000, h2 / 0x1_0000_0000 % 0x1_0000) == Xor16(t1, t2)
    ensures CacheKey(h1, t1) == CacheKey(h2, t2) ==> (h1 == h2 <==> t1 == t2)
  {
    KeyParts(h1, t1);
    KeyParts(h2, t2);
    MiddleMeets(h1 / 0x1_0000_0000 % 0x1_0000, t1, h2 / 0x1_0000_0000 % 0x1_0000, t2);
    hide CacheKey, Xor16;
  }

  /** The three parts of a key: bits 0 to 31 and 48 to 63 are the hash's. */
  lemma KeyParts(h: u64, t: u16)
    ensures h == h % 0x1_0000_0000 + 0x1_0000_0000 * (h / 0x1_0000_0000 % 0x1_0000)
                 + 0x1_0000_0000_0000 * (h / 0x1_0000_0000_0000)
    ensures CacheKey(h, t) % 0x1_0000_0000 == h % 0x1_0000_0000
    ensures CacheKey(h, t) / 0x1_0000_0000 % 0x1_0000 == Xor16(h / 0x1_0000_0000 % 0x1_0000, t)
    ensures CacheKey(h, t) / 0x1_0000_0000_0000 == h / 0x1_0000_0000_0000
    ensures CacheKey(h, t) == CacheKey(h, t) % 0x1_0000_0000 + 0x1_0000_0000 * (CacheKey(h, t) / 0x1_0000_0000 % 0x1_0000)
                              + 0x1_0000_0000_0000 * (CacheKey(h, t) / 0x1_0000_0000_0000)
  {
    hide Xor16;
  }

  lemma MiddleMeets(m1: u16, t1: u16, m2: u16, t2: u16)
    ensures Xor16(m1, t1) == Xor16(m2, t2) <==> Xor16(m1, m2) == Xor16(t1, t2)
    ensures Xor16(m1, t1) == Xor16(m2, t2) ==> (m1 == m2 <==> t1 == t2)
  {
    Pow2Values();
    hide Xor;
    XorSwap(m1, t1, m2, t2, 16);
    if m1 == m2 && Xor16(m1, t1) == Xor16(m2, t2) {
      XorInjective(m1, t1, t2, 16);
    }
    if t1 == t2 && Xor16(m1, t1) == Xor16(m2, t2) {
      XorSymmetric(m1, t1, 16);
      XorSymmetric(m2, t1, 16);
      XorInjective(t1, m1, m2, 16);
    }
  }

  /** Different hashes can meet: these two do under the types A and AAAA. */
  lemma KeysCanMeet()
    ensures CacheKey(0, 1) == CacheKey(29 * 0x1_0000_0000, 28)
  {
    Pow2Values();
    XorZero(29, 16);
    XorZero(14, 15);
    assert Xor(1, 28, 16) == 1 + 2 * Xor(0, 14, 15);
    hide CacheKey, Xor;
    KeysMeetExactly(0, 1, 29 * 0x1_0000_0000, 28);
  }

  function QType(pkt: bytes, q: Question): u16
    requires 4 <= q.end <= |pkt|
  {
    pkt[q.end - 4] as int * 256 + pkt[q.end - 3]
  }

  function QueryKey(pkt: bytes, q: Question): u64
    requires 4 <= q.end <= |pkt|
  {
    CacheKey(DomainHash(CStr(q.name)), QType(pkt, q))
  }

  /** The key of a query is made of its name and of the two type bytes behind the encoded name. */
  lemma KeyOfQuery(pkt: bytes, labels: seq<bytes>, q: Question)
    requires Encodes(pkt, labels, q)
    ensures var at := 12 + |EncodeName(labels)|;
            && at + 4 == q.end
            && QueryKey(pkt, q) == CacheKey(DomainHash(CStr(Lower(Dotted(labels)))), 256 * (pkt[at] as int) + pkt[at + 1])
  {
    hide CacheKey, DomainHash, CStr, Lower, Dotted, EncodeName;
  }

  /** A cached answer replayed under the query's own ID. */
  function WithId(data: bytes, pkt: bytes): bytes
    requires |pkt| >= 2 && |data| >= 2
  {
    [pkt[0], pkt[1]] + data[2..]
  }

  // ---- the server ------------------------------------------------------------------------------------------

  /** An answer fit to be sent: 12 to 1500 bytes with QR set. */
  predicate GoodAnswer(d: bytes) { HEADER <= |d| <= DNS_MAX_PKT && QrSet(d[2]) }

  ghost predicate GoodReply(reply: bytes, pkt: bytes) {
    GoodAnswer(reply) && |pkt| >= 2 && reply[0] == pkt[0] && reply[1] == pkt[1]
  }

  /** Every answer ever inserted is fit to be sent and filed under its own key. */
  ghost predicate GoodLog(latest: map<u64, Item>) {
    forall key :: key in latest ==> latest[key].key == key && GoodAnswer(latest[key].data)
  }

  class Server {
    const pkt: array<byte>
    const ans: array<byte>
    const name: array<byte>
    const cache: Cache

    ghost predicate Valid()
      reads this, cache, cache.entries
    {
      && pkt.Length == ans.Length == DNS_MAX_PKT && name.Length == DNS_MAX_NAME
      && pkt != ans && pkt != name && ans != name
      && cache.Valid() && GoodLog(cache.latest)
    }

    constructor ()
      ensures Valid() && cache.Exact() && cache.List() == []
      ensures fresh(pkt) && fresh(ans) && fresh(name) && fresh(cache) && fresh(cache.entries)
    {
      pkt := new byte[DNS_MAX_PKT];
      ans := new byte[DNS_MAX_PKT];
      name := new byte[DNS_MAX_NAME];
      cache := new Cache();
    }

    /** recvfrom: the datagram lands at the start of the packet buffer. */
    method Receive(data: bytes)
      requires |data| <= pkt.Length
      modifies pkt
      ensures pkt[..|data|] == data
    {
      for i := 0 to |data|
        invariant pkt[..i] == data[..i]
      {
        pkt[i] := data[i];
      }
    }

    /** Sends the query and waits for the matching answer; its length, or -1. */
    method ForwardUpstream(query: bytes, sendOk: bool, recvs: nat -> Recv) returns (len: int)
      requires |query| >= 2 && forall k: nat :: recvs(k).Datagram? ==> |recvs(k).data| <= ans.Length
      modifies ans
      ensures len < 0 <==> Upstream(query, sendOk, recvs).None?
      ensures len >= 0 ==> len <= ans.Length && ans[..len] == Upstream(query, sendOk, recvs).value
      ensures forall k: nat :: sendOk && FirstAnswer(query, recvs, k) ==>
                0 <= len <= ans.Length && ans[..len] == recvs(k).data
      ensures !sendOk || (forall k: nat :: !FirstAnswer(query, recvs, k)) ==> len < 0
    {
      UpstreamIsFirst(query, sendOk, recvs);
      hide FirstAnswer;
      if !sendOk {
        return -1;
      }
      for tries := 0 to MAX_TRIES
        invariant FirstMatch(query, recvs, 0) == FirstMatch(query, recvs, tries)
      {
        match recvs(tries) {
          case Failed => return -1;
          case Datagram(d) =>
            for i := 0 to |d|
              invariant ans[..i] == d[..i]
            {
              ans[i] := d[i];
            }
            assert ans[..|d|] == d;
            if |d| >= HEADER && ans[0] == query[0] && ans[1] == query[1] && QrSet(ans[2]) {
              return |d|;
            }
        }
      }
      return -1;
    }

    /** The name buffer read as a C string. */
    method NameString(ghost q: Question) returns (host: bytes)
      requires |q.name| < name.Length && name[..|q.name|] == q.name && name[|q.name|] == 0
      ensures host == CStr(q.name)
    {
      var all := name[..];
      host := all[..IndexOf(all, 0)];
      CStrStopsAtNul(all, q.name);
    }

    /** The live cached answer for a key: the last one inserted under it, at most 300 s ago, not yet evicted. */
    ghost function Live(key: u64, now: int): (a: Option<bytes>)
      reads this, cache, cache.entries
      requires Valid()
      ensures a.Some? ==> key in cache.latest && a.value == cache.latest[key].data && GoodAnswer(a.value)
      ensures a.Some? <==> cache.Cached(key) && key in cache.latest && now - cache.latest[key].inserted <= 300_000_000
    {
      if cache.Cached(key) && !Expired(cache.latest[key], now) then Some(cache.latest[key].data) else None
    }

    /** The cache array is an exact recency list and its clock has a tick left. */
    ghost predicate InStep()
      reads this, cache, cache.entries
    {
      cache.Exact() && cache.clock < CLOCK_MAX
    }

    lemma LiveInList(key: u64, now: int)
      requires Valid() && cache.Exact()
      ensures Live(key, now) == LiveIn(cache.List(), key, now)
    {
      cache.LatestInList(key);
    }

    /** Replay a live answer, or forward and remember the answer. */
    method Consult(query: bytes, key: u64, t: Turn) returns (reply: Option<bytes>)
      requires Valid() && WellFormedTurn(t) && |query| >= 2
      modifies ans, cache, cache.entries
      ensures Valid() && cache.entries == old(cache.entries)
      ensures match old(Live(key, t.now))
              case Some(a) => reply == Some(WithId(a, query)) && cache.latest == old(cache.latest)
              case None =>
                && reply == Upstream(query, t.sendOk, t.recvs)
                && cache.latest == if reply.None? then old(cache.latest)
                                   else old(cache.latest)[key := Item(key, t.now, reply.value)]
      ensures old(InStep()) ==>
                && cache.Exact() && cache.clock <= old(cache.clock) + 1
                && cache.List() == Resolved(old(cache.List()), key, t.now, Upstream(query, t.sendOk, t.recvs))
    {
      hide FindInList, InsertInList, Position, Recency, Ordered, DistinctKeys, Latest, QrSet, FirstMatch, IsVictim;
      if InStep() {
        LiveInList(key, t.now);
      }
      var hit := cache.Find(key, t.now);
      if hit >= 0 {
        var e := cache.entries[hit];
        return Some(WithId(e.data, query));
      }
      var len := ForwardUpstream(query, t.sendOk, t.recvs);
      if len < 0 {
        return None;
      }
      var answer := ans[..len];
      var _ := cache.Insert(key, answer, t.now);
      return Some(answer);
    }

    /** A query that is not blocked: its key is made of the name and the type. */
    method Resolve(query: bytes, q: Question, t: Turn) returns (reply: Option<bytes>)
      requires Valid() && WellFormedTurn(t) && ReadQuestion(query) == Some(q)
      requires name[..|q.name|] == q.name && name[|q.name|] == 0
      modifies ans, cache, cache.entries
      ensures Valid() && cache.entries == old(cache.entries)
      ensures var key := QueryKey(query, q);
              match old(Live(key, t.now))
              case Some(a) => reply == Some(WithId(a, query)) && cache.latest == old(cache.latest)
              case None =>
                && reply == Upstream(query, t.sendOk, t.recvs)
                && cache.latest == if reply.None? then old(cache.latest)
                                   else old(cache.latest)[key := Item(key, t.now, reply.value)]
      ensures old(InStep()) ==>
                && cache.Exact() && cache.clock <= old(cache.clock) + 1
                && cache.List() == Resolved(old(cache.List()), QueryKey(query, q), t.now, Upstream(query, t.sendOk, t.recvs))
    {
      hide CacheKey, DomainHash, CStr, Live, Resolved, Upstream, InStep, GoodLog;
      var host := NameString(q);
      var h := ComputeDomainHash(host);
      var key := CacheKey(h, QType(query, q));
      assert |query| >= HEADER;
      reply := Consult(query, key, t);
    }

    /** The query in the packet buffer becomes its NXDOMAIN reply. */
    method RefuseInPlace(query: bytes, end: nat) returns (reply: bytes)
      requires HEADER <= end <= |query| <= pkt.Length && pkt[..|query|] == query
      modifies pkt
      ensures reply == NxReply(query, end)
    {
      hide NxFlags;
      ghost var before := pkt[..];
      SliceOfSlice(before, 0, |query|, HEADER, end);
      assert forall k :: 0 <= k < HEADER ==> before[k] == query[k];
      var len := MakeNxdomain(pkt, end);
      return pkt[..len];
    }

    /** A turn from its parsed question on: the packet buffer holds the query and the name buffer its name. */
    method ServeQuestion(t: Turn, query: bytes, q: Question) returns (reply: Option<bytes>)
      requires Valid() && WellFormedTurn(t) && t.packet == Some(query) && ReadQuestion(query) == Some(q)
      requires |query| <= pkt.Length && pkt[..|query|] == query && name[..|q.name|] == q.name && name[|q.name|] == 0
      modifies pkt, ans, cache, cache.entries
      ensures Valid() && cache.entries == old(cache.entries)
      ensures reply == ReplyTo(t, old(Live(TurnKey(t), t.now)))
      ensures cache.latest == if Forwards(t, old(Live(TurnKey(t), t.now))) && reply.Some?
                              then old(cache.latest)[TurnKey(t) := Item(TurnKey(t), t.now, reply.value)]
                              else old(cache.latest)
      ensures old(InStep()) ==>
                && cache.Exact() && cache.clock <= old(cache.clock) + 1
                && GoodList(old(cache.List())) && reply == ReplyOn(old(cache.List()), t)
                && cache.List() == ListAfter(old(cache.List()), t)
    {
      hide ReadQuestion, QueryKey, Answer, NxReply, WithId, Upstream, GoodLog, Live, Resolved, LiveIn, GoodList,
        CStr, TurnKey, TurnQuestion, Blocked, Forwards, ReplyTo, ReplyOn, ListAfter, Consults;
      if InStep() {
        GoodLogList();
        LiveInList(TurnKey(t), t.now);
      }
      ghost var live := Live(TurnKey(t), t.now);
      QuestionMeans(t, query, q, live);
      if InStep() {
        QuestionOnList(cache.List(), t, query, q);
      }
      hide InStep;
      var host := NameString(q);
      var blocked := IsBlocked(host, t.lookup);
      if blocked {
        var refusal := RefuseInPlace(query, q.end);
        return Some(refusal);
      }
      reply := Resolve(query, q, t);
    }

    /** One turn: what is sent back, if anything. */
    method ServeOne(t: Turn) returns (reply: Option<bytes>)
      requires Valid() && WellFormedTurn(t)
      modifies pkt, ans, name, cache, cache.entries
      ensures Valid() && cache.entries == old(cache.entries)
      ensures Served(t, old(Live(TurnKey(t), t.now)), reply)
      ensures reply == ReplyTo(t, old(Live(TurnKey(t), t.now)))
      ensures cache.latest == if Forwards(t, old(Live(TurnKey(t), t.now))) && reply.Some?
                              then old(cache.latest)[TurnKey(t) := Item(TurnKey(t), t.now, reply.value)]
                              else old(cache.latest)
      ensures old(InStep()) ==>
                && cache.Exact() && cache.clock <= old(cache.clock) + 1
                && GoodList(old(cache.List())) && reply == ReplyOn(old(cache.List()), t)
                && cache.List() == ListAfter(old(cache.List()), t)
    {
      hide ReadQuestion, Answer, NxReply, WithId, Upstream, GoodLog, Live, Resolved, LiveIn, GoodList, CStr, Served, QrSet;
      if InStep() {
        GoodLogList();
        LiveInList(TurnKey(t), t.now);
      }
      ReplyServes(t, Live(TurnKey(t), t.now));
      hide InStep;
      if t.packet.None? {
        return None;
      }
      var query := t.packet.value;
      Receive(query);
      var end := ParseQuestion(pkt, |query|, name);
      if end < 0 {
        return None;
      }
      reply := ServeQuestion(t, query, ReadQuestion(query).value);
    }

    /** An exact recency list holds only answers that were inserted. */
    lemma GoodLogList()
      requires Valid() && cache.Exact()
      ensures GoodList(cache.List())
    {
      hide QrSet;
      var list := cache.List();
      forall k | 0 <= k < |list| ensures GoodAnswer(list[k].data) {
        var e := cache.entries[..][cache.order[k]];
        assert cache.latest[e.key] == list[k];
      }
    }

    /**
     * Any number of turns. Every reply is well-formed; and until the clock runs out the loop is exactly a server
     * over a recency list of 100 answers.
     */
    method ServeAll(turns: seq<Turn>) returns (replies: seq<Option<bytes>>)
      requires Valid() && forall i :: 0 <= i < |turns| ==> WellFormedTurn(turns[i])
      modifies pkt, ans, name, cache, cache.entries
      ensures Valid() && |replies| == |turns|
      ensures forall i :: 0 <= i < |turns| && replies[i].Some? ==>
                turns[i].packet.Some? && GoodReply(replies[i].value, turns[i].packet.value)
      ensures old(cache.Exact()) && old(cache.clock) + |turns| <= CLOCK_MAX ==>
                && cache.Exact() && GoodList(old(cache.List()))
                && cache.List() == ListAfterAll(old(cache.List()), turns)
                && replies == Replies(old(cache.List()), turns)
    {
      hide *;
      replies := [];
      ghost var exact := cache.Exact() && cache.clock + |turns| <= CLOCK_MAX;
      ghost var start, clock := if exact then cache.List() else [], cache.clock as int;
      if exact {
        GoodLogList();
      }
      NoTurns(start);
      assert turns[..0] == [];
      AllTurns(turns);
      for i := 0 to |turns|
        invariant Valid() && |replies| == i && cache.entries == old(cache.entries)
        invariant forall k :: 0 <= k < i && replies[k].Some? ==>
                    turns[k].packet.Some? && GoodReply(replies[k].value, turns[k].packet.value)
        invariant exact ==> GoodList(start) && AllWellFormed(turns[..i])
        invariant exact ==> cache.Exact() && cache.clock <= clock + i && cache.List() == ListAfterAll(start, turns[..i])
        invariant exact ==> replies == Replies(start, turns[..i])
      {
        if exact {
          NextTurn(start, turns, i);
          HasTick();
        }
        ghost var live := Live(TurnKey(turns[i]), turns[i].now);
        RepliesAreGood(turns[i], live);
        var reply := ServeOne(turns[i]);
        replies := replies + [reply];
      }
      assert turns[..|turns|] == turns;
    }

    lemma HasTick()
      requires cache.Exact() && cache.clock < CLOCK_MAX
      ensures InStep()
    {
    }
  }

  /** What a turn with a question answers. */
  lemma QuestionMeans(t: Turn, query: bytes, q: Question, live: Option<bytes>)
    requires t.packet == Some(query) && ReadQuestion(query) == Some(q) && (live.Some? ==> GoodAnswer(live.value))
    ensures TurnKey(t) == QueryKey(query, q) && (Blocked(t) <==> Answer(t.lookup, CStr(q.name)))
    ensures Blocked(t) ==> ReplyTo(t, live) == Some(NxReply(query, q.end)) && !Forwards(t, live)
    ensures !Blocked(t) ==>
              && ReplyTo(t, live) ==
                 (if live.Some? then Some(WithId(live.value, query)) else Upstream(query, t.sendOk, t.recvs))
              && (Forwards(t, live) <==> live.None?)
  {
    hide ReadQuestion, QueryKey, Answer, NxReply, WithId, Upstream, CStr;
  }

  lemma QuestionOnList(list: seq<Item>, t: Turn, query: bytes, q: Question)
    requires t.packet == Some(query) && ReadQuestion(query) == Some(q) && GoodList(list)
    ensures ReplyOn(list, t) == ReplyTo(t, LiveIn(list, TurnKey(t), t.now))
    ensures ListAfter(list, t) ==
            if Blocked(t) then list else Resolved(list, TurnKey(t), t.now, Upstream(query, t.sendOk, t.recvs))
  {
    hide ReadQuestion, TurnKey, Blocked, Resolved, Upstream;
  }

  // ---- the same server over a recency list -----------------------------------------------------------------

  ghost predicate GoodList(list: seq<Item>) { forall k :: 0 <= k < |list| ==> GoodAnswer(list[k].data) }

  ghost predicate AllWellFormed(turns: seq<Turn>) { forall i :: 0 <= i < |turns| ==> WellFormedTurn(turns[i]) }

  /** The list after a lookup and, on a miss, the insertion of the upstream answer. */
  function Resolved(list: seq<Item>, key: u64, now: int, answer: Option<bytes>): seq<Item> {
    var found := FindInList(list, key, now);
    if LiveIn(list, key, now).Some? || answer.None? then found else InsertInList(found, Item(key, now, answer.value))
  }

  /** A turn that consults the cache. */
  ghost predicate Consults(t: Turn) { TurnQuestion(t).Some? && !Blocked(t) }

  ghost function ListAfter(list: seq<Item>, t: Turn): seq<Item> {
    if !Consults(t) then list
    else Resolved(list, TurnKey(t), t.now, Upstream(t.packet.value, t.sendOk, t.recvs))
  }

  ghost function ReplyOn(list: seq<Item>, t: Turn): Option<bytes>
    requires GoodList(list)
  {
    ReplyTo(t, LiveIn(list, TurnKey(t), t.now))
  }

  ghost function ListAfterAll(list: seq<Item>, turns: seq<Turn>): seq<Item> {
    if turns == [] then list else ListAfter(ListAfterAll(list, turns[..|turns| - 1]), turns[|turns| - 1])
  }

  lemma GoodListAfter(list: seq<Item>, t: Turn)
    requires GoodList(list) && WellFormedTurn(t)
    ensures GoodList(ListAfter(list, t))
  {
    hide Blocked, TurnKey, QrSet;
  }

  lemma {:induction false} GoodListAfterAll(list: seq<Item>, turns: seq<Turn>)
    requires GoodList(list) && AllWellFormed(turns)
    ensures GoodList(ListAfterAll(list, turns))
  {
    hide GoodList, ListAfter, WellFormedTurn;
    if turns != [] {
      GoodListAfterAll(list, turns[..|turns| - 1]);
      GoodListAfter(ListAfterAll(list, turns[..|turns| - 1]), turns[|turns| - 1]);
    }
  }

  ghost function Replies(list: seq<Item>, turns: seq<Turn>): (rs: seq<Option<bytes>>)
    requires GoodList(list) && AllWellFormed(turns)
    ensures |rs| == |turns|
  {
    if turns == [] then []
    else
      GoodListAfterAll(list, turns[..|turns| - 1]);
      Replies(list, turns[..|turns| - 1]) + [ReplyOn(ListAfterAll(list, turns[..|turns| - 1]), turns[|turns| - 1])]
  }

  lemma NoTurns(list: seq<Item>)
    ensures AllWellFormed([]) && ListAfterAll(list, []) == list && (GoodList(list) ==> Replies(list, []) == [])
  {
  }

  lemma AllTurns(turns: seq<Turn>)
    requires forall i :: 0 <= i < |turns| ==> WellFormedTurn(turns[i])
    ensures AllWellFormed(turns)
  {
  }

  lemma NextTurn(list: seq<Item>, turns: seq<Turn>, i: nat)
    requires GoodList(list) && AllWellFormed(turns) && i < |turns|
    ensures AllWellFormed(turns[..i]) && AllWellFormed(turns[..i + 1]) && GoodList(ListAfterAll(list, turns[..i]))
    ensures ListAfterAll(list, turns[..i + 1]) == ListAfter(ListAfterAll(list, turns[..i]), turns[i])
    ensures Replies(list, turns[..i + 1]) ==
            Replies(list, turns[..i]) + [ReplyOn(ListAfterAll(list, turns[..i]), turns[i])]
  {
    hide WellFormedTurn, GoodList, ListAfter, ReplyOn;
    var upTo := turns[..i + 1];
    assert upTo[..i] == turns[..i] && upTo[i] == turns[i];
    GoodListAfterAll(list, turns[..i]);
  }

  /** Serving another key pushes an answer back by at most one place. */
  lemma OtherResolved(list: seq<Item>, key: u64, other: u64, now: int, answer: Option<bytes>)
    requires Position(list, key) < CACHE_SIZE - 1 && Position(list, key) < |list| && other != key
    ensures PushedBack(list, Resolved(list, other, now, answer), key)
  {
    hide Position, FindInList, InsertInList, LiveIn;
    OtherLookup(list, key, other, now);
    if LiveIn(list, other, now).None? && answer.Some? {
      MissPushesNothing(list, key, other, now);
      OtherInsertion(FindInList(list, other, now), key, Item(other, now, answer.value));
    }
  }

  lemma OtherTurn(list: seq<Item>, t: Turn, key: u64)
    requires Position(list, key) < CACHE_SIZE - 1 && Position(list, key) < |list|
    requires Consults(t) ==> TurnKey(t) != key
    ensures PushedBack(list, ListAfter(list, t), key)
  {
    if Consults(t) {
      OtherResolved(list, key, TurnKey(t), t.now, Upstream(t.packet.value, t.sendOk, t.recvs));
    }
  }

  lemma MissPushesNothing(list: seq<Item>, key: u64, other: u64, now: int)
    requires other != key && Position(list, key) < |list| && LiveIn(list, other, now).None?
    ensures var found := FindInList(list, other, now);
            Position(found, key) <= Position(list, key) && Position(found, key) < |found|
            && found[Position(found, key)] == list[Position(list, key)]
  {
    var p := Position(list, other);
    if p < |list| {
      assert list[p].key == other;
      PositionWithout(list, key, p);
      OtherTaken(list, key, p);
    }
  }

  /** The answer given last is replayed in any of the next 99 turns on other keys, until it is 300 s old. */
  lemma {:induction false} AnswerStays(list: seq<Item>, turns: seq<Turn>, now: int)
    requires list != [] && |turns| <= 99
    requires forall i :: 0 <= i < |turns| && Consults(turns[i]) ==> TurnKey(turns[i]) != list[0].key
    ensures var after, key := ListAfterAll(list, turns), list[0].key;
            && Position(after, key) <= |turns| && Position(after, key) < |after|
            && after[Position(after, key)] == list[0]
            && (now - list[0].inserted <= 300_000_000 ==> LiveIn(after, key, now) == Some(list[0].data))
  {
    if turns == [] {
      PositionIs(list, list[0].key, 0);
    } else {
      hide Position, Consults, TurnKey, ListAfter;
      var init := turns[..|turns| - 1];
      AnswerStays(list, init, now);
      OtherTurn(ListAfterAll(list, init), turns[|turns| - 1], list[0].key);
    }
  }

  /** So the next turn on its key, if within 99 turns and 300 s, is answered with it under the new query's ID. */
  lemma AnswerReplayed(list: seq<Item>, turns: seq<Turn>, t: Turn)
    requires list != [] && |turns| <= 99 && GoodList(list) && AllWellFormed(turns)
    requires forall i :: 0 <= i < |turns| && Consults(turns[i]) ==> TurnKey(turns[i]) != list[0].key
    requires Consults(t) && TurnKey(t) == list[0].key && t.now - list[0].inserted <= 300_000_000
    ensures GoodList(ListAfterAll(list, turns))
    ensures var reply := ReplyOn(ListAfterAll(list, turns), t);
            reply.Some? && Replays(reply.value, list[0].data, t.packet.value)
  {
    AnswerStays(list, turns, t.now);
    GoodListAfterAll(list, turns);
    hide ListAfterAll, LiveIn, TurnKey, Position, Upstream;
    var after := ListAfterAll(list, turns);
    assert LiveIn(after, TurnKey(t), t.now) == Some(list[0].data);
    assert ReplyTo(t, Some(list[0].data)) == Some(WithId(list[0].data, t.packet.value));
  }

  lemma CStrStopsAtNul(all: bytes, name: bytes)
    requires |name| < |all| && all[..|name|] == name && all[|name|] == 0
    ensures CStr(all) == CStr(name)
  {
    var i := IndexOf(name, 0);
    assert forall k :: 0 <= k < |name| ==> all[k] == name[k];
    IndexOfUnique(all, 0, i);
    assert all[..i] == name[..i];
  }

  // ---- what one turn answers ------------------------------------------------------------------------------

  ghost function TurnQuestion(t: Turn): Option<Question> {
    if t.packet.None? then None else ReadQuestion(t.packet.value)
  }

  ghost function TurnKey(t: Turn): u64 {
    match TurnQuestion(t)
    case Some(q) => QueryKey(t.packet.value, q)
    case None => 0
  }

  ghost predicate Blocked(t: Turn) {
    TurnQuestion(t).Some? && Answer(t.lookup, CStr(TurnQuestion(t).value.name))
  }

  ghost predicate Forwards(t: Turn, live: Option<bytes>) {
    TurnQuestion(t).Some? && !Blocked(t) && live.None?
  }

  /** NXDOMAIN for a blocked name, else the live cached answer under the query's ID, else the upstream answer. */
  ghost function ReplyTo(t: Turn, live: Option<bytes>): Option<bytes>
    requires live.Some? ==> GoodAnswer(live.value)
  {
    match TurnQuestion(t)
    case None => None
    case Some(q) =>
      var query := t.packet.value;
      if Blocked(t) then Some(NxReply(query, q.end))
      else if live.Some? then Some(WithId(live.value, query))
      else Upstream(query, t.sendOk, t.recvs)
  }

  /** The cached answer with the query's ID in place of its own. */
  ghost predicate Replays(r: bytes, answer: bytes, query: bytes) {
    |r| == |answer| && |r| >= 2 && |query| >= 2 && r[0] == query[0] && r[1] == query[1] && r[2..] == answer[2..]
  }

  /** What a query for q must be answered with, given the live cached answer under its key. */
  ghost predicate Answered(t: Turn, query: bytes, q: Question, live: Option<bytes>, reply: Option<bytes>)
    requires |query| >= 2
  {
    if Answer(t.lookup, CStr(q.name)) then reply.Some? && Refuses(reply.value, query, q.end)
    else if live.Some? then reply.Some? && Replays(reply.value, live.value, query)
    else
      && (forall k: nat :: t.sendOk && FirstAnswer(query, t.recvs, k) ==> reply == Some(t.recvs(k).data))
      && (!t.sendOk || (forall k: nat :: !FirstAnswer(query, t.recvs, k)) ==> reply == None)
  }

  /** What a turn must answer: nothing unless the packet is a query that starts with an encoded name. */
  ghost predicate Served(t: Turn, live: Option<bytes>, reply: Option<bytes>) {
    && (reply.Some? ==> t.packet.Some? && QueryHeader(t.packet.value)
                        && exists labels, q :: Encodes(t.packet.value, labels, q))
    && (t.packet.Some? && QueryHeader(t.packet.value) ==>
          forall labels, q :: Encodes(t.packet.value, labels, q) ==> Answered(t, t.packet.value, q, live, reply))
  }

  lemma ReplyServes(t: Turn, live: Option<bytes>)
    requires live.Some? ==> GoodAnswer(live.value)
    ensures Served(t, live, ReplyTo(t, live))
  {
    var reply := ReplyTo(t, live);
    hide ReadQuestion, Encodes, QueryHeader, ReplyTo, Answered, QrSet;
    if reply.Some? {
      assert t.packet.Some? && ReadQuestion(t.packet.value).Some? by { NothingToServe(t, live); }
      var labels := AcceptedIsEncoding(t.packet.value);
    }
    if t.packet.Some? && QueryHeader(t.packet.value) {
      var query := t.packet.value;
      forall labels, q | Encodes(query, labels, q) ensures Answered(t, query, q, live, reply) {
        ParseInvertsEncoding(query, labels, q);
        ReplyAnswers(t, query, q, live);
      }
    }
  }

  lemma NothingToServe(t: Turn, live: Option<bytes>)
    requires live.Some? ==> GoodAnswer(live.value)
    ensures ReplyTo(t, live).Some? ==> t.packet.Some? && ReadQuestion(t.packet.value).Some?
  {
    hide ReadQuestion, NxReply, Upstream, QrSet;
  }

  lemma ReplyAnswers(t: Turn, query: bytes, q: Question, live: Option<bytes>)
    requires t.packet == Some(query) && ReadQuestion(query) == Some(q) && (live.Some? ==> GoodAnswer(live.value))
    ensures |query| >= 2 && Answered(t, query, q, live, ReplyTo(t, live))
  {
    NxReplyRefuses(query, q.end);
    UpstreamIsFirst(query, t.sendOk, t.recvs);
    hide ReadQuestion, Refuses, NxReply, Upstream, FirstAnswer, Answer, CStr, QrSet;
  }

  /** Every reply carries the query's ID, has QR set and is 12 to 1500 bytes long. */
  lemma RepliesAreGood(t: Turn, live: Option<bytes>)
    requires WellFormedTurn(t) && (live.Some? ==> GoodAnswer(live.value))
    ensures ReplyTo(t, live).Some? ==> t.packet.Some? && GoodReply(ReplyTo(t, live).value, t.packet.value)
  {
    if TurnQuestion(t).Some? {
      var q := TurnQuestion(t).value;
      var query := t.packet.value;
      if Blocked(t) {
        NxReplyEchoesQuestion(query, q);
        var r := NxReply(query, q.end);
        assert r[..2][0] == query[..2][0] && r[..2][1] == query[..2][1];
      }
    }
  }
}
