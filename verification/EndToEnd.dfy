/** From a source line on the generator to the NXDOMAIN reply on a sinkhole. */
module EndToEnd {
  import opened Bytes
  import opened Text
  import opened Hash
  import opened LittleEndian
  import opened SortedList
  import opened Normalize
  import opened ParseLine
  import opened Generate
  import opened Fetch
  import opened LeftDrop
  import opened DnsWire
  import DnsServe
  import Flash
  import Manifest
  import Sinkhole
  import SlotStore
  import SwapLock
  import World

  /** One generation: what was fetched, what was allowlisted, and the artifact that came out. */
  datatype Edition = Edition(sources: seq<Source>, allow: seq<u64>, art: Artifact)

  ghost predicate Generated(sha: Sha256, e: Edition) {
    Publishes(sha, LineHashes(AllLines(e.sources), e.allow), e.art)
  }

  /** A source line of this edition emits d, and d is not allowlisted. */
  ghost predicate Lists(e: Edition, d: bytes) {
    DomainHash(d) !in e.allow && exists line :: line in AllLines(e.sources) && d in Emitted(line)
  }

  /** The list a sinkhole reads from a blob. */
  function ListOf(blob: bytes): seq<u64> { DecodeList(blob, |blob| / 8) }

  ghost predicate HasHash(e: Edition, h: u64) {
    h !in e.allow && exists line :: line in AllLines(e.sources) && Contributes(line, h)
  }

  /** The list of an edition holds exactly the hashes of its non-allowlisted emitted domains. */
  lemma EditionHolds(sha: Sha256, e: Edition, h: u64)
    requires Generated(sha, e)
    ensures h in ListOf(e.art.blob) <==> HasHash(e, h)
  {
    var added := LineHashes(AllLines(e.sources), e.allow);
    HashesOfLines(AllLines(e.sources), e.allow, h);
    hide LineHashes, Contributes, DecodeList;
    assert h in Distinct(DecodeList(e.art.blob, e.art.count)) <==> h in Distinct(added);
  }

  /** The name is d, or ends in a dot and d. */
  ghost predicate IsUnder(name: bytes, d: bytes) {
    name == d || exists prefix :: 0 !in prefix && name == prefix + [DOT] + d
  }

  lemma DomainCharacters(d: bytes)
    requires IsDomain(d)
    ensures DOT in d && 0 !in d
  {
    assert |Split(d, DOT)| >= 2;
    ShapeCharacters(d);
    assert IndexOf(d, DOT) < |d|;
  }

  /** Whatever is under an emitted domain is a C string that left-drop takes down to that domain. */
  lemma UnderIsTested(line: bytes, d: bytes, name: bytes)
    requires d in Emitted(line) && IsUnder(name, d)
    ensures CStr(name) == name && d in Tested(name)
  {
    hide Emitted, IsDomain;
    EmittedAreDomains(line);
    DomainCharacters(d);
    if name != d {
      var prefix :| 0 !in prefix && name == prefix + [DOT] + d;
      assert BehindDot(name, |prefix|, d);
    }
    TestedNames(name, d);
    CStrFree(name);
  }

  /** A turn whose packet is a well-formed query for the name with these labels: type and class follow the name. */
  ghost predicate Asks(t: DnsServe.Turn, labels: seq<bytes>) {
    && t.packet.Some? && QueryHeader(t.packet.value) && WireLabels(labels) && |Dotted(labels)| <= 253
    && 12 + |EncodeName(labels)| + 4 <= |t.packet.value|
    && t.packet.value[12..12 + |EncodeName(labels)|] == EncodeName(labels)
  }

  /** How the parser reads that question. */
  function Asked(labels: seq<bytes>): Question
    requires WireLabels(labels)
  {
    Question(Lower(Dotted(labels)), 12 + |EncodeName(labels)| + 4)
  }

  lemma AskedIsEncoded(t: DnsServe.Turn, labels: seq<bytes>)
    requires Asks(t, labels)
    ensures QueryHeader(t.packet.value) && Encodes(t.packet.value, labels, Asked(labels))
  {
    hide QueryHeader, EncodeName, Dotted, Lower;
  }

  /** The labels spell d or a subdomain of it, d in any letter case. */
  ghost predicate SpellsUnder(labels: seq<bytes>, d: bytes) {
    CaseVariant(Dotted(labels), d)
    || exists prefix, v :: SpelledBehind(Dotted(labels), prefix, v, d)
  }

  ghost predicate SpelledBehind(name: bytes, prefix: bytes, v: bytes, d: bytes) {
    0 !in prefix && name == prefix + [46] + v && CaseVariant(v, d)
  }

  lemma SpelledIsUnder(labels: seq<bytes>, d: bytes)
    requires WireLabels(labels) && IsDomain(d) && SpellsUnder(labels, d)
    ensures IsUnder(Asked(labels).name, d)
  {
    DomainNotRejected(d);
    hide IsDomain, Rejected, Dotted, EncodeName, Lower;
    if CaseVariant(Dotted(labels), d) {
      LowerMerges(Dotted(labels), d);
    } else {
      var prefix, v :| SpelledBehind(Dotted(labels), prefix, v, d);
      LowerMerges(v, d);
      LowerJoin(prefix, v);
      LowerNul(prefix);
      assert Asked(labels).name == Lower(prefix) + [DOT] + d;
    }
  }

  lemma LowerNul(s: bytes)
    requires 0 !in s
    ensures 0 !in Lower(s)
  {
  }

  /** Blocked, and answered with NXDOMAIN whatever the cache holds. */
  ghost predicate Refused(t: DnsServe.Turn, labels: seq<bytes>) {
    && DnsServe.Blocked(t) && t.packet.Some? && WireLabels(labels)
    && forall live: Option<bytes> :: (live.Some? ==> DnsServe.GoodAnswer(live.value)) ==>
         var reply := DnsServe.ReplyTo(t, live);
         reply.Some? && Refuses(reply.value, t.packet.value, 12 + |EncodeName(labels)| + 4)
  }

  /** A name that tests a hash on every list the lookups of the turn may see is refused. */
  lemma ListedIsRefused(lists: nat -> seq<u64>, d: bytes, t: DnsServe.Turn, labels: seq<bytes>)
    requires Asks(t, labels) && t.lookup == InLists(lists)
    requires var name := Asked(labels).name; CStr(name) == name && d in Tested(name)
    requires forall k: nat :: DomainHash(d) in lists(k)
    ensures Refused(t, labels)
  {
    var q := Asked(labels);
    AskedIsEncoded(t, labels);
    ParseInvertsEncoding(t.packet.value, labels, q);
    NxReplyRefuses(t.packet.value, q.end);
    hide ReadQuestion, Encodes, QueryHeader, NxReply, Refuses, EncodeName, CStr, Tested, Answer, Lower, Dotted;
    SwappingLists(lists, q.name);
    assert DnsServe.TurnQuestion(t) == Some(q);
  }

  function Decoded(editions: nat -> Edition): nat -> seq<u64> { (k: nat) => ListOf(editions(k).art.blob) }

  /**
   * A domain emitted by a source line, not allowlisted, is blocked with all its subdomains in any letter case.
   * The list may be swapped for another edition that lists the domain between any two lookups of the turn.
   */
  lemma EmittedIsBlocked(sha: Sha256, editions: nat -> Edition, d: bytes, t: DnsServe.Turn, labels: seq<bytes>)
    requires forall k: nat :: Generated(sha, editions(k)) && Lists(editions(k), d)
    requires Asks(t, labels) && SpellsUnder(labels, d) && t.lookup == InLists(Decoded(editions))
    ensures Refused(t, labels)
  {
    ListedThroughout(sha, editions, d);
    SpelledIsTested(editions(0), d, labels);
    hide *;
    ListedIsRefused(Decoded(editions), d, t, labels);
  }

  lemma SpelledIsTested(e: Edition, d: bytes, labels: seq<bytes>)
    requires Lists(e, d) && WireLabels(labels) && SpellsUnder(labels, d)
    ensures var name := Asked(labels).name; CStr(name) == name && d in Tested(name)
  {
    var line :| line in AllLines(e.sources) && d in Emitted(line);
    EmittedAreDomains(line);
    hide *;
    SpelledIsUnder(labels, d);
    UnderIsTested(line, d, Asked(labels).name);
  }

  /** A line of a complete body of a source puts what it emits on the list of the edition, unless allowlisted. */
  lemma BodyLineLists(e: Edition, i: nat, ls: seq<bytes>, k: nat, d: bytes)
    requires i < |e.sources| && e.sources[i].Body? && !e.sources[i].readError
    requires k < |ls| && AllFree(ls, 10) && Flatten(e.sources[i].chunks) == Join(ls, 10)
    requires d in Emitted(ls[k]) && DomainHash(d) !in e.allow
    ensures Lists(e, d)
  {
    EmittingLine(ls[k]);
    LineIsParsed(e.sources, i, ls, k);
  }

  lemma EmittingLine(line: bytes)
    requires Emitted(line) != []
    ensures 1 <= |line| <= 2048
  {
    var empty: bytes := [];
    BlankEmitsNothing(empty, empty);
    assert empty + empty == empty;
  }

  lemma ListedThroughout(sha: Sha256, editions: nat -> Edition, d: bytes)
    requires forall k: nat :: Generated(sha, editions(k)) && Lists(editions(k), d)
    ensures forall k: nat :: DomainHash(d) in Decoded(editions)(k)
  {
    forall k: nat ensures DomainHash(d) in Decoded(editions)(k) {
      assert Generated(sha, editions(k)) && Lists(editions(k), d);
      ListedHash(sha, editions(k), d);
    }
  }

  /** Exactly which queries one edition blocks: those with a tested suffix that hashes like a listed domain. */
  lemma BlockedExactly(sha: Sha256, e: Edition, t: DnsServe.Turn, q: Question)
    requires Generated(sha, e) && DnsServe.TurnQuestion(t) == Some(q) && t.lookup == InList(ListOf(e.art.blob))
    ensures DnsServe.Blocked(t) <==> exists s :: s in Tested(CStr(q.name)) && HasHash(e, DomainHash(s))
  {
    hide Generated, HasHash, DnsServe.TurnQuestion, CStr, Tested, Answer, DomainHash, ListOf;
    var name := CStr(q.name);
    FixedList(ListOf(e.art.blob), name);
    forall s ensures DomainHash(s) in ListOf(e.art.blob) <==> HasHash(e, DomainHash(s)) {
      EditionHolds(sha, e, DomainHash(s));
    }
  }

  /** What the k-th lookup sees: the list served in state when(k) of the run. */
  function Sessions(trace: seq<World.World>, when: nat -> nat): nat -> seq<u64>
    requires forall k: nat :: when(k) < |trace|
  {
    (k: nat) => if when(k) < |trace| then ListOf(trace[when(k)].node.session.blob) else []
  }

  ghost predicate EditionOf(sha: Sha256, e: Edition, blob: bytes, d: bytes) {
    e.art.blob == blob && Generated(sha, e) && Lists(e, d)
  }

  ghost predicate EditionExists(sha: Sha256, blob: bytes, d: bytes) { exists e :: EditionOf(sha, e, blob, d) }

  /**
   * The whole system: in every run of publications, fetches, torn writes and reboots in which every published
   * edition lists d, a sinkhole that serves at all refuses every query for d or a subdomain, even if its lookups
   * fall into different states of the run.
   */
  lemma EveryServedEditionBlocks(sha: Sha256, trace: seq<World.World>, when: nat -> nat, d: bytes,
                                 t: DnsServe.Turn, labels: seq<bytes>)
    requires trace != [] && World.Run(sha, trace) && World.Factory(trace[0])
    requires NoCollision(sha, trace[|trace| - 1].hashed)
    requires forall b :: b in trace[|trace| - 1].published ==> EditionExists(sha, b, d)
    requires forall k: nat :: when(k) < |trace| && SlotStore.Serving(trace[when(k)].node)
    requires Asks(t, labels) && SpellsUnder(labels, d) && t.lookup == InLists(Sessions(trace, when))
    ensures Refused(t, labels)
  {
    assert WireLabels(labels) && forall k: nat :: when(k) < |trace| by { AsksLabels(t, labels); }
    hide *;
    var lists := Sessions(trace, when);
    forall k: nat ensures DomainHash(d) in lists(k) {
      StateLists(sha, trace, when, k, d);
    }
    var e := StateEdition(sha, trace, when(0), d);
    SpelledIsTested(e, d, labels);
    ListedIsRefused(lists, d, t, labels);
  }

  lemma AsksLabels(t: DnsServe.Turn, labels: seq<bytes>)
    requires Asks(t, labels)
    ensures WireLabels(labels)
  {
  }

  /** What a state of such a run serves is the list of an edition that lists d. */
  lemma StateEdition(sha: Sha256, trace: seq<World.World>, k: nat, d: bytes) returns (e: Edition)
    requires World.Run(sha, trace) && k < |trace| && World.Factory(trace[0]) && NoCollision(sha, trace[|trace| - 1].hashed)
    requires forall b :: b in trace[|trace| - 1].published ==> EditionExists(sha, b, d)
    requires SlotStore.Serving(trace[k].node)
    ensures EditionOf(sha, e, trace[k].node.session.blob, d) && Generated(sha, e) && Lists(e, d)
  {
    hide World.Run, World.Factory, World.Provenance, SlotStore.Serving, NoCollision, Generated, Lists;
    var blob := trace[k].node.session.blob;
    World.EveryServedListWasPublished(sha, trace, k);
    World.RunKeepsProvenance(sha, trace, k, |trace| - 1);
    assert EditionExists(sha, blob, d);
    e :| EditionOf(sha, e, blob, d);
  }

  lemma StateLists(sha: Sha256, trace: seq<World.World>, when: nat -> nat, k: nat, d: bytes)
    requires (forall j: nat :: when(j) < |trace|) && SlotStore.Serving(trace[when(k)].node)
    requires World.Run(sha, trace) && World.Factory(trace[0]) && NoCollision(sha, trace[|trace| - 1].hashed)
    requires forall b :: b in trace[|trace| - 1].published ==> EditionExists(sha, b, d)
    ensures DomainHash(d) in Sessions(trace, when)(k)
  {
    hide World.Run, World.Factory, SlotStore.Serving, NoCollision, EditionExists, Generated, Lists, DomainHash, ListOf;
    var e := StateEdition(sha, trace, when(k), d);
    ListedHash(sha, e, d);
  }

  lemma ListedHash(sha: Sha256, e: Edition, d: bytes)
    requires Generated(sha, e) && Lists(e, d)
    ensures DomainHash(d) in ListOf(e.art.blob)
  {
    hide Generated, Emitted, DomainHash, ListOf;
    EditionHolds(sha, e, DomainHash(d));
    var line :| line in AllLines(e.sources) && d in Emitted(line);
    assert Contributes(line, DomainHash(d));
  }

  lemma RunJoin(sha: Sha256, past: seq<World.World>, more: seq<World.World>)
    requires past != [] && more != [] && past[|past| - 1] == more[0] && World.Run(sha, past) && World.Run(sha, more)
    ensures World.Run(sha, past + more[1..])
  {
    hide World.Next;
    var t := past + more[1..];
    forall i | 0 < i < |t| ensures World.Next(sha, t[i - 1], t[i]) {
      if i >= |past| {
        var j := i - |past| + 1;
        assert t[i] == more[j] && t[i - 1] == more[j - 1];
      }
    }
  }

  /**
   * The sinkhole as it runs, placed in the world: a poll of the manifest it fetched extends the run of the world
   * by its own log, so without a collision it ends serving a published blob, if it serves anything.
   */
  method PollInWorld(s: Sinkhole.Sinkhole, doc: Manifest.Document, resp: Sinkhole.Response, resources: bool,
                     ghost past: seq<World.World>)
    returns (ghost run: seq<World.World>)
    requires s.Valid() && past != [] && World.Run(s.sha, past) && World.Factory(past[0])
    requires past[|past| - 1].node == Flash.State(s.dev.disk, s.dev.session)
    requires Sinkhole.Worthwhile(Some(doc), s.version) ==> past[|past| - 1].manifest == Some(Manifest.Content(doc))
    modifies s, s.dev
    ensures s.Valid() && past <= run && World.Run(s.sha, run)
    ensures run[|run| - 1].node == Flash.State(s.dev.disk, s.dev.session) && (old(s.active) >= 0 ==> s.active >= 0)
    ensures run[|run| - 1].manifest == past[|past| - 1].manifest && run[|run| - 1].published == past[|past| - 1].published
    ensures NoCollision(s.sha, run[|run| - 1].hashed) && s.active >= 0 ==>
              s.dev.session.blob in past[|past| - 1].published
  {
    ghost var log, w, session := s.dev.log, past[|past| - 1], s.dev.session;
    assert log != [] && log[|log| - 1] == w.node && s.dev.session.active == s.active;
    hide SlotStore.Chain, SlotStore.PollRun, SlotStore.Booted, World.Run, World.Factory, NoCollision;
    run := past;
    s.CheckOnce(Some(doc), resp, resources);
    if Sinkhole.Worthwhile(Some(doc), old(s.version)) {
      ghost var tail := s.dev.log[|log| - 1..];
      assert tail[0] == log[|log| - 1] && tail[|tail| - 1] == Flash.State(s.dev.disk, s.dev.session);
      ghost var more := World.LogIsRun(s.sha, SlotStore.Poll(Manifest.Content(doc), session), tail, w);
      RunJoin(s.sha, past, more);
      run := past + more[1..];
      assert run[|run| - 1] == more[|more| - 1];
    }
    if NoCollision(s.sha, run[|run| - 1].hashed) {
      World.EveryServedListWasPublished(s.sha, run, |run| - 1);
    }
  }

  // ---- a turn served while the sinkhole polls --------------------------------------------------------------

  /** A poll that happens between two lookups. */
  datatype PollEvent = PollEvent(doc: Manifest.Document, resp: Sinkhole.Response, resources: bool)

  /** The run of the world ends where the sinkhole stands. */
  ghost predicate Placed(s: Sinkhole.Sinkhole, run: seq<World.World>)
    reads s, s.dev
  {
    && run != [] && World.Run(s.sha, run) && World.Factory(run[0])
    && run[|run| - 1].node == Flash.State(s.dev.disk, s.dev.session)
  }

  /** The polls get the manifest last fetched in the run, or one they do not accept. */
  ghost predicate PollsOf(polls: seq<PollEvent>, w: World.World) {
    forall k :: 0 <= k < |polls| && Manifest.Acceptable(polls[k].doc) ==> w.manifest == Some(Manifest.Content(polls[k].doc))
  }

  /** The answers so far: when[k] is the state of the run, not before `from`, that lookup k falls into. */
  ghost predicate Looked(names: seq<bytes>, answers: seq<bool>, run: seq<World.World>, from: nat, when: seq<nat>) {
    && |answers| == |when| <= |names|
    && (forall k :: 0 <= k < |when| ==> from <= when[k] < |run|)
    && (forall k :: 0 <= k < |when| ==> (answers[k] <==> DomainHash(names[k]) in ListOf(run[when[k]].node.session.blob)))
  }

  /** All names were looked up, or the last one that was is listed. */
  ghost predicate Enough(answers: seq<bool>, names: nat) {
    |answers| == names || (0 < |answers| < names && answers[|answers| - 1])
  }

  ghost predicate ServedAll(run: seq<World.World>, when: seq<nat>) {
    forall k :: 0 <= k < |when| ==> when[k] < |run| && SlotStore.Serving(run[when[k]].node)
  }

  lemma LookedLonger(names: seq<bytes>, answers: seq<bool>, run: seq<World.World>, more: seq<World.World>, from: nat,
                     when: seq<nat>)
    requires Looked(names, answers, run, from, when) && run <= more
    ensures Looked(names, answers, more, from, when) && (ServedAll(run, when) ==> ServedAll(more, when))
  {
    hide DomainHash, ListOf, SlotStore.Serving;
    assert forall j :: 0 <= j < |run| ==> more[j] == run[j];
  }

  /** One more lookup, in the state that a longer run ends in. */
  lemma LookedNext(names: seq<bytes>, answers: seq<bool>, run: seq<World.World>, more: seq<World.World>, from: nat,
                   when: seq<nat>, found: bool, serving: bool)
      returns (when': seq<nat>)
    requires Looked(names, answers, run, from, when) && |when| < |names| && Extends(run, more) && from < |more|
    requires found <==> DomainHash(names[|when|]) in ListOf(more[|more| - 1].node.session.blob)
    requires serving ==> ServedAll(run, when) && SlotStore.Serving(more[|more| - 1].node)
    ensures |when'| == |when| + 1 && Looked(names, answers + [found], more, from, when')
    ensures serving ==> ServedAll(more, when')
    ensures found || |when'| == |names| ==> Enough(answers + [found], |names|)
  {
    LookedLonger(names, answers, run, more, from, when);
    hide DomainHash, ListOf, SlotStore.Serving;
    when' := when + [|more| - 1];
  }

  ghost predicate Extends(past: seq<World.World>, run: seq<World.World>) { past <= run }

  lemma ExtendsOn(past: seq<World.World>, run: seq<World.World>, more: seq<World.World>)
    requires Extends(past, run) && Extends(run, more)
    ensures Extends(past, more) && |past| <= |run| <= |more|
  {
  }

  lemma ExtendsPlainly(past: seq<World.World>, run: seq<World.World>)
    requires Extends(past, run)
    ensures past <= run
  {
  }

  lemma ExtendsSame(past: seq<World.World>)
    ensures Extends(past, past)
  {
  }

  /** One lookup, behind a poll if there is one. */
  method PollThenLookup(s: Sinkhole.Sinkhole, name: bytes, poll: Option<PollEvent>, ghost past: seq<World.World>)
    returns (found: bool, ghost run: seq<World.World>)
    requires s.Valid() && Placed(s, past)
    requires poll.Some? ==> PollsOf([poll.value], past[|past| - 1])
    modifies s, s.dev
    ensures s.Valid() && Placed(s, run) && Extends(past, run) && (old(s.active) >= 0 ==> s.active >= 0)
    ensures run[|run| - 1].published == past[|past| - 1].published && run[|run| - 1].manifest == past[|past| - 1].manifest
    ensures found <==> DomainHash(name) in ListOf(run[|run| - 1].node.session.blob)
    ensures s.active >= 0 ==> SlotStore.Serving(run[|run| - 1].node)
  {
    hide World.Run, World.Factory, DomainHash, ListOf, Manifest.Acceptable, Manifest.Content, SlotStore.Inv,
      SlotStore.Serving;
    run := past;
    if poll.Some? {
      assert Manifest.Acceptable([poll.value][0].doc) ==>
          past[|past| - 1].manifest == Some(Manifest.Content([poll.value][0].doc));
      run := PollInWorld(s, poll.value.doc, poll.value.resp, poll.value.resources, run);
    }
    var h := ComputeDomainHash(name);
    ghost var probes;
    found, probes := s.Contains(h);
    SessionList(s, run);
  }

  /** The lookups of one call up to the first hit, each after the next of the polls. */
  method LookupAll(s: Sinkhole.Sinkhole, names: seq<bytes>, polls: seq<PollEvent>, ghost past: seq<World.World>)
    returns (answers: seq<bool>, ghost run: seq<World.World>, ghost when: seq<nat>)
    requires s.Valid() && Placed(s, past) && PollsOf(polls, past[|past| - 1])
    modifies s, s.dev
    ensures s.Valid() && Placed(s, run) && Extends(past, run) && (old(s.active) >= 0 ==> s.active >= 0)
    ensures run[|run| - 1].published == past[|past| - 1].published
    ensures Looked(names, answers, run, |past| - 1, when) && Enough(answers, |names|)
    ensures old(s.active) >= 0 ==> ServedAll(run, when)
  {
    PlacedSomewhere(s, past);
    NothingLooked(names, past);
    ExtendsSame(past);
    hide *;
    answers, run, when := [], past, [];
    var k, found := 0, false;
    ghost var from, w, serving := |past| - 1, past[|past| - 1], s.active >= 0;
    while k < |names| && !found
      invariant s.Valid() && Placed(s, run) && run != [] && Extends(past, run) && (serving ==> s.active >= 0)
      invariant run[|run| - 1].published == w.published && run[|run| - 1].manifest == w.manifest
      invariant k == |when| <= |names| && Looked(names, answers, run, from, when)
      invariant serving ==> ServedAll(run, when)
      invariant found || k == |names| ==> Enough(answers, |names|)
    {
      ghost var before := run;
      OnePoll(polls, k, w, run[|run| - 1]);
      found, run := PollThenLookup(s, names[k], if k < |polls| then Some(polls[k]) else None, run);
      PlacedSomewhere(s, run);
      ExtendsOn(past, before, run);
      when := LookedNext(names, answers, before, run, from, when, found, serving);
      k, answers := k + 1, answers + [found];
    }
  }

  lemma OnePoll(polls: seq<PollEvent>, k: nat, w: World.World, w': World.World)
    requires PollsOf(polls, w) && w'.manifest == w.manifest
    ensures k < |polls| ==> PollsOf([polls[k]], w')
  {
    hide Manifest.Acceptable, Manifest.Content;
  }

  lemma PlacedSomewhere(s: Sinkhole.Sinkhole, run: seq<World.World>)
    requires Placed(s, run)
    ensures run != []
  {
  }

  lemma NothingLooked(names: seq<bytes>, past: seq<World.World>)
    requires past != []
    ensures Looked(names, [], past, |past| - 1, []) && ServedAll(past, []) && Enough([], 0)
  {
  }

  /** What Contains searches is the list of the last state of the run. */
  lemma SessionList(s: Sinkhole.Sinkhole, run: seq<World.World>)
    requires s.Valid() && Placed(s, run)
    ensures ListOf(run[|run| - 1].node.session.blob) == DecodeList(s.dev.session.blob, |s.dev.session.blob| / 8)
    ensures s.active >= 0 <==> SlotStore.Serving(run[|run| - 1].node)
  {
    hide DecodeList, World.Run, World.Factory;
  }

  /** The answers of finitely many lookups as a lookup function. */
  function Given(answers: seq<bool>): (nat, u64) -> bool { (k: nat, h: u64) => k < |answers| && answers[k] }

  /** The state of lookup k; past the last lookup it does not matter. */
  function StateOf(when: seq<nat>): nat -> nat
    requires when != []
  {
    (k: nat) => if k < |when| then when[k] else when[0]
  }

  /** Only the answers for the tested names matter, and none behind the first hit. */
  lemma SameAnswer(answers: seq<bool>, lists: nat -> seq<u64>, name: bytes)
    requires Enough(answers, |Tested(name)|)
    requires forall k: nat :: k < |answers| ==> (answers[k] <==> DomainHash(Tested(name)[k]) in lists(k))
    ensures Answer(Given(answers), name) <==> Answer(InLists(lists), name)
  {
    hide Tested, DomainHash;
    var tested := Tested(name);
    if Answer(Given(answers), name) {
      var k: nat :| k < |tested| && Given(answers)(k, DomainHash(tested[k]));
      assert InLists(lists)(k, DomainHash(tested[k]));
    }
    if Answer(InLists(lists), name) {
      var k: nat :| k < |tested| && InLists(lists)(k, DomainHash(tested[k]));
      var last: nat := if k < |answers| then k else |answers| - 1;
      assert Given(answers)(last, DomainHash(tested[last]));
    }
  }

  /** A turn's reply depends on its lookups only through the answer for its name. */
  lemma SameReply(t: DnsServe.Turn, a: (nat, u64) -> bool, b: (nat, u64) -> bool, live: Option<bytes>)
    requires live.Some? ==> DnsServe.GoodAnswer(live.value)
    requires DnsServe.TurnQuestion(t).Some? ==>
               var name := CStr(DnsServe.TurnQuestion(t).value.name); Answer(a, name) <==> Answer(b, name)
    ensures DnsServe.ReplyTo(t.(lookup := a), live) == DnsServe.ReplyTo(t.(lookup := b), live)
    ensures DnsServe.TurnKey(t.(lookup := a)) == DnsServe.TurnKey(t)
  {
    hide ReadQuestion, CStr, Answer, NxReply, DnsServe.WithId, DnsServe.Upstream, DnsServe.QueryKey;
    assert DnsServe.TurnQuestion(t.(lookup := a)) == DnsServe.TurnQuestion(t) == DnsServe.TurnQuestion(t.(lookup := b));
  }

  /** The name a turn asks for. */
  function NameOf(packet: Option<bytes>): bytes {
    if packet.None? then [] else
      var q := ReadQuestion(packet.value);
      if q.None? then [] else CStr(q.value.name)
  }

  /** lookup answers a turn as the lists of the states when(k) of the run do. */
  ghost predicate AnswersLike(t: DnsServe.Turn, lookup: (nat, u64) -> bool, run: seq<World.World>, when: nat -> nat) {
    && (forall k: nat :: when(k) < |run|)
    && DnsServe.TurnKey(t.(lookup := lookup)) == DnsServe.TurnKey(t)
    && forall live: Option<bytes> :: (live.Some? ==> DnsServe.GoodAnswer(live.value)) ==>
         DnsServe.ReplyTo(t.(lookup := lookup), live) == DnsServe.ReplyTo(t.(lookup := InLists(Sessions(run, when))), live)
  }

  /** A state for every lookup, those beyond the last included. */
  lemma StatesOf(names: seq<bytes>, answers: seq<bool>, run: seq<World.World>, from: nat, states: seq<nat>)
      returns (when: nat -> nat)
    requires Looked(names, answers, run, from, states) && from < |run|
    ensures forall k: nat :: from <= when(k) < |run|
    ensures forall k: nat :: k < |answers| ==> (answers[k] <==> DomainHash(names[k]) in Sessions(run, when)(k))
    ensures ServedAll(run, states) && SlotStore.Serving(run[|run| - 1].node) ==>
              forall k: nat :: SlotStore.Serving(run[when(k)].node)
  {
    hide DomainHash, ListOf, SlotStore.Serving;
    when := if states == [] then (k: nat) => |run| - 1 else StateOf(states);
  }

  /** Lookups that agree on the tested names answer the turn alike. */
  lemma AllAlike(t: DnsServe.Turn, answers: seq<bool>, run: seq<World.World>, when: nat -> nat)
    requires Enough(answers, |Tested(NameOf(t.packet))|) && forall k: nat :: when(k) < |run|
    requires forall k: nat :: k < |answers| ==>
               (answers[k] <==> DomainHash(Tested(NameOf(t.packet))[k]) in Sessions(run, when)(k))
    ensures AnswersLike(t, Given(answers), run, when)
  {
    hide DomainHash, ListOf, Tested, ReadQuestion, CStr, NameOf, Answer, Given, Sessions, InLists, SlotStore.Serving,
      DnsServe.ReplyTo, DnsServe.TurnKey, DnsServe.TurnQuestion, DnsServe.GoodAnswer;
    var lists := Sessions(run, when);
    SameAnswer(answers, lists, NameOf(t.packet));
    NameAsked(t);
    forall live: Option<bytes> | live.Some? ==> DnsServe.GoodAnswer(live.value)
      ensures DnsServe.ReplyTo(t.(lookup := Given(answers)), live) == DnsServe.ReplyTo(t.(lookup := InLists(lists)), live)
    {
      SameReply(t, Given(answers), InLists(lists), live);
    }
    SameReply(t, Given(answers), InLists(lists), None);
  }

  lemma NameAsked(t: DnsServe.Turn)
    ensures DnsServe.TurnQuestion(t).Some? ==> CStr(DnsServe.TurnQuestion(t).value.name) == NameOf(t.packet)
  {
    hide ReadQuestion, CStr;
  }

  /** A turn with the answers its lookups gave. */
  method ServeWithAnswers(server: DnsServe.Server, t: DnsServe.Turn, answers: seq<bool>, ghost run: seq<World.World>,
                          ghost when: nat -> nat)
    returns (reply: Option<bytes>)
    requires server.Valid() && DnsServe.WellFormedTurn(t) && AnswersLike(t, Given(answers), run, when)
    modifies server.pkt, server.ans, server.name, server.cache, server.cache.entries
    ensures server.Valid() && forall k: nat :: when(k) < |run|
    ensures reply == DnsServe.ReplyTo(t.(lookup := InLists(Sessions(run, when))),
                                      old(server.Live(DnsServe.TurnKey(t), t.now)))
  {
    hide *;
    ghost var live := server.Live(DnsServe.TurnKey(t), t.now);
    RepliesAlike(t, Given(answers), run, when, live);
    TurnStays(t, Given(answers));
    reply := server.ServeOne(t.(lookup := Given(answers)));
  }

  /**
   * One turn as it runs: the list lookups are calls of the sinkhole's own search, with polls before them that may
   * download and swap lists. It is answered as if lookup k were membership in the list served in state when(k).
   */
  method ServeWhilePolling(server: DnsServe.Server, s: Sinkhole.Sinkhole, t: DnsServe.Turn, polls: seq<PollEvent>,
                           ghost past: seq<World.World>)
    returns (reply: Option<bytes>, ghost run: seq<World.World>, ghost when: nat -> nat)
    requires server.Valid() && DnsServe.WellFormedTurn(t)
    requires s.Valid() && Placed(s, past) && PollsOf(polls, past[|past| - 1])
    modifies s, s.dev, server.pkt, server.ans, server.name, server.cache, server.cache.entries
    ensures server.Valid() && s.Valid() && Placed(s, run) && past <= run
    ensures run[|run| - 1].published == past[|past| - 1].published
    ensures forall k: nat :: |past| - 1 <= when(k) < |run|
    ensures old(s.active) >= 0 ==> forall k: nat :: SlotStore.Serving(run[when(k)].node)
    ensures reply == DnsServe.ReplyTo(t.(lookup := InLists(Sessions(run, when))),
                                      old(server.Live(DnsServe.TurnKey(t), t.now)))
  {
    PlacedSomewhere(s, past);
    hide *;
    var names := Tested(NameOf(t.packet));
    var answers;
    ghost var states;
    answers, run, states := LookupAll(s, names, polls, past);
    ExtendsPlainly(past, run);
    SessionList(s, run);
    when := StatesOf(names, answers, run, |past| - 1, states);
    AllAlike(t, answers, run, when);
    reply := ServeWithAnswers(server, t, answers, run, when);
  }

  lemma RepliesAlike(t: DnsServe.Turn, lookup: (nat, u64) -> bool, run: seq<World.World>, when: nat -> nat,
                     live: Option<bytes>)
    requires AnswersLike(t, lookup, run, when) && (live.Some? ==> DnsServe.GoodAnswer(live.value))
    ensures DnsServe.TurnKey(t.(lookup := lookup)) == DnsServe.TurnKey(t) && forall k: nat :: when(k) < |run|
    ensures DnsServe.ReplyTo(t.(lookup := lookup), live) ==
            DnsServe.ReplyTo(t.(lookup := InLists(Sessions(run, when))), live)
  {
    hide DnsServe.ReplyTo, DnsServe.TurnKey, Sessions;
  }

  lemma TurnStays(t: DnsServe.Turn, lookup: (nat, u64) -> bool)
    requires DnsServe.WellFormedTurn(t)
    ensures DnsServe.WellFormedTurn(t.(lookup := lookup)) && t.(lookup := lookup).now == t.now
  {
  }

  /**
   * So on a serving sinkhole, while every published edition lists d, any turn for d or a subdomain is answered
   * with NXDOMAIN, whatever polls happen between its lookups.
   */
  method RefuseWhilePolling(server: DnsServe.Server, s: Sinkhole.Sinkhole, t: DnsServe.Turn, polls: seq<PollEvent>,
                            ghost past: seq<World.World>, ghost d: bytes, ghost labels: seq<bytes>)
    returns (reply: Option<bytes>, ghost run: seq<World.World>)
    requires server.Valid() && DnsServe.WellFormedTurn(t)
    requires s.Valid() && s.active >= 0 && Placed(s, past) && PollsOf(polls, past[|past| - 1])
    requires forall b :: b in past[|past| - 1].published ==> EditionExists(s.sha, b, d)
    requires Asks(t, labels) && SpellsUnder(labels, d)
    modifies s, s.dev, server.pkt, server.ans, server.name, server.cache, server.cache.entries
    ensures server.Valid() && s.Valid() && Placed(s, run) && past <= run
    ensures NoCollision(s.sha, run[|run| - 1].hashed) ==>
              reply.Some? && Refuses(reply.value, t.packet.value, 12 + |EncodeName(labels)| + 4)
  {
    hide World.Run, World.Factory, PollsOf, SlotStore.Inv, EditionExists, SpellsUnder, Asks, Refuses, NoCollision,
      EncodeName, DnsServe.ReplyTo, DnsServe.TurnKey, DnsServe.GoodLog, Sessions, InLists;
    ghost var live := server.Live(DnsServe.TurnKey(t), t.now);
    ghost var when;
    reply, run, when := ServeWhilePolling(server, s, t, polls, past);
    if NoCollision(s.sha, run[|run| - 1].hashed) {
      AsksStill(t, InLists(Sessions(run, when)), labels);
      EveryServedEditionBlocks(s.sha, run, when, d, t.(lookup := InLists(Sessions(run, when))), labels);
    }
  }

  lemma AsksStill(t: DnsServe.Turn, lookup: (nat, u64) -> bool, labels: seq<bytes>)
    requires Asks(t, labels)
    ensures Asks(t.(lookup := lookup), labels) && t.(lookup := lookup).packet == t.packet
  {
    hide QueryHeader, EncodeName, Dotted;
  }

  /**
   * The lookups of a turn as calls of the locked search, interleaved with commits in any way; ends(k) is the state
   * in which the k-th call ends. A tested name on every list current during its call, if that call got the lock,
   * blocks; and only a tested name on a list current during its call does.
   */
  lemma LockedLookups(trace: seq<SwapLock.Machine<u64>>, ends: nat -> nat, name: bytes, lookup: (nat, u64) -> bool)
    requires SwapLock.Run(Ascending, trace)
    requires forall k: nat :: k < |Tested(name)| ==>
               && ends(k) < |trace|
               && SwapLock.Answers(trace[ends(k)].r, DomainHash(Tested(name)[k]), lookup(k, DomainHash(Tested(name)[k])))
    ensures (exists k: nat :: && k < |Tested(name)| && !trace[ends(k)].r.TimedOut?
                              && OnAll(trace[ends(k)].window, Tested(name)[k])) ==>
              Answer(lookup, name)
    ensures Answer(lookup, name) ==>
              exists k: nat :: k < |Tested(name)| && OnSome(trace[ends(k)].window, Tested(name)[k])
  {
    hide Tested, DomainHash, SwapLock.Run, SwapLock.Answers, Ascending;
    var tested := Tested(name);
    forall k: nat | k < |tested|
      ensures !trace[ends(k)].r.TimedOut? && OnAll(trace[ends(k)].window, tested[k]) ==> lookup(k, DomainHash(tested[k]))
      ensures lookup(k, DomainHash(tested[k])) ==> OnSome(trace[ends(k)].window, tested[k])
    {
      SwapLock.LookupIsMembership(trace, ends(k), DomainHash(tested[k]), lookup(k, DomainHash(tested[k])));
    }
  }

  ghost predicate OnAll(window: set<seq<u64>>, name: bytes) { forall list :: list in window ==> DomainHash(name) in list }

  ghost predicate OnSome(window: set<seq<u64>>, name: bytes) { exists list :: list in window && DomainHash(name) in list }
}
