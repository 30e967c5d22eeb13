/** Concrete runs of the dual-slot store: a valid slot that is lost or kept, and a swap that is never recorded. */
module SlotRuns {
  import opened Bytes
  import opened LittleEndian
  import opened SortedList
  import opened Flash
  import opened Manifest
  import opened SlotStore

  /** The states of a poll up to its last record: erased, programmed, count, digest and version recorded. */
  function Stages(n: Node, m: Manifest, blob: bytes): (trace: seq<Node>)
    requires WellFormed(n.disk, SLOT_SIZE) && |blob| == m.size && Wanted(m, n.session) && GoodErase(12)
    ensures |trace| == 6
  {
    var slot := InactiveSlot(n.session.active);
    var d1 := AfterErase(n.disk, slot, m.size, 12);
    var d2 := WithSlot(d1, slot, Program(d1.flash[slot], 0, blob));
    var d3 := WithCount(d2, slot, m.count);
    var d4 := WithSha(d3, slot, m.sha256);
    var d5 := WithVersion(d4, slot, m.version);
    var s := n.session;
    [n, State(d1, s), State(d2, s), State(d3, s), State(d4, s), State(d5, s)]
  }

  lemma FlashStages(n: Node, m: Manifest, blob: bytes, k: nat)
    requires WellFormed(n.disk, SLOT_SIZE) && |blob| == m.size && Wanted(m, n.session) && GoodErase(12) && 0 < k < 3
    ensures var t := Stages(n, m, blob);
            Writes(Poll(m, n.session), t[k - 1], t[k])
  {
    hide AfterErase, GoodErase, Program;
    var slot := InactiveSlot(n.session.active);
    ErasedBytes(n.disk, slot, m.size, 12);
    var d1 := AfterErase(n.disk, slot, m.size, 12);
    if k == 1 {
      SlotWrites(m, n.disk, slot, d1.flash[slot]);
    } else {
      SlotWrites(m, d1, slot, Program(d1.flash[slot], 0, blob));
    }
    hide SlotWrite;
  }

  lemma RecordStages(n: Node, m: Manifest, blob: bytes, k: nat)
    requires WellFormed(n.disk, SLOT_SIZE) && |blob| == m.size && Wanted(m, n.session) && GoodErase(12) && 3 <= k < 6
    ensures var t := Stages(n, m, blob);
            Writes(Poll(m, n.session), t[k - 1], t[k])
  {
    hide AfterErase, GoodErase, Program;
    var slot := InactiveSlot(n.session.active);
    var t := Stages(n, m, blob);
    assert WellFormed(t[k - 1].disk, SLOT_SIZE) && m.count < TWO_32;
    SlotWrites(m, t[k - 1].disk, slot, []);
    hide SlotWrite, WellFormed;
  }

  lemma StagesRun(sha: Sha256, n: Node, m: Manifest, blob: bytes)
    requires WellFormed(n.disk, SLOT_SIZE) && |blob| == m.size && Wanted(m, n.session) && GoodErase(12)
    ensures PollRun(sha, {m}, Stages(n, m, blob))
    ensures forall k :: 0 <= k < 6 ==> Stages(n, m, blob)[k].session == n.session
  {
    assert forall k :: 0 <= k < 6 ==> Stages(n, m, blob)[k].session == n.session;
    hide Stages, Wanted, Writes;
    var t := Stages(n, m, blob);
    forall k | 0 < k < 6 ensures PollStep(sha, {m}, t[k - 1], t[k]) {
      if k < 3 {
        FlashStages(n, m, blob, k);
      } else {
        RecordStages(n, m, blob, k);
      }
      assert m in {m} && Wanted(m, t[k - 1].session) && Writes(Poll(m, t[k - 1].session), t[k - 1], t[k]);
    }
  }

  /** A good blob validates as soon as its digest is recorded. */
  lemma StagesValidate(sha: Sha256, n: Node, m: Manifest, blob: bytes)
    requires WellFormed(n.disk, SLOT_SIZE) && |blob| == m.size && Wanted(m, n.session) && GoodErase(12)
    requires VerifiedBlob(sha, blob, m.count, m.sha256)
    ensures var t, slot := Stages(n, m, blob), InactiveSlot(n.session.active);
            && Validates(sha, t[4].disk, slot) && Validates(sha, t[5].disk, slot) && WellFormed(t[5].disk, SLOT_SIZE)
            && t[5].disk.nvs.active == n.disk.nvs.active
            && (|m.version| < VERSION_MAX ==> Loaded(sha, t[5].disk, slot) == Ram(slot, blob, m.version))
            && SameSlot(n.disk, t[5].disk, 1 - slot)
  {
    StagesHold(n, m, blob);
    hide AfterErase, GoodErase, Program, VerifiedBlob, Stages, Validates, Loaded;
    var t, slot := Stages(n, m, blob), InactiveSlot(n.session.active);
    GoodSlot(sha, t[4].disk, slot, m, blob);
    GoodSlot(sha, t[5].disk, slot, m, blob);
  }

  /** What the slot holds in the last two stages. */
  ghost predicate HoldsBlob(d: Disk, slot: nat, m: Manifest, blob: bytes) {
    && WellFormed(d, SLOT_SIZE) && slot < SLOTS && |blob| <= SLOT_SIZE && d.flash[slot][..|blob|] == blob
    && d.nvs.cnt[slot] == Some(m.count) && d.nvs.sha[slot] == Some(m.sha256)
  }

  lemma StagesHold(n: Node, m: Manifest, blob: bytes)
    requires WellFormed(n.disk, SLOT_SIZE) && |blob| == m.size && Wanted(m, n.session) && GoodErase(12)
    ensures var t, slot := Stages(n, m, blob), InactiveSlot(n.session.active);
            && HoldsBlob(t[4].disk, slot, m, blob) && HoldsBlob(t[5].disk, slot, m, blob)
            && t[5].disk.nvs.ver[slot] == Some(m.version) && t[5].disk.nvs.active == n.disk.nvs.active
            && SameSlot(n.disk, t[5].disk, 1 - slot)
  {
    var slot := InactiveSlot(n.session.active);
    ErasedBytes(n.disk, slot, m.size, 12);
    var d1 := AfterErase(n.disk, slot, m.size, 12);
    ProgramErased(d1.flash[slot], 0, blob, m.size);
    hide AfterErase, GoodErase, Program;
    assert d1.flash[slot][..0] + blob == blob;
  }

  lemma GoodSlot(sha: Sha256, d: Disk, slot: nat, m: Manifest, blob: bytes)
    requires HoldsBlob(d, slot, m, blob) && VerifiedBlob(sha, blob, m.count, m.sha256)
    requires |blob| == 8 * m.count && m.count >= MIN_DOMAINS
    ensures Validates(sha, d, slot) && Loaded(sha, d, slot) == Ram(slot, blob, RecordedVersion(d, slot))
  {
    hide VerifiedBlob;
  }

  /** The numbers first .. first + 9999 as a blob. */
  function Numbers(first: nat): (blob: bytes)
    requires first <= 1
    ensures |blob| == 8 * MIN_DOMAINS
  {
    EncodeList(seq(MIN_DOMAINS, i requires 0 <= i < MIN_DOMAINS => first + i))
  }

  lemma NumbersVerify(sha: Sha256, first: nat)
    requires first <= 1
    ensures VerifiedBlob(sha, Numbers(first), MIN_DOMAINS, sha(Numbers(first)))
    ensures DecodeList(Numbers(first), MIN_DOMAINS)[0] == first
  {
    DecodeOfEncode(seq(MIN_DOMAINS, i requires 0 <= i < MIN_DOMAINS => first + i));
  }

  /** A manifest of version "v2" for such a blob. */
  function NumbersManifest(sha: Sha256, first: nat): Manifest
    requires first <= 1
  {
    Manifest(Ascii("v2"), 8 * MIN_DOMAINS, MIN_DOMAINS, sha(Numbers(first)))
  }

  function Blank(): bytes { seq(SLOT_SIZE, _ => ERASED) }

  /** A device that has never been written. */
  function BlankDisk(): (d: Disk)
    ensures WellFormed(d, SLOT_SIZE)
  {
    Disk([Blank(), Blank()], Nvs(None, [None, None], [None, None], [None, None]))
  }

  /**
   * A blank device polls a manifest of 10000 entries and version "v2"; recording the version fails, so the list
   * is not installed although slot 0 validates now; the next poll of the same manifest erases slot 0 again.
   */
  lemma FirstCommitCanBeLost(sha: Sha256) returns (trace: seq<Node>, m: Manifest)
    ensures m.version != [] && Wanted(m, NOTHING) && GoodErase(12)
    ensures |trace| == 6 && PollRun(sha, {m}, trace)
    ensures trace[0] == State(BlankDisk(), BootRam(sha, BlankDisk())) && forall k :: 0 <= k < 6 ==> !Serving(trace[k])
    ensures trace[1].disk == AfterErase(trace[0].disk, 0, m.size, 12)
    ensures trace[2].disk == WithSlot(trace[1].disk, 0, Program(trace[1].disk.flash[0], 0, Numbers(0)))
    ensures SomeSlotValidates(sha, trace[4].disk)
    ensures trace[5] == trace[4].(disk := AfterErase(trace[4].disk, 0, m.size, 12))
    ensures !SomeSlotValidates(sha, trace[5].disk)
  {
    hide *;
    SectorErase();
    NumbersVerify(sha, 0);
    m := NumbersManifest(sha, 0);
    BlankBoots(sha);
    NumbersWanted(sha, 0, NOTHING);
    var n := State(BlankDisk(), NOTHING);
    var all := Stages(n, m, Numbers(0));
    StagesStart(n, m, Numbers(0));
    StagesRun(sha, n, m, Numbers(0));
    StagesValidate(sha, n, m, Numbers(0));
    RunPrefix(sha, {m}, all, 5);
    var run := all[..5];
    trace := LostNext(sha, m, run);
    assert trace[..5][4] == trace[4] && trace[..5][0] == trace[0] && trace[..5][1] == trace[1] && trace[..5][2] == trace[2];
    StillUnserved(trace);
    SlotSeen(sha, trace[4].disk, 0);
  }

  lemma NumbersWanted(sha: Sha256, first: nat, session: Ram)
    requires first <= 1 && session.version != Ascii("v2")
    ensures var m := NumbersManifest(sha, first);
            && Wanted(m, session) && m.version == Ascii("v2") && 0 < |m.version| < VERSION_MAX
            && m.size == |Numbers(first)| && m.count == MIN_DOMAINS && m.sha256 == sha(Numbers(first))
  {
    hide Ascii, Numbers;
  }

  lemma StagesStart(n: Node, m: Manifest, blob: bytes)
    requires WellFormed(n.disk, SLOT_SIZE) && |blob| == m.size && Wanted(m, n.session) && GoodErase(12)
    ensures var t, slot := Stages(n, m, blob), InactiveSlot(n.session.active);
            && t[0] == n && t[1].disk == AfterErase(n.disk, slot, m.size, 12)
            && t[2].disk == WithSlot(t[1].disk, slot, Program(t[1].disk.flash[slot], 0, blob))
  {
    hide AfterErase, Program;
  }

  lemma StillUnserved(trace: seq<Node>)
    requires trace != [] && forall k :: 0 <= k < |trace| ==> trace[k].session == NOTHING
    ensures forall k :: 0 <= k < |trace| ==> !Serving(trace[k])
  {
  }

  lemma SlotSeen(sha: Sha256, d: Disk, slot: nat)
    requires Validates(sha, d, slot)
    ensures SomeSlotValidates(sha, d)
  {
    hide Validates;
  }

  /**
   * Between those two polls the slot is valid and not served: it is kept as long as nothing wanted is polled, and
   * lost to the same manifest.
   */
  lemma HalfCommitted(sha: Sha256) returns (past: seq<Node>, m: Manifest)
    ensures past != [] && PollRun(sha, {m}, past) && past[0] == State(BlankDisk(), BootRam(sha, BlankDisk()))
    ensures var n := past[|past| - 1];
            && !Serving(n) && SomeSlotValidates(sha, n.disk)
            && !Kept(sha, {m}, n)
            && forall ms: set<Manifest> :: (forall w :: w in ms ==> !Wanted(w, n.session)) ==> Kept(sha, ms, n)
  {
    hide *;
    var trace;
    trace, m := FirstCommitCanBeLost(sha);
    past := trace[..5];
    RunPrefix(sha, {m}, trace, 5);
    var n := past[4];
    assert n == trace[4] && n.session == NOTHING by { UnservedIsNothing(sha, {m}, trace, 4); }
    WantedOne(m, NOTHING);
    KeptExactlyWhenServing(sha, {m}, {m}, past);
    forall ms: set<Manifest> | forall w :: w in ms ==> !Wanted(w, n.session) ensures Kept(sha, ms, n) {
      KeptExactlyWhenServing(sha, {m}, ms, past);
    }
  }

  lemma UnservedIsNothing(sha: Sha256, ms: set<Manifest>, trace: seq<Node>, k: nat)
    requires PollRun(sha, ms, trace) && k < |trace| && WellFormed(trace[0].disk, SLOT_SIZE)
    requires trace[0].session == BootRam(sha, trace[0].disk) && !Serving(trace[k])
    ensures trace[k].session == NOTHING
  {
    BootIsBooted(sha, trace[0].disk);
    RunKeepsBooted(sha, ms, trace, k);
  }

  lemma WantedOne(m: Manifest, session: Ram)
    requires Wanted(m, session)
    ensures m in {m} && exists w :: w in {m} && Wanted(w, session)
  {
  }

  lemma BlankBoots(sha: Sha256)
    ensures InactiveSlot(NOTHING.active) == 0 && NOTHING.version != Ascii("v2")
    ensures BootRam(sha, BlankDisk()) == NOTHING && Inv(sha, State(BlankDisk(), NOTHING))
    ensures Booted(sha, State(BlankDisk(), NOTHING)) && !Serving(State(BlankDisk(), NOTHING))
  {
    hide Blank;
  }

  lemma RunPrefix(sha: Sha256, ms: set<Manifest>, trace: seq<Node>, k: nat)
    requires PollRun(sha, ms, trace) && k <= |trace|
    ensures PollRun(sha, ms, trace[..k])
  {
    hide PollStep;
    var t := trace[..k];
    forall i | 0 < i < |t| ensures PollStep(sha, ms, t[i - 1], t[i]) {
      assert t[i - 1] == trace[i - 1] && t[i] == trace[i];
    }
  }

  lemma RunSnoc(sha: Sha256, ms: set<Manifest>, trace: seq<Node>, next: Node)
    requires trace != [] && PollRun(sha, ms, trace) && PollStep(sha, ms, trace[|trace| - 1], next)
    ensures PollRun(sha, ms, trace + [next])
  {
    hide PollStep;
    var t := trace + [next];
    forall i | 0 < i < |t| ensures PollStep(sha, ms, t[i - 1], t[i]) {
      assert t[i - 1] == trace[i - 1];
    }
  }

  /** One more poll after a run that serves nothing. */
  lemma LostNext(sha: Sha256, m: Manifest, run: seq<Node>) returns (trace: seq<Node>)
    requires run != [] && PollRun(sha, {m}, run) && Inv(sha, run[0]) && Booted(sha, run[0]) && GoodErase(12)
    requires (forall k :: 0 <= k < |run| ==> run[k].session == run[0].session) && !Serving(run[0])
    requires Wanted(m, run[0].session)
    ensures |trace| == |run| + 1 && trace[..|run|] == run && PollRun(sha, {m}, trace)
    ensures forall k :: 0 <= k < |trace| ==> trace[k].session == run[0].session
    ensures WellFormed(run[|run| - 1].disk, SLOT_SIZE)
    ensures trace[|run|] == run[|run| - 1].(disk := AfterErase(run[|run| - 1].disk, 0, m.size, 12))
    ensures !SomeSlotValidates(sha, trace[|run|].disk)
  {
    var last := run[|run| - 1];
    RunKeepsBooted(sha, {m}, run, |run| - 1);
    assert WellFormed(last.disk, SLOT_SIZE) && !Serving(last);
    hide Inv, Booted, SomeSlotValidates, Wanted, AfterErase, PollRun, Writes, Serving, GoodErase, WellFormed;
    var n' := UnservedSlotLost(sha, m, last, 12);
    assert m in {m} && PollStep(sha, {m}, last, n');
    RunSnoc(sha, {m}, run, n');
    trace := run + [n'];
  }

  /** A device that serves the numbers from 0, version "v1", out of slot 0. */
  function ServingDisk(sha: Sha256): (d: Disk)
    ensures WellFormed(d, SLOT_SIZE)
  {
    var blob := Numbers(0);
    Disk([blob + Blank()[|blob|..], Blank()],
         Nvs(Some(0), [Some(MIN_DOMAINS), None], [Some(sha(blob)), None], [Some(Ascii("v1")), None]))
  }

  lemma ServingDiskBoots(sha: Sha256)
    ensures Ascii("v1") != Ascii("v2") && InactiveSlot(0) == 1 && ServingDisk(sha).nvs.active == Some(0)
    ensures Validates(sha, ServingDisk(sha), 0)
    ensures BootRam(sha, ServingDisk(sha)) == Ram(0, Numbers(0), Ascii("v1"))
  {
    NumbersVerify(sha, 0);
    assert Ascii("v1")[1] == '1' as int && Ascii("v2")[1] == '2' as int;
    var d := ServingDisk(sha);
    assert d.flash[0][..8 * MIN_DOMAINS] == Numbers(0);
    hide Numbers, Blank, VerifiedBlob, Ascii;
    assert Validates(sha, d, 0);
  }

  /**
   * A swap whose record never takes effect: everything else succeeds, and the commit reports success or failure,
   * depending only on its final nvs_commit. The new list is served, the record still names the old slot, and a
   * reboot brings the old list back.
   */
  lemma UnrecordedSwapServesNew(sha: Sha256) returns (trace: seq<Node>, m: Manifest)
    ensures |trace| == 8 && PollRun(sha, {m}, trace) && Wanted(m, trace[0].session)
    ensures trace[0].session == Ram(0, Numbers(0), Ascii("v1")) == BootRam(sha, trace[0].disk)
    ensures trace[5].session == trace[0].session && trace[6] == trace[5].(session := Ram(1, Numbers(1), Ascii("v2")))
    ensures trace[6].disk.nvs.active == Some(0) && Numbers(0) != Numbers(1)
    ensures trace[7] == trace[6].(session := trace[0].session) && Reboots(sha, trace[6], trace[7])
  {
    hide *;
    SectorErase();
    NumbersVerify(sha, 0);
    NumbersVerify(sha, 1);
    ServingDiskBoots(sha);
    var first := Ram(0, Numbers(0), Ascii("v1"));
    m := NumbersManifest(sha, 1);
    NumbersWanted(sha, 1, first);
    var n := State(ServingDisk(sha), first);
    StagesStart(n, m, Numbers(1));
    StagesRun(sha, n, m, Numbers(1));
    StagesValidate(sha, n, m, Numbers(1));
    var all := Stages(n, m, Numbers(1));
    assert InactiveSlot(n.session.active) == 1;
    var swapped := all[5].(session := Ram(1, Numbers(1), Ascii("v2")));
    InstallMoves(sha, all[5], 1);
    RunMoves(sha, {m}, all, swapped);
    SameBoot(sha, n.disk, swapped.disk);
    var back := swapped.(session := first);
    RebootMoves(sha, swapped);
    RunMoves(sha, {m}, all + [swapped], back);
    trace := all + [swapped] + [back];
  }

  lemma InstallMoves(sha: Sha256, n: Node, slot: nat)
    requires Validates(sha, n.disk, slot) && slot != n.session.active
    ensures Moves(sha, n, n.(session := Loaded(sha, n.disk, slot)))
  {
    assert Installs(sha, n, n.(session := Loaded(sha, n.disk, slot)));
  }

  lemma RebootMoves(sha: Sha256, n: Node)
    ensures Reboots(sha, n, n.(session := BootRam(sha, n.disk))) && Moves(sha, n, n.(session := BootRam(sha, n.disk)))
  {
    hide BootRam;
  }

  lemma RunMoves(sha: Sha256, ms: set<Manifest>, trace: seq<Node>, next: Node)
    requires trace != [] && PollRun(sha, ms, trace) && Moves(sha, trace[|trace| - 1], next)
    ensures PollRun(sha, ms, trace + [next])
  {
    hide PollRun, Moves;
    RunSnoc(sha, ms, trace, next);
  }

  /** A reboot depends only on the recorded slot when that one validates. */
  lemma SameBoot(sha: Sha256, d: Disk, d': Disk)
    requires WellFormed(d, SLOT_SIZE) && WellFormed(d', SLOT_SIZE) && d.nvs.active == d'.nvs.active == Some(0)
    requires SameSlot(d, d', 0) && Validates(sha, d, 0)
    ensures BootRam(sha, d') == BootRam(sha, d)
  {
    assert Validates(sha, d', 0) && Loaded(sha, d', 0) == Loaded(sha, d, 0);
  }
}
