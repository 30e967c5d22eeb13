/** The sinkhole's list store and updater: load, boot, commit, download and one poll, as they run. */
module Sinkhole {
  import opened Bytes
  import opened Bits
  import opened Text
  import opened LittleEndian
  import opened SortedList
  import opened Generate
  import opened Flash
  import opened Manifest
  import opened SlotStore

  /** What one blob request delivers: a status and the chunks read until end of stream or a read error. */
  datatype Response = Response(connected: bool, status: int, chunks: seq<bytes>, readError: bool)

  /** The response that makes a download succeed. */
  ghost predicate Delivers(sha: Sha256, r: Response, m: Manifest) {
    r.connected && r.status == 200 && !r.readError && |Flatten(r.chunks)| == m.size && sha(Flatten(r.chunks)) == m.sha256
  }

  class Sinkhole {
    const sha: Sha256
    const dev: Device<Ram>
    var hashes: seq<u64>   // the PSRAM buffer, replaced as a whole
    var count: nat
    var active: int
    var version: bytes

    ghost predicate Valid()
      reads this, dev
    {
      && dev.Valid() && dev.slotSize == SLOT_SIZE && -1 <= active < SLOTS
      && dev.session.active == active && dev.session.version == version
      && |dev.session.blob| == 8 * count && hashes == DecodeList(dev.session.blob, count)
      && Inv(sha, State(dev.disk, dev.session))
    }

    /** The states recorded since the log was `from` are steps of the updates. */
    ghost predicate Stepped(from: seq<Node>, us: set<Update>)
      reads this, dev
    {
      from != [] && from <= dev.log && Chain(sha, us, dev.log[|from| - 1..])
    }

    /** They are steps of polls that want m. */
    ghost predicate Polled(from: seq<Node>, m: Manifest)
      reads this, dev
    {
      from != [] && from <= dev.log && PollRun(sha, {m}, dev.log[|from| - 1..])
    }

    /** The state of every session between its boot and its end. */
    ghost predicate Settled()
      reads this, dev
    {
      Booted(sha, State(dev.disk, dev.session))
    }

    constructor (sha: Sha256, dev: Device<Ram>)
      requires dev.Valid() && dev.slotSize == SLOT_SIZE && dev.session == NOTHING
      ensures Valid() && this.sha == sha && this.dev == dev
    {
      this.sha, this.dev := sha, dev;
      hashes, count, active, version := [], 0, -1, [];
    }

    /** Full validation of a slot; without resources (memory, flash reads, hashing) it may fail on a good one. */
    method Validate(slot: nat, resources: bool) returns (r: Option<Ram>)
      requires dev.Valid() && dev.slotSize == SLOT_SIZE && slot < SLOTS
      ensures r.Some? ==> Validates(sha, dev.disk, slot) && r.value == Loaded(sha, dev.disk, slot)
      ensures resources && Validates(sha, dev.disk, slot) ==> r.Some?
    {
      var d := dev.disk;
      if d.nvs.cnt[slot].None? || d.nvs.sha[slot].None? || |d.nvs.sha[slot].value| != 32 {
        return None;
      }
      var count, want := d.nvs.cnt[slot].value, d.nvs.sha[slot].value;
      if count < MIN_DOMAINS || count * 8 > SLOT_SIZE {
        return None;
      }
      var fine: bool := *;
      if !resources && !fine {
        return None;
      }
      var data := d.flash[slot][..8 * count];
      if sha(data) != want {
        return None;
      }
      var buf := DecodeList(data, count);
      for i := 1 to count
        invariant forall k :: 0 < k < i ==> buf[k - 1] < buf[k]
      {
        if buf[i - 1] >= buf[i] {
          return None;
        }
      }
      NeighboursSuffice(buf);
      return Some(Ram(slot, data, RecordedVersion(d, slot)));
    }

    /** The locked swap: the new buffer, its count, slot and version become the served ones. */
    method Install(ram: Ram)
      requires dev.Valid() && dev.slotSize == SLOT_SIZE && Inv(sha, State(dev.disk, ram))
      modifies this, dev
      ensures Valid() && dev.session == ram && dev.disk == old(dev.disk)
      ensures dev.log == old(dev.log) + [State(dev.disk, ram)]
    {
      InvShape(sha, State(dev.disk, ram));
      count := |ram.blob| / 8;
      hashes := DecodeList(ram.blob, count);
      active, version := ram.active, ram.version;
      dev.SetSession(ram);
    }

    /** The boot search: what will be served, and whether it came from a slot other than the recorded one. */
    method Search() returns (ram: Ram, fallback: bool)
      requires dev.Valid() && dev.slotSize == SLOT_SIZE
      ensures ram == BootRam(sha, dev.disk)
      ensures fallback <==> 0 <= ram.active < SLOTS && !Names(dev.disk, ram.active)
      ensures ram.active >= 0 ==> ram.active < SLOTS
    {
      var recorded := if dev.disk.nvs.active.Some? then dev.disk.nvs.active.value as int else 0xFF;
      if recorded < SLOTS {
        var r := Validate(recorded, true);
        if r.Some? {
          return r.value, false;
        }
      }
      for slot := 0 to SLOTS
        invariant forall s: nat :: (s < slot || s == recorded) && s < SLOTS ==> !Validates(sha, dev.disk, s)
      {
        if slot == recorded {
          continue;
        }
        var r := Validate(slot, true);
        if r.Some? {
          return r.value, true;
        }
      }
      return NOTHING, false;
    }

    /** Power-on: RAM is lost; the recorded slot is loaded, or else the other one, which is then recorded. */
    method Boot() returns (ok: bool)
      requires Valid()
      modifies this, dev
      ensures Valid() && ok == (active >= 0)
      ensures dev.disk == old(dev.disk) || (ok && dev.disk == WithActive(old(dev.disk), active))
      ensures dev.healthy && ok ==> Names(dev.disk, active)
      ensures dev.session == BootRam(sha, old(dev.disk))
      ensures ok <==> exists slot :: Validates(sha, old(dev.disk), slot)
      ensures Stepped(old(dev.log), {}) && Settled()
    {
      hide Chain, Validates, BootRam, StepOf, Inv;
      ghost var log := dev.log;
      ChainStart(sha, {}, log);
      BootFindsAnyValidSlot(sha, dev.disk);
      BootIsBooted(sha, dev.disk);
      var ram, fallback := Search();
      assert Reboots(sha, log[|log| - 1], State(dev.disk, ram));
      assert StepOf(sha, {}, log[|log| - 1], State(dev.disk, ram)) by { BootStep(log[|log| - 1], ram); }
      Install(ram);
      ChainSnoc(sha, {}, log, |log| - 1, State(dev.disk, ram));
      if fallback {
        var _, stored := RecordActive({}, log);
      }
      return ram.active >= 0;
    }

    lemma BootStep(n: Node, ram: Ram)
      requires ram == BootRam(sha, n.disk)
      ensures StepOf(sha, {}, n, State(n.disk, ram))
    {
    }

    /** Records the served slot in NVS: what the set reports is ignored, the result is that of the commit. */
    method RecordActive(ghost us: set<Update>, ghost from: seq<Node>) returns (ok: bool, ghost stored: bool)
      requires Valid() && active >= 0 && Stepped(from, us)
      modifies dev
      ensures Valid() && dev.session == old(dev.session) && Stepped(from, us)
      ensures dev.healthy ==> ok && stored
      ensures dev.disk == if stored then WithActive(old(dev.disk), active) else old(dev.disk)
    {
      hide Chain, Validates;
      ghost var log := dev.log;
      ActivationKeepsSlots(sha, dev.disk, active, active);
      var _, effect := dev.Store(WithActive(dev.disk, active));
      stored := effect;
      ChainSnoc(sha, us, log, |from| - 1, State(dev.disk, dev.session));
      ok := dev.Commit();
    }

    // ---- lookups ---------------------------------------------------------------------------------------

    /** Membership in the served list, within floor(log2 n) + 1 probes. */
    method Contains(hash: u64) returns (found: bool, ghost probes: nat)
      requires Valid()
      ensures found <==> hash in DecodeList(dev.session.blob, |dev.session.blob| / 8)
      ensures probes <= BitLength(|dev.session.blob| / 8)
    {
      ServedAscending(sha, State(dev.disk, dev.session));
      found, probes := EarlyExitSearch(hashes, hash);
    }

    // ---- durable writes to the slot that is not served -------------------------------------------------

    /** One NVS write of an update. */
    method StoreRecord(next: Disk, ghost u: Update, ghost from: seq<Node>) returns (ok: bool)
      requires Valid() && Stepped(from, {u}) && u.session == dev.session && u.slot != active
      requires SlotWrite(u.m, dev.disk, next, u.slot)
      modifies dev
      ensures Valid() && dev.session == old(dev.session) && Stepped(from, {u})
      ensures (dev.healthy ==> ok) && (ok ==> dev.disk == next) && WellFormed(dev.disk, SLOT_SIZE)
      ensures dev.disk.nvs.active == old(dev.disk.nvs.active)
    {
      ghost var log := dev.log;
      assert next.nvs.active == dev.disk.nvs.active;
      ghost var stored;
      ok, stored := dev.Store(next);
      hide Chain, SlotWrite, Inv;
      ghost var n, n' := log[|log| - 1], State(dev.disk, dev.session);
      assert Step(sha, u, n, n');
      StepInChain(sha, u, n, n');
      ChainSnoc(sha, {u}, log, |from| - 1, n');
      StepSafe(sha, u, n, n');
      InvWellFormed(sha, n');
    }

    /** Two further states of a slot: torn in the middle of the operation, and after it. */
    lemma TwoSlotWrites(log: seq<Node>, disk: Disk, torn: bytes, content: bytes, u: Update, n: nat)
      requires 0 < n <= |log| && Chain(sha, {u}, log[n - 1..]) && log[|log| - 1] == State(disk, u.session)
      requires Inv(sha, State(disk, u.session)) && u.slot < SLOTS && u.slot != u.session.active
      requires |torn| == |content| == SLOT_SIZE && WellFormed(disk, SLOT_SIZE)
      ensures var next := WithSlot(disk, u.slot, content);
              && Chain(sha, {u}, (log + [State(WithSlot(disk, u.slot, torn), u.session), State(next, u.session)])[n - 1..])
              && Inv(sha, State(next, u.session))
    {
      var s := u.session;
      var mid, next := State(WithSlot(disk, u.slot, torn), s), State(WithSlot(disk, u.slot, content), s);
      TornWrite(sha, u, disk, torn, content);
      hide *;
      StepInChain(sha, u, State(disk, s), mid);
      StepInChain(sha, u, mid, next);
      ChainSnoc(sha, {u}, log, n - 1, mid);
      ChainSnoc(sha, {u}, log + [mid], n - 1, next);
      assert log + [mid] + [next] == log + [mid, next];
    }

    method EraseSlot(slot: nat, len: nat, ghost u: Update, ghost from: seq<Node>) returns (ok: bool)
      requires Valid() && Stepped(from, {u}) && u.session == dev.session && u.slot == slot
      requires slot < SLOTS && slot != active && len <= SLOT_SIZE
      modifies dev
      ensures Valid() && dev.session == old(dev.session) && Stepped(from, {u})
      ensures dev.healthy ==> ok
      ensures dev.disk == WithSlot(old(dev.disk), slot, dev.disk.flash[slot])
      ensures ok ==> dev.disk.flash[slot] == EraseRange(old(dev.disk.flash[slot]), len)
    {
      ghost var log, disk := dev.log, dev.disk;
      ghost var torn;
      ok, torn := dev.Erase(slot, len);
      hide Chain, Inv;
      TwoSlotWrites(log, disk, torn, dev.disk.flash[slot], u, |from|);
    }

    method WriteSlot(slot: nat, at: nat, data: bytes, ghost u: Update, ghost from: seq<Node>) returns (ok: bool)
      requires Valid() && Stepped(from, {u}) && u.session == dev.session && u.slot == slot
      requires slot < SLOTS && slot != active && at + |data| <= SLOT_SIZE
      modifies dev
      ensures Valid() && dev.session == old(dev.session) && Stepped(from, {u})
      ensures dev.healthy ==> ok
      ensures dev.disk == WithSlot(old(dev.disk), slot, dev.disk.flash[slot])
      ensures ok ==> dev.disk.flash[slot] == Program(old(dev.disk.flash[slot]), at, data)
    {
      ghost var log, disk := dev.log, dev.disk;
      ghost var torn;
      ok, torn := dev.Write(slot, at, data);
      hide Chain, Inv;
      TwoSlotWrites(log, disk, torn, dev.disk.flash[slot], u, |from|);
    }

    // ---- one update ---------------------------------------------------------------------------------------

    /**
     * Erases the slot and streams the response into it, hashing as it goes. On success the slot starts with
     * exactly the delivered bytes, which have the manifest's length and digest.
     */
    method DownloadToSlot(m: Manifest, slot: nat, resp: Response, resources: bool) returns (ok: bool)
      requires Valid() && slot != active
      modifies dev
      ensures Valid() && dev.session == old(dev.session) && Stepped(old(dev.log), {Update(m, slot, dev.session)})
      ensures slot >= SLOTS || m.size > SLOT_SIZE ==> !ok && dev.log == old(dev.log) && dev.disk == old(dev.disk)
      ensures slot < SLOTS ==> dev.disk == WithSlot(old(dev.disk), slot, dev.disk.flash[slot])
      ensures ok ==> Delivers(sha, resp, m) && dev.disk.flash[slot][..m.size] == Flatten(resp.chunks)
      ensures ok ==> resp.status == 200 && !resp.readError && |Flatten(resp.chunks)| == m.size
      ensures dev.healthy && resources && slot < SLOTS && m.size <= SLOT_SIZE && Delivers(sha, resp, m) ==> ok
      ensures dev.healthy && !resp.connected && slot < SLOTS && m.size <= SLOT_SIZE ==>
                GoodErase(dev.eraseShift) && dev.disk == AfterErase(old(dev.disk), slot, m.size, dev.eraseShift)
    {
      hide Chain, Inv, EraseRange, Program, Pow2, EraseLength, VerifiedBlob;
      ghost var from, u := dev.log, Update(m, slot, dev.session);
      ChainStart(sha, {u}, dev.log);
      if slot >= SLOTS {
        return false;
      }
      assert dev.disk == WithSlot(dev.disk, slot, dev.disk.flash[slot]);
      if m.size > SLOT_SIZE {
        return false;
      }
      EraseLengthIsLeast(m.size, dev.eraseShift, SLOT_SIZE);
      var eraseLen := EraseLength(m.size, Pow2(dev.eraseShift));
      ok := EraseSlot(slot, eraseLen, u, from);
      var fine: bool := *;
      if !ok || !resp.connected || resp.status != 200 || !(resources || fine) {
        return false;
      }
      ErasedAfter(old(dev.disk.flash[slot]), eraseLen);
      var body;
      ok, body := Stream(m, slot, resp, eraseLen, u, from);
      if !ok || resp.readError || |body| != m.size {
        return false;
      }
      return sha(body) == m.sha256;
    }

    /** Writes the chunks one behind the other; stops at one that is too much or cannot be written. */
    method Stream(m: Manifest, slot: nat, resp: Response, eraseLen: nat, ghost u: Update, ghost from: seq<Node>)
      returns (ok: bool, body: bytes)
      requires Valid() && Stepped(from, {u}) && u.session == dev.session && u.slot == slot
      requires slot < SLOTS && slot != active && m.size <= eraseLen <= SLOT_SIZE
      requires ErasedRange(dev.disk.flash[slot], 0, eraseLen)
      modifies dev
      ensures Valid() && dev.session == old(dev.session) && Stepped(from, {u})
      ensures dev.disk == WithSlot(old(dev.disk), slot, dev.disk.flash[slot])
      ensures ok ==> body == Flatten(resp.chunks) && |body| <= m.size && dev.disk.flash[slot][..|body|] == body
      ensures dev.healthy && |Flatten(resp.chunks)| <= m.size ==> ok
    {
      hide Chain, Inv, Program;
      ok, body := true, [];
      for i := 0 to |resp.chunks|
        invariant Valid() && dev.session == old(dev.session) && Stepped(from, {u})
        invariant dev.disk == WithSlot(old(dev.disk), slot, dev.disk.flash[slot])
        invariant |body| <= m.size && body == Flatten(resp.chunks[..i])
        invariant dev.disk.flash[slot][..|body|] == body && ErasedRange(dev.disk.flash[slot], |body|, eraseLen)
      {
        var chunk := resp.chunks[i];
        FlattenUpTo(resp.chunks, i);
        TooLong(resp.chunks, i + 1);
        if |body| + |chunk| > m.size {
          return false, body;
        }
        ghost var before := dev.disk.flash[slot];
        ok := WriteSlot(slot, |body|, chunk, u, from);
        if !ok {
          return;
        }
        ProgramErased(before, |body|, chunk, eraseLen);
        body := body + chunk;
      }
      assert resp.chunks[..|resp.chunks|] == resp.chunks;
      ok := true;
    }

    /** Records the metadata of an update, one durable write each. */
    method RecordUpdate(m: Manifest, slot: nat, ghost u: Update) returns (ok: bool)
      requires Valid() && slot < SLOTS && slot != active && u == Update(m, slot, dev.session)
      modifies dev
      ensures Valid() && dev.session == old(dev.session) && Stepped(old(dev.log), {u}) && (dev.healthy ==> ok)
      ensures ok ==> dev.disk == Recorded(old(dev.disk), slot, m)
      ensures dev.disk.nvs.active == old(dev.disk.nvs.active)
    {
      hide Chain, Inv, SlotWrite;
      ghost var from := dev.log;
      ChainStart(sha, {u}, dev.log);
      SlotWrites(m, dev.disk, slot, []);
      ok := StoreRecord(WithCount(dev.disk, slot, m.count % TWO_32), u, from);
      if ok {
        SlotWrites(m, dev.disk, slot, []);
        ok := StoreRecord(WithSha(dev.disk, slot, m.sha256), u, from);
      }
      if ok {
        SlotWrites(m, dev.disk, slot, []);
        ok := StoreRecord(WithVersion(dev.disk, slot, m.version), u, from);
      }
      if ok {
        ok := dev.Commit();
      }
    }

    /**
     * Records the slot's metadata, re-validates the slot from flash, swaps it in, and only then records it as
     * active (stored: that record took effect). A failed commit has swapped exactly when it failed at the very
     * end. Success does not mean that the record names the slot: after a swap it does exactly when it took effect,
     * or named the slot before; and the next boot loads the new list exactly when the record names its slot, the
     * other slot does not validate, or the record names neither and the new slot comes first.
     */
    method CommitSlot(slot: int, m: Manifest, resources: bool) returns (ok: bool, ghost stage: Stage, ghost stored: bool)
      requires Valid()
      modifies this, dev
      ensures Valid() && (ok <==> stage.Committed?)
      ensures stage.Rejected? <==> !(0 <= slot < SLOTS) || slot == old(active)
      ensures if stage.Rejected? then dev.log == old(dev.log) && dev.disk == old(dev.disk)
              else Stepped(old(dev.log), {Update(m, slot, old(dev.session))})
      ensures if stage.NotActivated? || stage.Committed?
              then Validates(sha, dev.disk, slot) && dev.session == Loaded(sha, dev.disk, slot) && active == slot
              else dev.session == old(dev.session)
      ensures dev.session != old(dev.session) <==> stage.NotActivated? || stage.Committed?
      ensures stage.NotActivated? || stage.Committed? ==>
                && (dev.disk.nvs.active == Some(slot) <==> stored || old(dev.disk.nvs.active) == Some(slot))
                && (BootRam(sha, dev.disk) == dev.session <==> BootsFrom(sha, dev.disk, slot))
      ensures !stored ==> dev.disk.nvs.active == old(dev.disk.nvs.active)
      ensures dev.healthy && ok ==> stored
      ensures dev.healthy && resources && 0 <= slot < SLOTS && slot != old(active) && |m.version| < VERSION_MAX
              && m.count >= MIN_DOMAINS && 8 * m.count <= SLOT_SIZE
              && VerifiedBlob(sha, old(dev.disk.flash[slot])[..8 * m.count], m.count, m.sha256) ==>
                ok && dev.session == Ram(slot, old(dev.disk.flash[slot])[..8 * m.count], m.version)
    {
      hide Chain, Inv, VerifiedBlob, SlotWrite, StepOf, BootRam, BootsFrom;
      if slot < 0 || slot >= SLOTS || slot == active {
        return false, Rejected, false;
      }
      ghost var from, u := dev.log, Update(m, slot, dev.session);
      ok := RecordUpdate(m, slot, u);
      if !ok {
        return false, NotRecorded, false;
      }
      var r := Validate(slot, resources);
      if r.None? {
        return false, NotValid, false;
      }
      ok, stored := Activate(slot, r.value, u, from);
      return ok, if ok then Committed else NotActivated, stored;
    }

    /** The swap, and then the record of it. */
    method Activate(slot: nat, ram: Ram, ghost u: Update, ghost from: seq<Node>)
      returns (ok: bool, ghost stored: bool)
      requires Valid() && slot < SLOTS && slot != active && Stepped(from, {u})
      requires Validates(sha, dev.disk, slot) && ram == Loaded(sha, dev.disk, slot)
      modifies this, dev
      ensures Valid() && Stepped(from, {u}) && (dev.healthy ==> ok && stored)
      ensures Validates(sha, dev.disk, slot) && dev.session == ram == Loaded(sha, dev.disk, slot) && active == slot
      ensures dev.disk == if stored then WithActive(old(dev.disk), slot) else old(dev.disk)
      ensures BootRam(sha, dev.disk) == dev.session <==> BootsFrom(sha, dev.disk, slot)
    {
      ghost var log, disk := dev.log, dev.disk;
      InstallKeepsInv(sha, disk, slot);
      InstallStep(u, log[|log| - 1], slot);
      LoadedAfterActivation(sha, disk, slot);
      assert ram.active == slot;
      hide Chain, Inv, Validates, Loaded, StepOf, BootRam, BootsFrom;
      Install(ram);
      ChainSnoc(sha, {u}, log, |from| - 1, State(dev.disk, ram));
      ok, stored := RecordActive({u}, from);
      BootLoads(sha, dev.disk, slot);
    }

    lemma InstallStep(u: Update, n: Node, slot: nat)
      requires slot != n.session.active && Validates(sha, n.disk, slot)
      ensures StepOf(sha, {u}, n, State(n.disk, Loaded(sha, n.disk, slot)))
    {
      assert Installs(sha, n, State(n.disk, Loaded(sha, n.disk, slot)));
    }

    /** One poll: fetch the manifest, compare versions, download, commit. doc is None when the fetch failed. */
    method CheckOnce(doc: Option<Document>, resp: Response, resources: bool)
      requires Valid()
      modifies this, dev
      ensures Valid() && (old(Settled()) ==> Settled())
      ensures !Worthwhile(doc, old(version)) ==>
                dev.log == old(dev.log) && dev.disk == old(dev.disk) && dev.session == old(dev.session)
      ensures Worthwhile(doc, old(version)) ==>
                && Stepped(old(dev.log), {Poll(Content(doc.value), old(dev.session))})
                && Polled(old(dev.log), Content(doc.value))
      ensures old(active) >= 0 ==> active >= 0
      ensures dev.healthy && resources && Worthwhile(doc, old(version)) && Publishable(sha, Content(doc.value), resp) ==>
                active >= 0 && dev.session.blob == Flatten(resp.chunks) && version == Content(doc.value).version
      ensures dev.healthy && Worthwhile(doc, old(version)) && !resp.connected ==>
                && dev.session == old(dev.session) && GoodErase(dev.eraseShift)
                && dev.disk == AfterErase(old(dev.disk), InactiveSlot(active), Content(doc.value).size, dev.eraseShift)
    {
      hide Chain, Inv, VerifiedBlob, PollRun, Booted, AfterErase, BootRam, BootsFrom, Validates, Loaded;
      if doc.None? {
        return;
      }
      var m := ParseManifest(doc.value);
      if m.None? {
        return;
      }
      if version == m.value.version {
        return;
      }
      ghost var from := dev.log;
      var slot := InactiveSlot(active);
      ghost var u := Poll(m.value, dev.session);
      var ok := DownloadToSlot(m.value, slot, resp, resources);
      ghost var middle := dev.log;
      if ok {
        var _, stage, stored := CommitSlot(slot, m.value, resources);
        ChainJoin(sha, {u}, middle, dev.log, |from|);
      }
      if m.value.size <= SLOT_SIZE {
        assert Wanted(u.m, u.session);
        PollLeavesSettled(from, u);
      }
    }

    lemma PollLeavesSettled(from: seq<Node>, u: Update)
      requires Valid() && Stepped(from, {u}) && Wanted(u.m, u.session) && u == Poll(u.m, u.session)
      requires Inv(sha, from[|from| - 1])
      ensures Polled(from, u.m)
      ensures Booted(sha, from[|from| - 1]) ==> Settled()
      ensures from[|from| - 1].session.active >= 0 ==> active >= 0
    {
      hide Inv, Booted, PollRun;
      var trace := dev.log[|from| - 1..];
      ChainOfPoll(sha, u, trace);
      RunSafe(sha, {u}, trace, |trace| - 1);
      assert trace[0] == from[|from| - 1] && trace[|trace| - 1] == State(dev.disk, dev.session);
      if Booted(sha, trace[0]) {
        RunKeepsBooted(sha, {u.m}, trace, |trace| - 1);
      }
    }
  }

  /** How far a commit got; only the first four are errors. */
  datatype Stage = Rejected | NotRecorded | NotValid | NotActivated | Committed

  function Recorded(d: Disk, slot: nat, m: Manifest): Disk
    requires WellFormed(d, SLOT_SIZE) && slot < SLOTS
  {
    WithVersion(WithSha(WithCount(d, slot, m.count % TWO_32), slot, m.sha256), slot, m.version)
  }

  lemma InvWellFormed(sha: Sha256, n: Node)
    requires Inv(sha, n)
    ensures WellFormed(n.disk, SLOT_SIZE)
  {
  }

  lemma ServedAscending(sha: Sha256, n: Node)
    requires Inv(sha, n)
    ensures |n.session.blob| % 8 == 0 && Ascending(DecodeList(n.session.blob, |n.session.blob| / 8))
  {
  }

  /** A booted device that serves nothing polls a wanted manifest and cannot connect: no slot validates any more. */
  method PollCanLose(s: Sinkhole, doc: Document, resp: Response, resources: bool)
    requires s.Valid() && s.Settled() && s.active < 0 && s.dev.healthy
    requires Worthwhile(Some(doc), s.version) && !resp.connected
    modifies s, s.dev
    ensures s.Valid() && s.active < 0 && !SomeSlotValidates(s.sha, s.dev.disk)
  {
    hide Inv, Booted, AfterErase, SomeSlotValidates, PollRun;
    ghost var n, m := State(s.dev.disk, s.dev.session), Content(doc);
    assert Wanted(m, n.session) && !Serving(n);
    s.CheckOnce(Some(doc), resp, resources);
    ghost var n' := UnservedSlotLost(s.sha, m, n, s.dev.eraseShift);
    assert InactiveSlot(s.active) == 0;
  }

  /** A response that carries a whole blob. */
  ghost predicate Carries(resp: Response, blob: bytes) {
    resp.connected && resp.status == 200 && !resp.readError && Flatten(resp.chunks) == blob
  }

  /** While the published version is the one served, polls write nothing and change nothing, whatever they receive. */
  method LaterPolls(s: Sinkhole, doc: Document, resps: seq<Response>, resources: bool)
    requires s.Valid() && !Worthwhile(Some(doc), s.version)
    modifies s, s.dev
    ensures s.Valid() && s.dev.log == old(s.dev.log) && s.dev.disk == old(s.dev.disk) && s.dev.session == old(s.dev.session)
  {
    hide Worthwhile, PollRun, Chain;
    for i := 0 to |resps|
      invariant s.Valid() && s.dev.log == old(s.dev.log)
      invariant s.dev.disk == old(s.dev.disk) && s.dev.session == old(s.dev.session)
    {
      s.CheckOnce(Some(doc), resps[i], resources);
    }
  }

  /**
   * Against a generator that keeps one artifact published, with nothing failing: the first poll ends serving
   * exactly that blob, and every later one (first is the log before them) writes and changes nothing.
   */
  method PollStable(s: Sinkhole, art: Artifact, version: bytes, url: bytes, resps: seq<Response>)
    returns (ghost first: seq<Node>)
    requires s.Valid() && s.dev.healthy && resps != []
    requires VerifiedBlob(s.sha, art.blob, art.count, art.sha256) && art.count >= MIN_DOMAINS && |art.blob| <= SLOT_SIZE
    requires (if |version| < 32 then version else version[..31]) != s.version && Carries(resps[0], art.blob)
    modifies s, s.dev
    ensures s.Valid() && s.active >= 0
    ensures s.dev.session.blob == art.blob && s.hashes == DecodeList(art.blob, art.count)
    ensures s.version == if |version| < 32 then version else version[..31]
    ensures !Worthwhile(Some(BuildManifest(art, version, url)), s.version)
    ensures s.dev.log == first
  {
    hide VerifiedBlob, Chain, Inv, PollRun;
    var doc := BuildManifest(art, version, url);
    VerifiedParts(s.sha, art);
    ManifestRoundTrip(art, version, url);
    hide Acceptable, Content, BuildManifest;
    s.CheckOnce(Some(doc), resps[0], true);
    first := s.dev.log;
    LaterPolls(s, doc, resps[1..], true);
  }

  lemma VerifiedParts(sha: Sha256, art: Artifact)
    requires VerifiedBlob(sha, art.blob, art.count, art.sha256)
    ensures |art.blob| == 8 * art.count && sha(art.blob) == art.sha256
  {
  }

  /** The poll found an acceptable manifest for another version than the one served, and it fits a slot. */
  ghost predicate Worthwhile(doc: Option<Document>, version: bytes) {
    doc.Some? && Acceptable(doc.value) && Content(doc.value).version != version && Content(doc.value).size <= SLOT_SIZE
  }

  /** What makes a poll download: the fields of the manifest, and another version than the one served. */
  lemma WorthwhileExactly(doc: Document, version: bytes)
    ensures Worthwhile(Some(doc), version) <==>
              && doc.format == Some(2) && doc.url.Some? && doc.version.Some? && doc.size.Some? && doc.count.Some?
              && doc.sha256.Some? && |doc.sha256.value| == 64 && HexString(doc.sha256.value)
              && doc.size.value == 8 * doc.count.value && doc.count.value >= 10000 && doc.size.value <= 14 * 1024 * 1024
              && version != if |doc.version.value| < 32 then doc.version.value else doc.version.value[..31]
  {
    hide HexString, HexValue;
    if doc.version.Some? {
      TruncateKeeps(doc.version.value);
    }
  }

  /** The response is the manifest's blob, which fits a slot and is an ascending list. */
  ghost predicate Publishable(sha: Sha256, m: Manifest, resp: Response) {
    && m.size <= SLOT_SIZE && Delivers(sha, resp, m)
    && m.size == 8 * m.count && VerifiedBlob(sha, Flatten(resp.chunks), m.count, m.sha256)
  }

  lemma ErasedAfter(f: bytes, n: nat)
    requires n <= |f|
    ensures ErasedRange(EraseRange(f, n), 0, n)
  {
  }

  /** Chunks only add to the length. */
  lemma {:induction false} TooLong(chunks: seq<bytes>, i: nat)
    requires i <= |chunks|
    ensures |Flatten(chunks[..i])| <= |Flatten(chunks)|
  {
    FlatMapFrom((c: bytes) => c, chunks, i);
  }
}
