/** The generator's own dual-slot store: what survives a power failure in the middle of saving an artifact. */
module ArtifactStore {
  import opened Bytes
  import opened Bits
  import opened SortedList
  import opened Generate
  import opened Flash
  import Manifest
  import SlotStore

  /** An artifact with the version it was saved under. */
  datatype Saved = Saved(art: Artifact, version: bytes)

  /** The recorded slot, when it names one. */
  ghost function ActiveSlot(d: Disk): Option<nat> {
    if d.nvs.active.Some? && d.nvs.active.value < SLOTS then Some(d.nvs.active.value) else None
  }

  ghost predicate SlotHolds(sha: Sha256, d: Disk, slot: nat, size: nat)
    requires WellFormed(d, size) && slot < SLOTS
  {
    && d.nvs.cnt[slot].Some? && d.nvs.sha[slot].Some?
    && 0 < 8 * d.nvs.cnt[slot].value <= size
    && VerifiedBlob(sha, d.flash[slot][..8 * d.nvs.cnt[slot].value], d.nvs.cnt[slot].value, d.nvs.sha[slot].value)
  }

  /** What a reboot finds on the disk. */
  ghost function Restored(sha: Sha256, d: Disk, size: nat): Option<Saved>
    requires WellFormed(d, size)
  {
    match ActiveSlot(d)
    case None => None
    case Some(a) =>
      if !SlotHolds(sha, d, a, size) then None else
      var n := d.nvs.cnt[a].value;
      Some(Saved(Artifact(d.flash[a][..8 * n], n, d.nvs.sha[a].value), SlotStore.RecordedVersion(d, a)))
  }

  /** What saving art under version is read back as: versions too long for the load buffer come back empty. */
  function AsSaved(art: Artifact, version: bytes): Saved {
    Saved(art, if |version| < Manifest.VERSION_MAX then version else [])
  }

  /** What a reboot after a completed save restores: an artifact without entries is refused. */
  function Reloaded(saved: Saved): Option<Saved> {
    if saved.art.count > 0 then Some(AsSaved(saved.art, saved.version)) else None
  }

  /** A recorded slot always restores. */
  ghost predicate Sound(sha: Sha256, d: Disk, size: nat)
    requires WellFormed(d, size)
  {
    ActiveSlot(d).Some? ==> Restored(sha, d, size).Some?
  }

  /** The disks differ at most in the given slot's flash and records. */
  ghost predicate OnlySlot(d: Disk, d': Disk, slot: nat, size: nat)
    requires WellFormed(d, size) && slot < SLOTS
  {
    && WellFormed(d', size) && d'.nvs.active == d.nvs.active
    && forall s :: 0 <= s < SLOTS && s != slot ==>
        d'.flash[s] == d.flash[s] && d'.nvs.cnt[s] == d.nvs.cnt[s]
        && d'.nvs.sha[s] == d.nvs.sha[s] && d'.nvs.ver[s] == d.nvs.ver[s]
  }

  lemma OtherSlotInvisible(sha: Sha256, d: Disk, d': Disk, slot: nat, size: nat)
    requires WellFormed(d, size) && slot < SLOTS && OnlySlot(d, d', slot, size) && ActiveSlot(d) != Some(slot)
    ensures Restored(sha, d', size) == Restored(sha, d, size) && Sound(sha, d', size) == Sound(sha, d, size)
  {
  }

  class Store {
    const sha: Sha256
    const dev: Device<()>

    ghost predicate Valid()
      reads this, dev
    {
      dev.Valid()
    }

    constructor (sha: Sha256, dev: Device<()>)
      requires dev.Valid()
      ensures Valid() && this.sha == sha && this.dev == dev
    {
      this.sha, this.dev := sha, dev;
    }

    /** Restores the recorded artifact after full re-validation; memory or flash trouble can only lose it. */
    method Load(resources: bool) returns (r: Option<Saved>)
      requires Valid()
      ensures r.Some? ==> r == Restored(sha, dev.disk, dev.slotSize)
      ensures resources ==> r == Restored(sha, dev.disk, dev.slotSize)
    {
      var d := dev.disk;
      var active := if d.nvs.active.Some? then d.nvs.active.value else 0xFF;
      if active >= SLOTS {
        return None;
      }
      if d.nvs.cnt[active].None? || d.nvs.sha[active].None? || |d.nvs.sha[active].value| != 32 {
        return None;
      }
      var count, want := d.nvs.cnt[active].value, d.nvs.sha[active].value;
      var version := SlotStore.RecordedVersion(d, active);
      var blobLen: nat := (count as int) * 8;
      var fine: bool := *;
      if blobLen == 0 || blobLen > dev.slotSize || !(resources || fine) {
        return None;
      }
      var blob := d.flash[active][..blobLen];
      var ok := VerifyBlob(blob, count, want, sha);
      return if ok then Some(Saved(Artifact(blob, count, want), version)) else None;
    }

    /** Every state recorded since `from` differs from the starting disk only in the slot. */
    ghost predicate Quiet(from: seq<State<()>>, d: Disk, slot: nat)
      reads this, dev
      requires WellFormed(d, dev.slotSize) && slot < SLOTS
    {
      && dev.Valid() && from <= dev.log && OnlySlot(d, dev.disk, slot, dev.slotSize)
      && forall i :: |from| <= i < |dev.log| ==> OnlySlot(d, dev.log[i].disk, slot, dev.slotSize)
    }

    /**
     * Erase, write, record, read back, verify, and only then flip the recorded slot. Whatever state the power
     * fails in, a reboot restores exactly the previous artifact or what the new one reloads as.
     */
    method Save(art: Artifact, version: bytes, memory: bool) returns (ok: bool)
      requires Valid()
      modifies dev
      ensures Valid() && old(dev.log) <= dev.log
      ensures forall i :: |old(dev.log)| <= i < |dev.log| ==>
                OldOrNew(sha, old(dev.disk), dev.log[i].disk, dev.slotSize, art, version)
      ensures ok ==> Restored(sha, dev.disk, dev.slotSize) == Reloaded(Saved(art, version))
      ensures ok && art.count > 0 ==>
                Restored(sha, dev.disk, dev.slotSize) == Some(Saved(art, if |version| < 32 then version else []))
      ensures ok ==> ActiveSlot(dev.disk).Some? && VerifiedBlob(sha, art.blob, art.count, art.sha256)
      ensures dev.healthy && memory && |art.blob| <= dev.slotSize && VerifiedBlob(sha, art.blob, art.count, art.sha256) ==>
                ok
    {
      ghost var log, start := dev.log, dev.disk;
      var active := if dev.disk.nvs.active.Some? then dev.disk.nvs.active.value as int else 0xFF;
      var slot := if active == 0 then 1 else 0;
      assert ActiveSlot(start) != Some(slot);
      hide Restored, VerifiedBlob, Quiet, Holds, ActiveSlot, OldOrNew;
      ok := WriteInactive(art, version, slot, memory);
      QuietStates(log, start, slot, art, version);
      if !ok {
        return;
      }
      ghost var middle, written, stored := dev.log, dev.disk, false;
      Flipped(sha, start, written, slot, art, version, dev.slotSize);
      ok, stored := dev.Store(WithActive(dev.disk, slot));
      assert forall i :: 0 <= i < |middle| ==> dev.log[i] == middle[i];
      if ok {
        ok := dev.Commit();
      }
    }

    /** Everything before the flip: the artifact ends up verified in the inactive slot. */
    method WriteInactive(art: Artifact, version: bytes, slot: nat, memory: bool) returns (ok: bool)
      requires Valid() && slot < SLOTS
      modifies dev
      ensures Valid() && Quiet(old(dev.log), old(dev.disk), slot)
      ensures ok ==> Holds(dev.disk, slot, art, version, dev.slotSize) && VerifiedBlob(sha, art.blob, art.count, art.sha256)
      ensures dev.healthy && memory && |art.blob| <= dev.slotSize && VerifiedBlob(sha, art.blob, art.count, art.sha256) ==>
                ok
    {
      ghost var start := dev.disk;
      if |art.blob| > dev.slotSize {
        return false;
      }
      ok := WriteFlash(art.blob, slot);
      if !ok {
        return;
      }
      ok := WriteRecords(art, version, slot);
      if ok {
        ok := dev.Commit();
      }
      if !ok {
        return;
      }
      var fine: bool := *;
      if !memory && !fine {
        return false;
      }
      var readOk, readback := dev.Read(slot, |art.blob|);
      if !readOk {
        return false;
      }
      ok := VerifyBlob(readback, art.count, art.sha256, sha);
      if ok {
        VerifiedLength(sha, readback, art.count, art.sha256);
      }
    }

    method WriteFlash(blob: bytes, slot: nat) returns (ok: bool)
      requires Valid() && slot < SLOTS && |blob| <= dev.slotSize
      modifies dev
      ensures Valid() && Quiet(old(dev.log), old(dev.disk), slot)
      ensures (dev.healthy ==> ok) && (ok ==> dev.disk.flash[slot][..|blob|] == blob)
    {
      hide EraseRange, Program, EraseLength, Pow2;
      ghost var before := dev.disk.flash[slot];
      EraseLengthIsLeast(|blob|, dev.eraseShift, dev.slotSize);
      var eraseLen := EraseLength(|blob|, Pow2(dev.eraseShift));
      ghost var torn;
      ok, torn := dev.Erase(slot, eraseLen);
      if ok {
        ErasedPrefix(before, eraseLen);
        ghost var erased := dev.disk.flash[slot];
        ok, torn := dev.Write(slot, 0, blob);
        ProgramErased(erased, 0, blob, eraseLen);
        assert erased[..0] + blob == blob;
      }
    }

    method WriteRecords(art: Artifact, version: bytes, slot: nat) returns (ok: bool)
      requires Valid() && slot < SLOTS
      modifies dev
      ensures Valid() && Quiet(old(dev.log), old(dev.disk), slot)
      ensures dev.disk.flash == old(dev.disk.flash)
      ensures dev.healthy ==> ok
      ensures ok ==>
                && dev.disk.nvs.cnt[slot] == Some(art.count % TWO_32) && dev.disk.nvs.sha[slot] == Some(art.sha256)
                && dev.disk.nvs.ver[slot] == Some(version)
    {
      ghost var stored;
      ok, stored := dev.Store(WithCount(dev.disk, slot, art.count % TWO_32));
      if ok {
        ok, stored := dev.Store(WithSha(dev.disk, slot, art.sha256));
      }
      if ok {
        ok, stored := dev.Store(WithVersion(dev.disk, slot, version));
      }
    }

    /** Before the flip a reboot sees what it would have seen at the start. */
    lemma QuietStates(from: seq<State<()>>, d: Disk, slot: nat, art: Artifact, version: bytes)
      requires WellFormed(d, dev.slotSize) && slot < SLOTS && Quiet(from, d, slot) && ActiveSlot(d) != Some(slot)
      ensures from <= dev.log && OldOrNew(sha, d, dev.disk, dev.slotSize, art, version)
      ensures forall i :: |from| <= i < |dev.log| ==> OldOrNew(sha, d, dev.log[i].disk, dev.slotSize, art, version)
    {
      OtherSlotInvisible(sha, d, dev.disk, slot, dev.slotSize);
      forall i | |from| <= i < |dev.log| ensures OldOrNew(sha, d, dev.log[i].disk, dev.slotSize, art, version) {
        OtherSlotInvisible(sha, d, dev.log[i].disk, slot, dev.slotSize);
      }
    }
  }

  /**
   * A reboot from d restores what it would have restored from `before`, or what the new artifact, which has been
   * verified, reloads as; and if a recorded slot restored before, it does now, unless the new artifact is empty.
   */
  ghost predicate OldOrNew(sha: Sha256, before: Disk, d: Disk, size: nat, art: Artifact, version: bytes) {
    && WellFormed(before, size) && WellFormed(d, size)
    && (Restored(sha, d, size) == Restored(sha, before, size)
        || (VerifiedBlob(sha, art.blob, art.count, art.sha256) && Restored(sha, d, size) == Reloaded(Saved(art, version))))
    && (Sound(sha, before, size) && art.count > 0 ==> Sound(sha, d, size))
  }

  /** The slot holds the artifact and its records. */
  ghost predicate Holds(d: Disk, slot: nat, art: Artifact, version: bytes, size: nat)
    requires WellFormed(d, size) && slot < SLOTS
  {
    && |art.blob| <= size && |art.blob| == 8 * art.count && d.flash[slot][..|art.blob|] == art.blob
    && d.nvs.cnt[slot] == Some(art.count % TWO_32) && d.nvs.sha[slot] == Some(art.sha256)
    && d.nvs.ver[slot] == Some(version)
  }

  lemma ErasedPrefix(f: bytes, n: nat)
    requires n <= |f|
    ensures ErasedRange(EraseRange(f, n), 0, n)
  {
  }

  lemma VerifiedLength(sha: Sha256, blob: bytes, count: nat, want: bytes)
    requires VerifiedBlob(sha, blob, count, want)
    ensures |blob| == 8 * count
  {
  }

  /** Flipping the record to a slot that holds a verified artifact restores exactly that. */
  lemma Flipped(sha: Sha256, before: Disk, d: Disk, slot: nat, art: Artifact, version: bytes, size: nat)
    requires WellFormed(before, size) && WellFormed(d, size) && size < TWO_32 && slot < SLOTS
    requires Holds(d, slot, art, version, size) && VerifiedBlob(sha, art.blob, art.count, art.sha256)
    ensures var d' := WithActive(d, slot);
            && WellFormed(d', size)
            && Restored(sha, d', size) == Reloaded(Saved(art, version)) && ActiveSlot(d').Some?
            && (art.count > 0 ==>
                  Restored(sha, d', size) == Some(Saved(art, if |version| < 32 then version else [])))
            && (art.count == 0 ==> Restored(sha, d', size) == None)
            && OldOrNew(sha, before, d', size, art, version)
  {
  }

  /**
   * One save of a run: what is saved, how the device and the memory behave, and after how many durable states the
   * power fails, if it does.
   */
  datatype Attempt = Attempt(saved: Saved, healthy: bool, memory: bool, cut: Option<nat>)

  /** Nothing can keep this save from completing. */
  ghost predicate Sure(sha: Sha256, a: Attempt, size: nat) {
    && a.healthy && a.memory && a.cut.None? && |a.saved.art.blob| <= size
    && VerifiedBlob(sha, a.saved.art.blob, a.saved.art.count, a.saved.art.sha256)
  }

  ghost predicate Reloads(sha: Sha256, d: Disk, size: nat, s: Saved)
    requires WellFormed(d, size)
  {
    VerifiedBlob(sha, s.art.blob, s.art.count, s.art.sha256) && Restored(sha, d, size) == Reloaded(s)
  }

  /**
   * The disk d restores what attempt `origin` saved, or for -1 what the starting disk restored, and no later
   * attempt completed.
   */
  ghost predicate RestoresFrom(sha: Sha256, start: Disk, d: Disk, size: nat, run: seq<Attempt>, done: seq<bool>,
                               origin: int)
  {
    && WellFormed(start, size) && WellFormed(d, size) && |done| == |run| && -1 <= origin < |run|
    && (if origin < 0 then Restored(sha, d, size) == Restored(sha, start, size)
        else Reloads(sha, d, size, run[origin].saved))
    && (forall j :: origin < j < |run| ==> !done[j])
    && (Sound(sha, start, size) && (forall k :: 0 <= k < |run| ==> run[k].saved.art.count > 0) ==> Sound(sha, d, size))
  }

  /** One more attempt: completed, or cut off or failed in a state that restores the old or the new artifact. */
  lemma OneMoreSave(sha: Sha256, start: Disk, d: Disk, d': Disk, size: nat, run: seq<Attempt>, done: seq<bool>,
                    origin: int, a: Attempt, ok: bool) returns (origin': int)
    requires RestoresFrom(sha, start, d, size, run, done, origin)
    requires OldOrNew(sha, d, d', size, a.saved.art, a.saved.version)
    requires ok ==> Reloads(sha, d', size, a.saved)
    ensures RestoresFrom(sha, start, d', size, run + [a], done + [ok], origin')
    ensures origin <= origin'
  {
    hide VerifiedBlob, Restored, Sound, Reloaded;
    var run' := run + [a];
    assert run'[|run|] == a && forall j :: 0 <= j < |run| ==> run'[j] == run[j];
    origin' := if ok || Restored(sha, d', size) != Restored(sha, d, size) then |run| else origin;
  }

  /** The state in which an attempt leaves the device: after its cut, or where the save ended. */
  method RunAttempt(sha: Sha256, d: Disk, size: nat, eraseShift: nat, a: Attempt) returns (left: Disk, ok: bool)
    requires WellFormed(d, size)
    requires eraseShift <= 32 && size % Pow2(eraseShift) == 0 && size + Pow2(eraseShift) <= TWO_32
    ensures OldOrNew(sha, d, left, size, a.saved.art, a.saved.version)
    ensures ok ==> a.cut.None? && WellFormed(left, size) && Reloads(sha, left, size, a.saved)
    ensures Sure(sha, a, size) ==> ok
  {
    hide Restored, Sound, OldOrNew, Pow2, VerifiedBlob, Reloaded;
    var dev := new Device(d, size, eraseShift, a.healthy, ());
    var store := new Store(sha, dev);
    var from := |dev.log|;
    var saved := store.Save(a.saved.art, a.saved.version, a.memory);
    NothingSaved(sha, d, size, a.saved);
    match a.cut {
      case None =>
        left, ok := dev.disk, saved;
        assert dev.log[|dev.log| - 1].disk == left;
      case Some(n) =>
        left, ok := dev.log[if from + n <= |dev.log| then from + n - 1 else |dev.log| - 1].disk, false;
    }
  }

  /**
   * Every run of saves with crashes: each save runs on the device as the last power failure left it, may fail in
   * any of its operations, and is cut off in any state it passes through or runs to its end. Whatever the run,
   * the device restores what it restored at the start or a verified artifact, saved no earlier than the last save
   * that completed; and a recorded slot never stops restoring as long as no saved artifact is empty.
   */
  method SaveRun(sha: Sha256, start: Disk, size: nat, eraseShift: nat, run: seq<Attempt>)
    returns (d: Disk, done: seq<bool>, ghost origin: int)
    requires WellFormed(start, size)
    requires eraseShift <= 32 && size % Pow2(eraseShift) == 0 && size + Pow2(eraseShift) <= TWO_32
    ensures RestoresFrom(sha, start, d, size, run, done, origin)
    ensures forall k :: 0 <= k < |run| && Sure(sha, run[k], size) ==> done[k]
  {
    hide Restored, Sound, OldOrNew, RestoresFrom, Pow2, Sure, Reloads;
    d, done, origin := start, [], -1;
    NoSaves(sha, start, size);
    assert run[..0] == [];
    for k := 0 to |run|
      invariant WellFormed(d, size) && |done| == k && RestoresFrom(sha, start, d, size, run[..k], done, origin)
      invariant forall j :: 0 <= j < k && Sure(sha, run[j], size) ==> done[j]
    {
      var left, ok := RunAttempt(sha, d, size, eraseShift, run[k]);
      OldOrNewShape(sha, d, left, size, run[k].saved);
      origin := OneMoreSave(sha, start, d, left, size, run[..k], done, origin, run[k], ok);
      assert run[..k + 1] == run[..k] + [run[k]];
      d, done := left, done + [ok];
    }
    assert run[..|run|] == run;
  }

  lemma NoSaves(sha: Sha256, start: Disk, size: nat)
    requires WellFormed(start, size)
    ensures RestoresFrom(sha, start, start, size, [], [], -1)
  {
  }

  lemma NothingSaved(sha: Sha256, d: Disk, size: nat, s: Saved)
    requires WellFormed(d, size)
    ensures OldOrNew(sha, d, d, size, s.art, s.version)
  {
  }

  lemma OldOrNewShape(sha: Sha256, before: Disk, d: Disk, size: nat, s: Saved)
    requires OldOrNew(sha, before, d, size, s.art, s.version)
    ensures WellFormed(d, size)
  {
  }

  /** The exception is real: saving an artifact without entries replaces whatever was restored before by nothing. */
  method EmptySaveLoses(store: Store, version: bytes)
    requires store.Valid() && store.dev.healthy
    modifies store.dev
    ensures store.Valid() && Restored(store.sha, store.dev.disk, store.dev.slotSize).None?
    ensures !Sound(store.sha, store.dev.disk, store.dev.slotSize)
  {
    var art := Artifact([], 0, store.sha([]));
    var ok := store.Save(art, version, true);
    hide Restored;
  }
}
