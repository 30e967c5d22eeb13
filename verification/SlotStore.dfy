/**
 * The sinkhole's dual-slot store as a state machine: every durable write, installation, activation record
 * and crash-plus-reboot is one step. All statements are about every run of these steps.
 */
module SlotStore {
  import opened Bytes
  import opened Bits
  import opened LittleEndian
  import opened SortedList
  import opened Flash
  import opened Manifest

  const SLOT_SIZE: nat := 0xe00000

  /** What a session serves: slot -1 and an empty list until something has been loaded. */
  datatype Ram = Ram(active: int, blob: bytes, version: bytes)

  const NOTHING: Ram := Ram(-1, [], [])

  type Node = State<Ram>

  /** nvs_get_str into a 32-byte buffer: "" when absent or too long. */
  function RecordedVersion(d: Disk, slot: nat): bytes
    requires slot < |d.nvs.ver|
  {
    match d.nvs.ver[slot]
    case None => []
    case Some(v) => if |v| < VERSION_MAX then v else []
  }

  /** The slot has a plausible count and a digest on record, and its bytes agree with both and are a list. */
  ghost predicate Validates(sha: Sha256, d: Disk, slot: nat) {
    && WellFormed(d, SLOT_SIZE) && slot < SLOTS
    && d.nvs.cnt[slot].Some? && d.nvs.sha[slot].Some?
    && d.nvs.cnt[slot].value >= MIN_DOMAINS && 8 * d.nvs.cnt[slot].value <= SLOT_SIZE
    && VerifiedBlob(sha, d.flash[slot][..8 * d.nvs.cnt[slot].value], d.nvs.cnt[slot].value, d.nvs.sha[slot].value)
  }

  ghost function Loaded(sha: Sha256, d: Disk, slot: nat): Ram
    requires Validates(sha, d, slot)
  {
    Ram(slot, d.flash[slot][..8 * d.nvs.cnt[slot].value], RecordedVersion(d, slot))
  }

  /** Boot: the recorded slot if it validates, else the first other slot that does, else nothing. */
  ghost function BootRam(sha: Sha256, d: Disk): Ram {
    var a := if d.nvs.active.Some? then d.nvs.active.value else 0xFF;
    if a < SLOTS && Validates(sha, d, a) then Loaded(sha, d, a)
    else if a != 0 && Validates(sha, d, 0) then Loaded(sha, d, 0)
    else if a != 1 && Validates(sha, d, 1) then Loaded(sha, d, 1)
    else NOTHING
  }

  /**
   * What a slot must hold to be loaded: a recorded count from 10000 to 14 MB worth, the recorded digest over that
   * many entries, and strictly ascending entries.
   */
  lemma ValidatesExactly(sha: Sha256, d: Disk, slot: nat)
    requires WellFormed(d, SLOT_SIZE)
    ensures Validates(sha, d, slot) <==>
              && slot < 2 && d.nvs.cnt[slot].Some? && 10000 <= d.nvs.cnt[slot].value <= 14 * 1024 * 1024 / 8
              && d.nvs.sha[slot] == Some(sha(d.flash[slot][..8 * d.nvs.cnt[slot].value]))
              && forall i, j :: 0 <= i < j < d.nvs.cnt[slot].value ==>
                   DecodeList(d.flash[slot], d.nvs.cnt[slot].value)[i] < DecodeList(d.flash[slot], d.nvs.cnt[slot].value)[j]
  {
    if slot < 2 && d.nvs.cnt[slot].Some? && 8 * d.nvs.cnt[slot].value <= SLOT_SIZE {
      DecodeInPlace(d.flash[slot], d.nvs.cnt[slot].value);
    }
    hide DecodeList;
  }

  lemma DecodeInPlace(f: bytes, n: nat)
    requires 8 * n <= |f|
    ensures DecodeList(f[..8 * n], n) == DecodeList(f, n)
  {
    forall i | 0 <= i < n ensures f[..8 * n][8 * i..8 * i + 8] == f[8 * i..8 * i + 8] {
    }
    hide Decode;
    assert forall i :: 0 <= i < n ==> DecodeList(f[..8 * n], n)[i] == DecodeList(f, n)[i];
  }

  ghost predicate Names(d: Disk, slot: nat) { d.nvs.active.Some? && d.nvs.active.value == slot }

  /** When a boot loads this slot: the record names it, the other one does not validate, or neither is named. */
  ghost predicate BootsFrom(sha: Sha256, d: Disk, slot: nat)
    requires slot < SLOTS
  {
    Names(d, slot) || !Validates(sha, d, 1 - slot) || (slot == 0 && !Names(d, 1))
  }

  lemma BootLoads(sha: Sha256, d: Disk, slot: nat)
    requires Validates(sha, d, slot)
    ensures BootRam(sha, d) == Loaded(sha, d, slot) <==> BootsFrom(sha, d, slot)
  {
    assert Loaded(sha, d, slot).active == slot;
    assert forall s :: Validates(sha, d, s) ==> s == 0 || s == 1;
    hide Validates;
  }

  // ---- steps ---------------------------------------------------------------------------------------------

  /** Everything about one slot is the same in both disks. */
  ghost predicate SameSlot(d: Disk, d': Disk, slot: nat)
    requires WellFormed(d, SLOT_SIZE) && WellFormed(d', SLOT_SIZE) && slot < SLOTS
  {
    && d'.flash[slot] == d.flash[slot] && d'.nvs.cnt[slot] == d.nvs.cnt[slot]
    && d'.nvs.sha[slot] == d.nvs.sha[slot] && d'.nvs.ver[slot] == d.nvs.ver[slot]
  }

  /** The slot an update writes to: never the one being served. */
  function InactiveSlot(active: int): (slot: nat)
    ensures slot < SLOTS && slot != active
  {
    if active == 0 then 1 else 0
  }

  /** An update under way: its manifest, the slot it writes to and the session it runs in. */
  datatype Update = Update(m: Manifest, slot: nat, session: Ram)

  /**
   * A durable write for an update to m: it may change anything about the slot (its flash may even end up torn),
   * except that a digest it records is the manifest's.
   */
  ghost predicate SlotWrite(m: Manifest, d: Disk, d': Disk, slot: nat) {
    && slot < SLOTS && WellFormed(d, SLOT_SIZE) && WellFormed(d', SLOT_SIZE) && d'.nvs.active == d.nvs.active
    && SameSlot(d, d', 1 - slot)
    && (d'.nvs.sha[slot] == d.nvs.sha[slot] || d'.nvs.sha[slot] == Some(m.sha256))
  }

  /** An update writes to a slot that is not served. */
  ghost predicate Writes(u: Update, n: Node, n': Node) {
    && n.session == n'.session == u.session && u.slot != n.session.active
    && SlotWrite(u.m, n.disk, n'.disk, u.slot)
  }

  /** The durable writes of an update. */
  lemma SlotWrites(m: Manifest, d: Disk, slot: nat, content: bytes)
    requires WellFormed(d, SLOT_SIZE) && slot < SLOTS
    ensures |content| == SLOT_SIZE ==> SlotWrite(m, d, WithSlot(d, slot, content), slot)
    ensures forall v: u32 :: SlotWrite(m, d, WithCount(d, slot, v), slot)
    ensures SlotWrite(m, d, WithSha(d, slot, m.sha256), slot)
    ensures SlotWrite(m, d, WithVersion(d, slot, m.version), slot)
  {
  }

  ghost predicate Installs(sha: Sha256, n: Node, n': Node) {
    n'.disk == n.disk && exists slot: nat :: slot != n.session.active && Validates(sha, n.disk, slot)
                          && n'.session == Loaded(sha, n.disk, slot)
  }

  ghost predicate RecordsActive(n: Node, n': Node) {
    n.session.active >= 0 && n.session.active < SLOTS && n' == n.(disk := WithActive(n.disk, n.session.active))
  }

  ghost predicate Reboots(sha: Sha256, n: Node, n': Node) {
    n' == State(n.disk, BootRam(sha, n.disk))
  }

  /** A step that writes to no slot. */
  ghost predicate Moves(sha: Sha256, n: Node, n': Node) {
    n' == n || Installs(sha, n, n') || RecordsActive(n, n') || Reboots(sha, n, n')
  }

  ghost predicate Step(sha: Sha256, u: Update, n: Node, n': Node) { Moves(sha, n, n') || Writes(u, n, n') }

  ghost predicate StepOf(sha: Sha256, us: set<Update>, n: Node, n': Node) {
    Moves(sha, n, n') || exists u :: u in us && Writes(u, n, n')
  }

  /** Consecutive states are steps of the updates. */
  ghost predicate Chain(sha: Sha256, us: set<Update>, trace: seq<Node>) {
    forall i :: 0 < i < |trace| ==> StepOf(sha, us, trace[i - 1], trace[i])
  }

  lemma StepInChain(sha: Sha256, u: Update, n: Node, n': Node)
    requires Step(sha, u, n, n')
    ensures StepOf(sha, {u}, n, n')
  {
  }

  lemma ChainStart(sha: Sha256, us: set<Update>, log: seq<Node>)
    requires log != []
    ensures Chain(sha, us, log[|log| - 1..])
  {
  }

  lemma ChainSnoc(sha: Sha256, us: set<Update>, log: seq<Node>, from: nat, next: Node)
    requires from < |log| && Chain(sha, us, log[from..]) && StepOf(sha, us, log[|log| - 1], next)
    ensures Chain(sha, us, (log + [next])[from..])
  {
    hide StepOf;
    var t, t' := log[from..], (log + [next])[from..];
    forall i | 0 < i < |t'| ensures StepOf(sha, us, t'[i - 1], t'[i]) {
      assert t'[i - 1] == t[i - 1];
      if i < |t| {
        assert t'[i] == t[i];
      }
    }
  }

  /** Two stretches of one log. */
  lemma ChainJoin(sha: Sha256, us: set<Update>, middle: seq<Node>, log: seq<Node>, n: nat)
    requires 0 < n <= |middle| <= |log| && log[..|middle|] == middle
    requires Chain(sha, us, middle[n - 1..]) && Chain(sha, us, log[|middle| - 1..])
    ensures Chain(sha, us, log[n - 1..])
  {
    hide StepOf;
    var t := log[n - 1..];
    var first, second := middle[n - 1..], log[|middle| - 1..];
    forall i | 0 < i < |t| ensures StepOf(sha, us, t[i - 1], t[i]) {
      if n - 1 + i < |middle| {
        assert t[i] == first[i] && t[i - 1] == first[i - 1];
      } else {
        var j := n - 1 + i - (|middle| - 1);
        assert t[i] == second[j] && t[i - 1] == second[j - 1];
      }
    }
  }

  /** A flash operation that may be cut short: two steps, through arbitrary slot contents. */
  lemma TornWrite(sha: Sha256, u: Update, disk: Disk, torn: bytes, content: bytes)
    requires Inv(sha, State(disk, u.session)) && u.slot < SLOTS && u.slot != u.session.active
    requires |torn| == |content| == SLOT_SIZE
    ensures var mid := State(WithSlot(disk, u.slot, torn), u.session);
            var next := State(WithSlot(disk, u.slot, content), u.session);
            Step(sha, u, State(disk, u.session), mid) && Step(sha, u, mid, next) && Inv(sha, next)
  {
    var mid, next := WithSlot(disk, u.slot, torn), WithSlot(disk, u.slot, content);
    SlotWrites(u.m, disk, u.slot, torn);
    SlotWrites(u.m, disk, u.slot, content);
    SlotWrites(u.m, mid, u.slot, content);
    assert WithSlot(mid, u.slot, content) == next;
    hide Inv, SlotWrite, WithSlot;
    StepSafe(sha, u, State(disk, u.session), State(next, u.session));
  }

  // ---- safety -----------------------------------------------------------------------------------------------

  /** What the session serves is exactly what its slot still holds, and that slot validates. */
  ghost predicate Inv(sha: Sha256, n: Node) {
    && WellFormed(n.disk, SLOT_SIZE)
    && if n.session.active < 0 then n.session == NOTHING
       else Validates(sha, n.disk, n.session.active) && n.session == Loaded(sha, n.disk, n.session.active)
  }

  lemma InvShape(sha: Sha256, n: Node)
    requires Inv(sha, n)
    ensures -1 <= n.session.active < SLOTS && |n.session.blob| % 8 == 0
  {
  }

  ghost predicate Serving(n: Node) { n.session.active >= 0 }

  lemma BootFindsAnyValidSlot(sha: Sha256, d: Disk)
    requires WellFormed(d, SLOT_SIZE)
    ensures Inv(sha, State(d, BootRam(sha, d)))
    ensures Serving(State(d, BootRam(sha, d))) <==> exists slot :: Validates(sha, d, slot)
  {
    if slot :| Validates(sha, d, slot) {
      assert slot == 0 || slot == 1;
    }
  }

  lemma ActivationKeepsSlots(sha: Sha256, d: Disk, v: byte, slot: nat)
    requires WellFormed(d, SLOT_SIZE) && slot < SLOTS
    ensures SameSlot(d, WithActive(d, v), slot) && WellFormed(WithActive(d, v), SLOT_SIZE)
    ensures Validates(sha, WithActive(d, v), slot) == Validates(sha, d, slot)
  {
  }

  lemma InstallKeepsInv(sha: Sha256, d: Disk, slot: nat)
    requires Validates(sha, d, slot)
    ensures Inv(sha, State(d, Loaded(sha, d, slot)))
  {
  }

  lemma LoadedAfterActivation(sha: Sha256, d: Disk, slot: nat)
    requires Validates(sha, d, slot)
    ensures forall v: byte ::
              Validates(sha, WithActive(d, v), slot) && Loaded(sha, WithActive(d, v), slot) == Loaded(sha, d, slot)
  {
  }

  /** One step: the invariant stays, a serving node keeps serving, and nothing of the served slot is touched. */
  lemma StepSafe(sha: Sha256, u: Update, n: Node, n': Node)
    requires Inv(sha, n) && Step(sha, u, n, n')
    ensures Inv(sha, n')
    ensures Serving(n) ==> Serving(n') && SameSlot(n.disk, n'.disk, n.session.active)
  {
    if RecordsActive(n, n') {
      ActivationKeepsSlots(sha, n.disk, n.session.active, n.session.active);
    } else if Reboots(sha, n, n') {
      BootFindsAnyValidSlot(sha, n.disk);
    }
  }

  lemma StepOfSafe(sha: Sha256, us: set<Update>, n: Node, n': Node)
    requires Inv(sha, n) && StepOf(sha, us, n, n')
    ensures Inv(sha, n')
    ensures Serving(n) ==> Serving(n') && SameSlot(n.disk, n'.disk, n.session.active)
  {
    var u := Update(Manifest([], 0, 0, seq(32, _ => 0)), 0, n.session);
    if !Moves(sha, n, n') {
      u :| u in us && Writes(u, n, n');
      assert Writes(u, n, n');
    }
    hide Moves, Writes, Inv, SameSlot;
    StepSafe(sha, u, n, n');
  }

  /** Over every run from a boot: once a list is served, every later state serves a list that validates. */
  lemma {:induction false} RunSafe(sha: Sha256, us: set<Update>, trace: seq<Node>, i: nat)
    requires i < |trace| && Chain(sha, us, trace) && Inv(sha, trace[0])
    ensures Inv(sha, trace[i])
    ensures Serving(trace[0]) ==> Serving(trace[i])
  {
    hide Inv, StepOf;
    if i > 0 {
      RunSafe(sha, us, trace, i - 1);
      StepOfSafe(sha, us, trace[i - 1], trace[i]);
    }
  }

  lemma ChainFrom(sha: Sha256, us: set<Update>, trace: seq<Node>, i: nat)
    requires i < |trace| && Chain(sha, us, trace)
    ensures Chain(sha, us, trace[i..])
  {
    hide StepOf;
    var rest := trace[i..];
    forall k | 0 < k < |rest| ensures StepOf(sha, us, rest[k - 1], rest[k]) {
      assert StepOf(sha, us, trace[i + k - 1], trace[i + k]);
    }
  }

  lemma OnceServing(sha: Sha256, us: set<Update>, trace: seq<Node>, i: nat, j: nat)
    requires i <= j < |trace| && Chain(sha, us, trace) && Inv(sha, trace[0]) && Serving(trace[i])
    ensures Serving(trace[j]) && Validates(sha, trace[j].disk, trace[j].session.active)
    ensures Serving(State(trace[j].disk, BootRam(sha, trace[j].disk)))
  {
    RunSafe(sha, us, trace, i);
    ChainFrom(sha, us, trace, i);
    RunSafe(sha, us, trace[i..], j - i);
    assert trace[i..][j - i] == trace[j];
    BootFindsAnyValidSlot(sha, trace[j].disk);
  }

  // ---- polls ------------------------------------------------------------------------------------------------

  /** The gates a manifest passes before a poll erases the slot: a new version, above the floor, and it fits. */
  predicate Wanted(m: Manifest, session: Ram) {
    m.version != session.version && m.count >= MIN_DOMAINS && m.size == 8 * m.count <= SLOT_SIZE
  }

  /** The update that a poll in this session makes to m. */
  function Poll(m: Manifest, session: Ram): Update { Update(m, InactiveSlot(session.active), session) }

  /** Like StepOf, but slots are written only by polls that want their manifest. */
  ghost predicate PollStep(sha: Sha256, ms: set<Manifest>, n: Node, n': Node) {
    Moves(sha, n, n') || exists m :: m in ms && Wanted(m, n.session) && Writes(Poll(m, n.session), n, n')
  }

  ghost predicate PollRun(sha: Sha256, ms: set<Manifest>, trace: seq<Node>) {
    forall i :: 0 < i < |trace| ==> PollStep(sha, ms, trace[i - 1], trace[i])
  }

  /** The states a poll goes through are a run of polls. */
  lemma ChainOfPoll(sha: Sha256, u: Update, trace: seq<Node>)
    requires Chain(sha, {u}, trace) && Wanted(u.m, u.session) && u == Poll(u.m, u.session)
    ensures PollRun(sha, {u.m}, trace)
  {
    hide Moves, Wanted, SlotWrite, Poll;
    forall i | 0 < i < |trace| ensures PollStep(sha, {u.m}, trace[i - 1], trace[i]) {
      assert StepOf(sha, {u}, trace[i - 1], trace[i]);
    }
  }

  lemma PollStepSafe(sha: Sha256, ms: set<Manifest>, n: Node, n': Node)
    requires Inv(sha, n) && PollStep(sha, ms, n, n')
    ensures Inv(sha, n') && (Serving(n) ==> Serving(n'))
    ensures !Serving(n) && !Serving(n') && WellFormed(n.disk, SLOT_SIZE) && WellFormed(n'.disk, SLOT_SIZE) ==>
              SameSlot(n.disk, n'.disk, 1)
  {
    if Moves(sha, n, n') {
      StepOfSafe(sha, {}, n, n');
    } else {
      var m :| m in ms && Wanted(m, n.session) && Writes(Poll(m, n.session), n, n');
      StepSafe(sha, Poll(m, n.session), n, n');
    }
  }

  // ---- exactly when a valid slot is sure to stay ------------------------------------------------------------

  ghost predicate SomeSlotValidates(sha: Sha256, d: Disk) { exists slot :: Validates(sha, d, slot) }

  /** A session that serves nothing found nothing at boot, and its polls write only to slot 0. */
  ghost predicate Booted(sha: Sha256, n: Node) { Serving(n) || !Validates(sha, n.disk, 1) }

  lemma BootIsBooted(sha: Sha256, d: Disk)
    requires WellFormed(d, SLOT_SIZE)
    ensures Inv(sha, State(d, BootRam(sha, d))) && Booted(sha, State(d, BootRam(sha, d)))
  {
    BootFindsAnyValidSlot(sha, d);
  }

  lemma StepKeepsBooted(sha: Sha256, ms: set<Manifest>, n: Node, n': Node)
    requires Inv(sha, n) && Booted(sha, n) && PollStep(sha, ms, n, n')
    ensures Inv(sha, n') && Booted(sha, n')
  {
    PollStepSafe(sha, ms, n, n');
    hide PollStep;
    assert !Serving(n) && !Serving(n') ==> Validates(sha, n.disk, 1) == Validates(sha, n'.disk, 1);
  }

  /** So it is in every state of every run of polls, crashes and reboots that starts with a boot. */
  lemma {:induction false} RunKeepsBooted(sha: Sha256, ms: set<Manifest>, trace: seq<Node>, i: nat)
    requires i < |trace| && PollRun(sha, ms, trace) && Inv(sha, trace[0]) && Booted(sha, trace[0])
    ensures Inv(sha, trace[i]) && Booted(sha, trace[i]) && (Serving(trace[0]) ==> Serving(trace[i]))
  {
    hide Inv, Booted, PollStep, Serving;
    if i > 0 {
      RunKeepsBooted(sha, ms, trace, i - 1);
      StepKeepsBooted(sha, ms, trace[i - 1], trace[i]);
      PollStepSafe(sha, ms, trace[i - 1], trace[i]);
    }
  }

  // ---- losing a slot that nobody serves ----------------------------------------------------------------------

  /** An erase size the slots allow. */
  predicate GoodErase(shift: nat) {
    shift <= 32 && SLOT_SIZE % Pow2(shift) == 0 && SLOT_SIZE + Pow2(shift) <= TWO_32
  }

  /** The disk after the erase a download of that size begins with. */
  function AfterErase(d: Disk, slot: nat, size: nat, shift: nat): (d': Disk)
    requires WellFormed(d, SLOT_SIZE) && slot < SLOTS && size <= SLOT_SIZE && GoodErase(shift)
    ensures WellFormed(d', SLOT_SIZE)
  {
    EraseLengthIsLeast(size, shift, SLOT_SIZE);
    WithSlot(d, slot, EraseRange(d.flash[slot], EraseLength(size, Pow2(shift))))
  }

  lemma ErasedBytes(d: Disk, slot: nat, size: nat, shift: nat)
    requires WellFormed(d, SLOT_SIZE) && slot < SLOTS && size <= SLOT_SIZE && GoodErase(shift)
    ensures var d' := AfterErase(d, slot, size, shift);
            && d' == WithSlot(d, slot, d'.flash[slot]) && |d'.flash[slot]| == SLOT_SIZE
            && ErasedRange(d'.flash[slot], 0, size)
  {
    EraseLengthIsLeast(size, shift, SLOT_SIZE);
    hide EraseLength, Pow2;
  }

  /** From a session that serves nothing, the erase of the next wanted download wipes the only valid slot. */
  lemma UnservedSlotLost(sha: Sha256, m: Manifest, n: Node, shift: nat) returns (n': Node)
    requires Inv(sha, n) && Booted(sha, n) && !Serving(n) && Wanted(m, n.session) && GoodErase(shift)
    ensures n' == n.(disk := AfterErase(n.disk, 0, m.size, shift))
    ensures Writes(Poll(m, n.session), n, n') && !SomeSlotValidates(sha, n'.disk)
  {
    n' := n.(disk := AfterErase(n.disk, 0, m.size, shift));
    ErasedBytes(n.disk, 0, m.size, shift);
    hide AfterErase;
    SlotWrites(m, n.disk, 0, n'.disk.flash[0]);
    assert SameSlot(n.disk, n'.disk, 1) && !Validates(sha, n'.disk, 1);
    forall slot ensures !Validates(sha, n'.disk, slot) {
      if Validates(sha, n'.disk, 0) {
        BlankIsNoList(n'.disk.flash[0], n'.disk.nvs.cnt[0].value);
      }
    }
  }

  lemma BlankIsNoList(f: bytes, n: nat)
    requires n >= 2 && 8 * n <= |f| && ErasedRange(f, 0, 16)
    ensures !Ascending(DecodeList(f[..8 * n], n))
  {
    var b := f[..8 * n];
    assert forall i :: 0 <= i < 16 ==> b[i] == ERASED;
    assert b[0..8] == b[8..16];
    assert DecodeList(b, n)[0] == DecodeList(b, n)[1];
  }

  /** In every further run of polls of these manifests some slot validates. */
  ghost predicate Kept(sha: Sha256, ms: set<Manifest>, n: Node) {
    forall trace: seq<Node> :: |trace| > 0 && trace[0] == n && PollRun(sha, ms, trace) ==>
      SomeSlotValidates(sha, trace[|trace| - 1].disk)
  }

  /** Nothing served and no manifest wanted: nothing happens until the valid slot is found. */
  lemma {:induction false} UnwantedKept(sha: Sha256, ms: set<Manifest>, trace: seq<Node>, i: nat)
    requires i < |trace| && PollRun(sha, ms, trace) && Inv(sha, trace[0])
    requires SomeSlotValidates(sha, trace[0].disk) && forall m :: m in ms ==> !Wanted(m, trace[0].session)
    ensures Inv(sha, trace[i]) && (trace[i] == trace[0] || Serving(trace[i]))
  {
    if i > 0 {
      UnwantedKept(sha, ms, trace, i - 1);
      var n, n' := trace[i - 1], trace[i];
      assert PollStep(sha, ms, n, n');
      PollStepSafe(sha, ms, n, n');
      if Reboots(sha, n, n') && n == trace[0] {
        BootFindsAnyValidSlot(sha, n.disk);
      }
    }
  }

  /**
   * The exact condition, in any state of any run from a boot, whatever manifests were polled before: a valid slot
   * survives every further run of polls of the manifests ms if and only if a list is served, or a slot validates
   * and none of ms is wanted. A slot that validates but was never installed (its commit stopped before the swap)
   * is otherwise lost to the next poll.
   */
  lemma KeptExactlyWhenServing(sha: Sha256, before: set<Manifest>, ms: set<Manifest>, past: seq<Node>)
    requires past != [] && PollRun(sha, before, past)
    requires WellFormed(past[0].disk, SLOT_SIZE) && past[0].session == BootRam(sha, past[0].disk)
    ensures var n := past[|past| - 1];
            Kept(sha, ms, n) <==>
              Serving(n) || (SomeSlotValidates(sha, n.disk) && forall m :: m in ms ==> !Wanted(m, n.session))
  {
    var n := past[|past| - 1];
    BootIsBooted(sha, past[0].disk);
    RunKeepsBooted(sha, before, past, |past| - 1);
    if Serving(n) || (SomeSlotValidates(sha, n.disk) && forall m :: m in ms ==> !Wanted(m, n.session)) {
      KeptIf(sha, ms, n);
    } else {
      LostOtherwise(sha, ms, n);
    }
  }

  lemma KeptIf(sha: Sha256, ms: set<Manifest>, n: Node)
    requires Inv(sha, n) && Booted(sha, n)
    requires Serving(n) || (SomeSlotValidates(sha, n.disk) && forall m :: m in ms ==> !Wanted(m, n.session))
    ensures Kept(sha, ms, n)
  {
    hide PollRun, PollStep, Wanted, Booted;
    forall trace: seq<Node> | |trace| > 0 && trace[0] == n && PollRun(sha, ms, trace)
      ensures SomeSlotValidates(sha, trace[|trace| - 1].disk)
    {
      if Serving(n) {
        RunKeepsBooted(sha, ms, trace, |trace| - 1);
      } else {
        UnwantedKept(sha, ms, trace, |trace| - 1);
      }
      var last := trace[|trace| - 1];
      assert Serving(last) ==> Validates(sha, last.disk, last.session.active);
    }
  }

  lemma LostOtherwise(sha: Sha256, ms: set<Manifest>, n: Node)
    requires Inv(sha, n) && Booted(sha, n) && !Serving(n)
    requires SomeSlotValidates(sha, n.disk) ==> exists m :: m in ms && Wanted(m, n.session)
    ensures !Kept(sha, ms, n)
  {
    hide Inv, Booted, SomeSlotValidates, Wanted;
    var trace := [n];
    assert PollRun(sha, ms, trace) && trace[0] == n;
    if SomeSlotValidates(sha, n.disk) {
      var m :| m in ms && Wanted(m, n.session);
      SectorErase();
      var n' := UnservedSlotLost(sha, m, n, 12);
      trace := [n, n'];
      assert PollStep(sha, ms, n, n');
      assert PollRun(sha, ms, trace) && trace[0] == n;
    }
    assert !SomeSlotValidates(sha, trace[|trace| - 1].disk);
  }

  /** 4096-byte sectors. */
  lemma SectorErase()
    ensures GoodErase(12)
  {
    assert Pow2(12) == 4096;
  }
}
