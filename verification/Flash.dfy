/**
 * A device's durable state: two NOR flash slots and a small key-value store, with every state the
 * device passes through recorded. A crash leaves the device in one of the recorded disk states.
 */
module Flash {
  import opened Bytes
  import opened Bits

  const SLOTS: nat := 2

  /** Per-slot records and the active-slot record. Each write is durable on its own. */
  datatype Nvs = Nvs(active: Option<byte>, cnt: seq<Option<u32>>, sha: seq<Option<bytes>>, ver: seq<Option<bytes>>)

  datatype Disk = Disk(flash: seq<bytes>, nvs: Nvs)

  /** Disk contents plus whatever the running session holds in RAM. */
  datatype State<R> = State(disk: Disk, session: R)

  predicate WellFormed(d: Disk, slotSize: nat) {
    && |d.flash| == |d.nvs.cnt| == |d.nvs.sha| == |d.nvs.ver| == SLOTS
    && forall s :: 0 <= s < SLOTS ==> |d.flash[s]| == slotSize
  }

  /** d with the contents of one slot replaced. */
  function WithSlot(d: Disk, slot: nat, content: bytes): Disk
    requires slot < |d.flash|
  {
    d.(flash := d.flash[slot := content])
  }

  function WithCount(d: Disk, slot: nat, v: u32): Disk
    requires slot < |d.nvs.cnt|
  {
    d.(nvs := d.nvs.(cnt := d.nvs.cnt[slot := Some(v)]))
  }

  function WithSha(d: Disk, slot: nat, v: bytes): Disk
    requires slot < |d.nvs.sha|
  {
    d.(nvs := d.nvs.(sha := d.nvs.sha[slot := Some(v)]))
  }

  function WithVersion(d: Disk, slot: nat, v: bytes): Disk
    requires slot < |d.nvs.ver|
  {
    d.(nvs := d.nvs.(ver := d.nvs.ver[slot := Some(v)]))
  }

  function WithActive(d: Disk, v: byte): Disk { d.(nvs := d.nvs.(active := Some(v))) }

  // ---- NOR flash ---------------------------------------------------------------------------------------

  const ERASED: byte := 0xFF

  predicate ErasedRange(f: bytes, lo: nat, hi: nat)
    requires hi <= |f|
  {
    forall i :: lo <= i < hi ==> f[i] == ERASED
  }

  function EraseRange(f: bytes, n: nat): (r: bytes)
    requires n <= |f|
    ensures |r| == |f|
  {
    seq(n, _ => ERASED) + f[n..]
  }

  /** Programming can only clear bits: each written byte is ANDed onto what is there. */
  function Program(f: bytes, at: nat, data: bytes): (r: bytes)
    requires at + |data| <= |f|
    ensures |r| == |f|
  {
    seq(|f|, i requires 0 <= i < |f| => if at <= i < at + |data| then ProgramByte(f[i], data[i - at]) else f[i])
  }

  function ProgramByte(cell: byte, value: byte): byte {
    Pow2Values();
    And(cell, value, 8)
  }

  /** Programming only clears bits: a bit is set afterwards if it was set and is set in the value. */
  lemma ProgramClears(cell: byte, value: byte, k: nat)
    requires k < 8
    ensures Bit(ProgramByte(cell, value), k) == if Bit(cell, k) == 1 && Bit(value, k) == 1 then 1 else 0
  {
    AndBits(cell, value, 8, k);
  }

  /** On erased cells programming stores the data exactly and touches nothing else. */
  lemma ProgramErased(f: bytes, at: nat, data: bytes, hi: nat)
    requires at + |data| <= hi <= |f| && ErasedRange(f, at, hi)
    ensures var r := Program(f, at, data);
            r[..at + |data|] == f[..at] + data && ErasedRange(r, at + |data|, hi)
  {
    var r := Program(f, at, data);
    forall i | at <= i < at + |data| ensures r[i] == data[i - at] {
      Pow2Values();
      AndOnes(data[i - at], 8);
    }
  }

  /** The erase length the firmware computes with a mask. */
  function EraseLength(size: nat, eraseSize: nat): nat
    requires 0 < eraseSize <= Pow2(32)
  {
    And(size + eraseSize - 1, Not(eraseSize - 1, 32), 32)
  }

  lemma EraseLengthRounds(size: nat, k: nat)
    requires k <= 32 && size + Pow2(k) <= TWO_32
    ensures Pow2(k) <= Pow2(32) && EraseLength(size, Pow2(k)) == RoundUp(size, Pow2(k))
  {
    Pow2Values();
    Pow2Monotone(k, 32);
    MaskIsRoundUp(size, k, 32);
  }

  lemma RoundUpIsLeast(size: nat, p: nat, slotSize: nat)
    requires p > 0 && size <= slotSize && slotSize % p == 0
    ensures var e := RoundUp(size, p);
            && size <= e <= slotSize && e % p == 0
            && forall m: nat :: m % p == 0 && m >= size ==> e <= m
  {
    hide RoundUp;
    RoundingFacts(size, p);
    forall m: nat | m % p == 0 && m >= size ensures RoundUp(size, p) <= m {
      LeastMultiple(size, p, m);
    }
  }

  /** For a power-of-two erase size this is the least multiple that covers the size, and it fits the partition. */
  lemma EraseLengthIsLeast(size: nat, k: nat, slotSize: nat)
    requires k <= 32 && size <= slotSize && slotSize % Pow2(k) == 0 && slotSize + Pow2(k) <= TWO_32
    ensures Pow2(k) <= Pow2(32)
    ensures var e := EraseLength(size, Pow2(k));
            && size <= e <= slotSize && e % Pow2(k) == 0
            && forall m: nat :: m % Pow2(k) == 0 && m >= size ==> e <= m
  {
    hide RoundUp, And, Not;
    EraseLengthRounds(size, k);
    hide EraseLength;
    RoundUpIsLeast(size, Pow2(k), slotSize);
  }

  function RoundUp(size: nat, p: nat): nat
    requires p > 0
  {
    (size + p - 1) - (size + p - 1) % p
  }

  lemma MaskIsRoundUp(size: nat, k: nat, n: nat)
    requires k <= n && size + Pow2(k) <= Pow2(n)
    ensures And(size + Pow2(k) - 1, Not(Pow2(k) - 1, n), n) == RoundUp(size, Pow2(k))
  {
    MaskRoundsDown(size + Pow2(k) - 1, k, n);
  }

  lemma RoundingFacts(size: nat, p: nat)
    requires p > 0
    ensures size <= RoundUp(size, p) && RoundUp(size, p) % p == 0
  {
    var t := size + p - 1;
    assert t == (t / p) * p + t % p;
    ModUnique(RoundUp(size, p), p, t / p, 0);
  }

  lemma LeastMultiple(size: nat, p: nat, m: nat)
    requires p > 0 && m % p == 0 && m >= size
    ensures RoundUp(size, p) <= m
  {
    var t := size + p - 1;
    assert m == (m / p) * p + m % p && t == (t / p) * p + t % p;
    MultiplesInOrder(m / p, t / p, p);
  }

  // ---- the device -----------------------------------------------------------------------------------------

  /**
   * Flash and NVS operations. Unless the device is healthy each of them may fail, and a failed one may
   * have had any part of its effect. An erase or write also passes through a state in which the slot holds
   * arbitrary bytes: power can go in the middle of it.
   */
  class Device<R> {
    const slotSize: nat
    const eraseShift: nat  // the erase size is 2^eraseShift
    const healthy: bool
    var disk: Disk
    var session: R
    var log: seq<State<R>>  // every state passed through, the current one last

    ghost predicate Valid()
      reads this
    {
      && WellFormed(disk, slotSize)
      && eraseShift <= 32 && slotSize % Pow2(eraseShift) == 0 && slotSize + Pow2(eraseShift) <= TWO_32
      && log != [] && log[|log| - 1] == State(disk, session)
    }

    constructor (disk: Disk, slotSize: nat, eraseShift: nat, healthy: bool, session: R)
      requires WellFormed(disk, slotSize)
      requires eraseShift <= 32 && slotSize % Pow2(eraseShift) == 0 && slotSize + Pow2(eraseShift) <= TWO_32
      ensures Valid() && this.disk == disk && this.session == session && log == [State(disk, session)]
      ensures this.slotSize == slotSize && this.eraseShift == eraseShift && this.healthy == healthy
    {
      this.disk, this.slotSize, this.eraseShift, this.healthy := disk, slotSize, eraseShift, healthy;
      this.session, this.log := session, [State(disk, session)];
    }

    /** An NVS write: durable, or not, or failed after all; `next` is the disk with the value stored. */
    method Store(next: Disk) returns (ok: bool, ghost stored: bool)
      requires Valid() && WellFormed(next, slotSize)
      modifies this
      ensures Valid() && session == old(session)
      ensures (healthy ==> ok) && (ok ==> stored) && disk == if stored then next else old(disk)
      ensures log == old(log) + [State(disk, session)]
    {
      var durable: bool, failed: bool := *, *;
      ok := healthy || (durable && !failed);
      if healthy || durable {
        disk := next;
      }
      stored := healthy || durable;
      log := log + [State(disk, session)];
    }

    /** nvs_commit: everything set so far is durable already; it can still report an error. */
    method Commit() returns (ok: bool)
      ensures healthy ==> ok
    {
      var fine: bool := *;
      ok := healthy || fine;
    }

    method Erase(slot: nat, n: nat) returns (ok: bool, torn: bytes)
      requires Valid() && slot < SLOTS && n <= slotSize
      modifies this
      ensures Valid() && session == old(session) && (healthy ==> ok)
      ensures |torn| == slotSize && disk == WithSlot(old(disk), slot, disk.flash[slot])
      ensures log == old(log) + [State(WithSlot(old(disk), slot, torn), session), State(disk, session)]
      ensures ok ==> disk.flash[slot] == EraseRange(old(disk.flash[slot]), n)
    {
      var garbage: bytes := Garbage(slotSize);
      torn := garbage;
      var fine: bool := *;
      ok := healthy || fine;
      var content := if ok then EraseRange(disk.flash[slot], n) else garbage;
      log := log + [State(WithSlot(disk, slot, torn), session)];
      disk := WithSlot(disk, slot, content);
      log := log + [State(disk, session)];
    }

    method Write(slot: nat, at: nat, data: bytes) returns (ok: bool, torn: bytes)
      requires Valid() && slot < SLOTS && at + |data| <= slotSize
      modifies this
      ensures Valid() && session == old(session) && (healthy ==> ok)
      ensures |torn| == slotSize && disk == WithSlot(old(disk), slot, disk.flash[slot])
      ensures log == old(log) + [State(WithSlot(old(disk), slot, torn), session), State(disk, session)]
      ensures ok ==> disk.flash[slot] == Program(old(disk.flash[slot]), at, data)
    {
      var garbage: bytes := Garbage(slotSize);
      torn := garbage;
      var fine: bool := *;
      ok := healthy || fine;
      var content := if ok then Program(disk.flash[slot], at, data) else garbage;
      log := log + [State(WithSlot(disk, slot, torn), session)];
      disk := WithSlot(disk, slot, content);
      log := log + [State(disk, session)];
    }

    method Read(slot: nat, n: nat) returns (ok: bool, data: bytes)
      requires Valid() && slot < SLOTS && n <= slotSize
      ensures (healthy ==> ok) && (ok ==> data == disk.flash[slot][..n])
    {
      var fine: bool := *;
      ok := healthy || fine;
      data := disk.flash[slot][..n];
    }

    /** Arbitrary bytes. */
    method Garbage(n: nat) returns (g: bytes)
      ensures |g| == n
    {
      g := [];
      for i := 0 to n
        invariant |g| == i
      {
        var b: byte := *;
        g := g + [b];
      }
    }

    /** The session's RAM changes (no durable effect). */
    method SetSession(next: R)
      requires Valid()
      modifies this`session, this`log
      ensures Valid() && session == next && log == old(log) + [State(disk, session)]
    {
      session := next;
      log := log + [State(disk, session)];
    }
  }
}
