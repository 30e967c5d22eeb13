/**
 * The mutex-guarded pointer swap both firmwares use, one source line per step, with one reader and one
 * writer interleaved in any order. The sinkhole swaps hash lists under its DNS lookups; the generator swaps
 * published blobs under its HTTP sends.
 */
module SwapLock {
  import opened Bytes
  import opened SortedList

  type Ptr = nat

  datatype Owner = Free | Reader | Writer

  /** The reader: waiting for the lock, reading entries below the limit it saw, or finished. */
  datatype ReaderPc<T> =
    | Idle
    | Waiting
    | Holding(limit: nat, seen: seq<(nat, T)>)
    | Finished(limit: nat, seen: seq<(nat, T)>)
    | TimedOut

  /** The writer: a new buffer is built, the lock taken, pointer then count swapped, the lock given, the old freed. */
  datatype WriterPc =
    | Resting
    | Built(next: Ptr)
    | Locked(next: Ptr)
    | Swapped(next: Ptr, prev: Option<Ptr>)
    | Counted(prev: Option<Ptr>)
    | Unlocked(prev: Option<Ptr>)

  /**
   * heap: live buffers; cur, count: the shared pointer and length; window: the contents that have been current
   * since the reader's call began; freed: every pointer freed so far; fault: a freed or foreign buffer was
   * read, or a pointer freed twice.
   */
  datatype Machine<T(==)> = Machine(
    heap: map<Ptr, seq<T>>, cur: Option<Ptr>, count: nat, owner: Owner, r: ReaderPc<T>, w: WriterPc,
    supply: Ptr, window: set<seq<T>>, freed: seq<Ptr>, fault: bool)

  /** What the shared pointer points at. */
  function Current<T(==)>(m: Machine<T>): seq<T> {
    if m.cur.Some? && m.cur.value in m.heap then m.heap[m.cur.value] else []
  }

  // ---- reader steps -------------------------------------------------------------------------------------

  ghost predicate Call<T(!new)>(m: Machine<T>, m': Machine<T>) {
    !m.r.Waiting? && !m.r.Holding? && m' == m.(r := Waiting, window := {Current(m)})
  }

  ghost predicate GiveUp<T(!new)>(m: Machine<T>, m': Machine<T>) {
    m.r.Waiting? && m' == m.(r := TimedOut)
  }

  ghost predicate TakeAsReader<T(!new)>(m: Machine<T>, m': Machine<T>) {
    m.r.Waiting? && m.owner.Free? && m' == m.(owner := Reader, r := Holding(m.count, []))
  }

  /** One entry is read through the shared pointer. */
  ghost predicate ReadEntry<T(!new)>(m: Machine<T>, m': Machine<T>) {
    m.r.Holding? && exists i: nat :: i < m.r.limit && m' == AfterRead(m, i)
  }

  function AfterRead<T(==)>(m: Machine<T>, i: nat): Machine<T>
    requires m.r.Holding?
  {
    if m.cur.Some? && m.cur.value in m.heap && i < |m.heap[m.cur.value]|
    then m.(r := Holding(m.r.limit, m.r.seen + [(i, m.heap[m.cur.value][i])]))
    else m.(fault := true)
  }

  ghost predicate GiveAsReader<T(!new)>(m: Machine<T>, m': Machine<T>) {
    m.r.Holding? && m' == m.(owner := Free, r := Finished(m.r.limit, m.r.seen))
  }

  // ---- writer steps -------------------------------------------------------------------------------------

  ghost predicate Build<T(!new)>(ok: seq<T> -> bool, m: Machine<T>, m': Machine<T>) {
    m.w.Resting? && exists content: seq<T> :: ok(content) && m' == AfterBuild(m, content)
  }

  function AfterBuild<T(==)>(m: Machine<T>, content: seq<T>): Machine<T> {
    m.(heap := m.heap[m.supply := content], supply := m.supply + 1, w := Built(m.supply))
  }

  ghost predicate TakeAsWriter<T(!new)>(m: Machine<T>, m': Machine<T>) {
    m.w.Built? && m.owner.Free? && m' == m.(owner := Writer, w := Locked(m.w.next))
  }

  ghost predicate SwapPointer<T(!new)>(m: Machine<T>, m': Machine<T>) {
    m.w.Locked? && m' == m.(cur := Some(m.w.next), w := Swapped(m.w.next, m.cur))
  }

  ghost predicate SwapCount<T(!new)>(m: Machine<T>, m': Machine<T>) {
    m.w.Swapped? && m' == m.(count := |Current(m)|, w := Counted(m.w.prev))
  }

  ghost predicate GiveAsWriter<T(!new)>(m: Machine<T>, m': Machine<T>) {
    m.w.Counted? && m' == m.(owner := Free, w := Unlocked(m.w.prev), window := m.window + {Current(m)})
  }

  ghost predicate FreeOld<T(!new)>(m: Machine<T>, m': Machine<T>) {
    m.w.Unlocked? &&
      match m.w.prev
      case None => m' == m.(w := Resting)
      case Some(p) =>
        if p in m.heap then m' == m.(heap := m.heap - {p}, freed := m.freed + [p], w := Resting)
        else m' == m.(fault := true)
  }

  ghost predicate Next<T(!new)>(ok: seq<T> -> bool, m: Machine<T>, m': Machine<T>) {
    || Call(m, m') || GiveUp(m, m') || TakeAsReader(m, m') || ReadEntry(m, m') || GiveAsReader(m, m')
    || Build(ok, m, m') || TakeAsWriter(m, m') || SwapPointer(m, m') || SwapCount(m, m')
    || GiveAsWriter(m, m') || FreeOld(m, m')
  }

  ghost predicate Run<T(!new)>(ok: seq<T> -> bool, trace: seq<Machine<T>>) {
    |trace| > 0 && trace[0] == Machine(map[], None, 0, Free, Idle, Resting, 0, {}, [], false)
    && forall i :: 0 < i < |trace| ==> Next(ok, trace[i - 1], trace[i])
  }

  // ---- the invariant --------------------------------------------------------------------------------------

  /** The buffer the writer holds besides the shared one. */
  function Pending(w: WriterPc): Option<Ptr> {
    match w
    case Resting => None
    case Built(p) => Some(p)
    case Locked(p) => Some(p)
    case Swapped(_, prev) => prev
    case Counted(prev) => prev
    case Unlocked(prev) => prev
  }

  function AsSet(p: Option<Ptr>): set<Ptr> { if p.Some? then {p.value} else {} }

  /** Every read came from this content, and the limit is its length. */
  predicate Consistent<T(==)>(content: seq<T>, limit: nat, seen: seq<(nat, T)>) {
    |content| == limit && forall k :: 0 <= k < |seen| ==> seen[k].0 < limit && seen[k].1 == content[seen[k].0]
  }

  ghost predicate Inv<T(!new)>(ok: seq<T> -> bool, m: Machine<T>) {
    && !m.fault
    // exactly the shared and the writer's buffer are live: nothing leaks, nothing dangles
    && m.heap.Keys == AsSet(m.cur) + AsSet(Pending(m.w)) && AsSet(m.cur) !! AsSet(Pending(m.w))
    && (forall p :: p in m.heap ==> p < m.supply && ok(m.heap[p]))
    && (forall k :: 0 <= k < |m.freed| ==> m.freed[k] < m.supply && m.freed[k] !in m.heap)
    && (forall j, k :: 0 <= j < k < |m.freed| ==> m.freed[j] != m.freed[k])
    // mutual exclusion
    && (m.owner.Reader? <==> m.r.Holding?)
    && (m.owner.Writer? <==> m.w.Locked? || m.w.Swapped? || m.w.Counted?)
    // pointer and count belong together except between the two swaps
    && (m.w.Swapped? ==> m.cur == Some(m.w.next))
    && (m.w.Counted? || m.w.Unlocked? ==> m.cur.Some?)
    && (!m.w.Swapped? ==> m.count == |Current(m)|)
    // the reader
    && (forall c :: c in m.window ==> ok(c) || c == [])
    && (m.r.Waiting? && !m.owner.Writer? ==> Current(m) in m.window)
    && (m.r.Holding? ==> Current(m) in m.window && Consistent(Current(m), m.r.limit, m.r.seen))
    && (m.r.Finished? ==> exists c :: c in m.window && Consistent(c, m.r.limit, m.r.seen))
  }

  lemma ReaderKeepsInv<T(!new)>(ok: seq<T> -> bool, m: Machine<T>, m': Machine<T>)
    requires Inv(ok, m)
    requires Call(m, m') || GiveUp(m, m') || TakeAsReader(m, m') || ReadEntry(m, m') || GiveAsReader(m, m')
    ensures Inv(ok, m')
  {
    if GiveAsReader(m, m') {
      assert Consistent(Current(m), m.r.limit, m.r.seen);
    }
  }

  lemma WriterKeepsInv<T(!new)>(ok: seq<T> -> bool, m: Machine<T>, m': Machine<T>)
    requires Inv(ok, m)
    requires || Build(ok, m, m') || TakeAsWriter(m, m') || SwapPointer(m, m') || SwapCount(m, m')
             || GiveAsWriter(m, m') || FreeOld(m, m')
    ensures Inv(ok, m')
  {
    if Build(ok, m, m') {
      BuildKeepsInv(ok, m, m');
    } else if TakeAsWriter(m, m') || SwapPointer(m, m') || SwapCount(m, m') {
      SwapKeepsInv(ok, m, m');
    } else {
      EndKeepsInv(ok, m, m');
    }
  }

  lemma BuildKeepsInv<T(!new)>(ok: seq<T> -> bool, m: Machine<T>, m': Machine<T>)
    requires Inv(ok, m) && Build(ok, m, m')
    ensures Inv(ok, m')
  {
    assert Current(m') == Current(m);
  }

  lemma SwapKeepsInv<T(!new)>(ok: seq<T> -> bool, m: Machine<T>, m': Machine<T>)
    requires Inv(ok, m) && (TakeAsWriter(m, m') || SwapPointer(m, m') || SwapCount(m, m'))
    ensures Inv(ok, m')
  {
    assert Current(m') == Current(m) || m.owner.Writer?;
  }

  lemma EndKeepsInv<T(!new)>(ok: seq<T> -> bool, m: Machine<T>, m': Machine<T>)
    requires Inv(ok, m) && (GiveAsWriter(m, m') || FreeOld(m, m'))
    ensures Inv(ok, m')
  {
    assert Current(m') == Current(m);
  }

  lemma {:induction false} RunKeepsInv<T(!new)>(ok: seq<T> -> bool, trace: seq<Machine<T>>, i: nat)
    requires Run(ok, trace) && i < |trace|
    ensures Inv(ok, trace[i])
  {
    if i > 0 {
      RunKeepsInv(ok, trace, i - 1);
      var m, m' := trace[i - 1], trace[i];
      assert Next(ok, m, m');
      hide Inv;
      if Call(m, m') || GiveUp(m, m') || TakeAsReader(m, m') || ReadEntry(m, m') || GiveAsReader(m, m') {
        ReaderKeepsInv(ok, m, m');
      } else {
        WriterKeepsInv(ok, m, m');
      }
    }
  }

  // ---- what every interleaving guarantees -------------------------------------------------------------------

  /** No freed buffer is ever read, each superseded one is freed once, and only live ones are still referenced. */
  lemma NoFaultEver<T(!new)>(ok: seq<T> -> bool, trace: seq<Machine<T>>, i: nat)
    requires Run(ok, trace) && i < |trace|
    ensures var m := trace[i];
            && !m.fault
            && (forall j, k :: 0 <= j < k < |m.freed| ==> m.freed[j] != m.freed[k])
            && m.heap.Keys == AsSet(m.cur) + AsSet(Pending(m.w))
            && (m.r.Holding? ==> !m.w.Swapped? && !m.w.Counted? && m.r.limit == m.count == |Current(m)|)
  {
    RunKeepsInv(ok, trace, i);
  }

  /** A finished reader saw one content that was current at some moment of its call, whole and unmixed. */
  lemma OneContentSeen<T(!new)>(ok: seq<T> -> bool, trace: seq<Machine<T>>, i: nat)
    requires Run(ok, trace) && i < |trace| && trace[i].r.Finished?
    ensures exists c :: c in trace[i].window && (ok(c) || c == []) && Consistent(c, trace[i].r.limit, trace[i].r.seen)
  {
    RunKeepsInv(ok, trace, i);
    var c :| c in trace[i].window && Consistent(c, trace[i].r.limit, trace[i].r.seen);
    assert ok(c) || c == [];
  }

  // ---- the sinkhole's lookup ---------------------------------------------------------------------------------

  /** seen are the reads the lookup makes for h between lo and hi, and found is its answer. */
  ghost predicate Searches(h: u64, lo: nat, hi: nat, seen: seq<(nat, u64)>, found: bool)
    decreases |seen|
  {
    if lo >= hi then seen == [] && !found else
      var mid := lo + (hi - lo) / 2;
      && seen != [] && seen[0].0 == mid
      && if seen[0].1 == h then found && |seen| == 1
         else if seen[0].1 < h then Searches(h, mid + 1, hi, seen[1..], found)
         else Searches(h, lo, mid, seen[1..], found)
  }

  lemma {:induction false} SearchTells(h: u64, c: seq<u64>, lo: nat, hi: nat, seen: seq<(nat, u64)>, found: bool)
    requires Ascending(c) && lo <= hi <= |c| && Consistent(c, |c|, seen) && Searches(h, lo, hi, seen, found)
    requires h !in c[..lo] && h !in c[hi..]
    ensures found <==> h in c
    decreases |seen|
  {
    if lo < hi {
      var mid := lo + (hi - lo) / 2;
      assert seen[0].1 == c[mid];
      if c[mid] < h {
        SearchTells(h, c, mid + 1, hi, seen[1..], found);
      } else if c[mid] > h {
        SearchTells(h, c, lo, mid, seen[1..], found);
      }
    }
  }

  /** What a lookup that has ended answers: false after a time-out, else what its search found. */
  ghost predicate Answers(r: ReaderPc<u64>, h: u64, found: bool) {
    (r.TimedOut? && !found) || (r.Finished? && Searches(h, 0, r.limit, r.seen, found))
  }

  /**
   * In every interleaving with commits, a lookup that got the lock answers membership in one list installed
   * during the call; one that timed out answers false. So a positive answer is always right.
   */
  lemma LookupIsMembership(trace: seq<Machine<u64>>, i: nat, h: u64, found: bool)
    requires Run(Ascending, trace) && i < |trace| && Answers(trace[i].r, h, found)
    ensures trace[i].r.TimedOut? ==> !found
    ensures !trace[i].r.TimedOut? ==> exists c :: c in trace[i].window && Ascending(c) && (found <==> h in c)
    ensures found ==> exists c :: c in trace[i].window && h in c
  {
    if trace[i].r.Finished? {
      OneContentSeen(Ascending, trace, i);
      var c :| c in trace[i].window && (Ascending(c) || c == []) && Consistent(c, trace[i].r.limit, trace[i].r.seen);
      SearchTells(h, c, 0, |c|, trace[i].r.seen, found);
      assert Ascending(c);
    }
  }

  // ---- the generator's send --------------------------------------------------------------------------------------

  /** The reads of a complete send: every entry once, in order. */
  ghost predicate Sends<T>(limit: nat, seen: seq<(nat, T)>) {
    |seen| == limit && forall k :: 0 <= k < limit ==> seen[k].0 == k
  }

  /** In every interleaving with publications, a complete send is one whole blob published during the request. */
  lemma SendIsOneBlob<T(!new)>(ok: seq<T> -> bool, trace: seq<Machine<T>>, i: nat) returns (blob: seq<T>)
    requires Run(ok, trace) && i < |trace| && trace[i].r.Finished? && Sends(trace[i].r.limit, trace[i].r.seen)
    ensures blob in trace[i].window && |blob| == trace[i].r.limit
    ensures forall k :: 0 <= k < |blob| ==> trace[i].r.seen[k] == (k, blob[k])
  {
    OneContentSeen(ok, trace, i);
    blob :| blob in trace[i].window && Consistent(blob, trace[i].r.limit, trace[i].r.seen);
    assert Consistent(blob, trace[i].r.limit, trace[i].r.seen);
  }
}
