/** Splitting and joining byte strings at a separator, and C-string scanning. */
module Text {
  import opened Bytes

  /** Position of the first c in s, or |s|. */
  function IndexOf(s: bytes, c: byte): (i: nat)
    ensures i <= |s|
    ensures i < |s| ==> s[i] == c
    ensures forall k :: 0 <= k < i ==> s[k] != c
  {
    if s == [] || s[0] == c then 0 else 1 + IndexOf(s[1..], c)
  }

  lemma IndexOfUnique(s: bytes, c: byte, i: nat)
    requires i <= |s| && (i < |s| ==> s[i] == c)
    requires forall k :: 0 <= k < i ==> s[k] != c
    ensures IndexOf(s, c) == i
  {
    var j := IndexOf(s, c);
    assert j < |s| ==> s[j] == c;
  }

  lemma SliceOfSlice(s: bytes, a: nat, b: nat, i: nat, j: nat)
    requires a <= b <= |s| && i <= j <= b - a
    ensures s[a..b][i..j] == s[a + i..a + j]
  {
    var l, r := s[a..b][i..j], s[a + i..a + j];
    forall k | 0 <= k < |l| ensures l[k] == r[k] {
      assert l[k] == s[a..b][i + k];
    }
  }

  /** A stretch of s as its first element, what follows up to b, and the rest. */
  lemma ThreeParts(s: bytes, a: nat, b: nat, c: nat)
    requires a < b <= c <= |s|
    ensures s[a..c] == [s[a]] + s[a + 1..b] + s[b..c]
  {
    var l, r := s[a..c], [s[a]] + s[a + 1..b] + s[b..c];
    forall k | 0 <= k < |l| ensures l[k] == r[k] {
      assert l[k] == s[a + k];
    }
  }

  /** The pieces of s between occurrences of c: always at least one piece. */
  function Split(s: bytes, c: byte): (parts: seq<bytes>)
    ensures |parts| >= 1
    decreases |s|
  {
    var i := IndexOf(s, c);
    if i == |s| then [s] else [s[..i]] + Split(s[i + 1..], c)
  }

  function Join(parts: seq<bytes>, c: byte): bytes
    requires |parts| >= 1
  {
    if |parts| == 1 then parts[0] else parts[0] + [c] + Join(parts[1..], c)
  }

  ghost predicate Free(part: bytes, c: byte) { c !in part }

  ghost predicate AllFree(parts: seq<bytes>, c: byte) {
    forall p :: p in parts ==> Free(p, c)
  }

  lemma {:induction false} JoinOfSplit(s: bytes, c: byte)
    ensures Join(Split(s, c), c) == s
    ensures AllFree(Split(s, c), c)
    decreases |s|
  {
    var i := IndexOf(s, c);
    if i < |s| {
      JoinOfSplit(s[i + 1..], c);
      var rest := Split(s[i + 1..], c);
      assert Split(s, c)[1..] == rest;
      assert s == s[..i] + [c] + s[i + 1..];
    }
  }

  /** The pieces of a string with a c-free first piece. */
  lemma SplitCons(head: bytes, tail: bytes, c: byte)
    requires Free(head, c)
    ensures Split(head + [c] + tail, c) == [head] + Split(tail, c)
    ensures Split(head, c) == [head]
  {
    var s := head + [c] + tail;
    IndexOfUnique(s, c, |head|);
    assert s[..|head|] == head && s[|head| + 1..] == tail;
    IndexOfUnique(head, c, |head|);
  }

  lemma JoinCons(parts: seq<bytes>, c: byte)
    requires |parts| >= 1 && AllFree(parts, c)
    ensures Free(parts[0], c) && parts == [parts[0]] + parts[1..] && AllFree(parts[1..], c)
    ensures if |parts| == 1 then parts == [parts[0]] && Join(parts, c) == parts[0]
            else Join(parts, c) == parts[0] + [c] + Join(parts[1..], c)
  {
  }

  lemma {:induction false} SplitOfJoin(parts: seq<bytes>, c: byte)
    requires |parts| >= 1 && AllFree(parts, c)
    ensures Split(Join(parts, c), c) == parts
  {
    hide *;
    JoinCons(parts, c);
    if |parts| == 1 {
      SplitCons(parts[0], [], c);
    } else {
      SplitOfJoin(parts[1..], c);
      SplitCons(parts[0], Join(parts[1..], c), c);
    }
  }

  /** Reading the first of the remaining pieces off the front of their join. */
  lemma JoinHead(parts: seq<bytes>, c: byte)
    requires |parts| >= 1 && AllFree(parts, c)
    ensures var s := Join(parts, c);
            && IndexOf(s, c) == |parts[0]| && s[..|parts[0]|] == parts[0]
            && (|parts| > 1 <==> |parts[0]| < |s|)
            && (|parts| > 1 ==> s[|parts[0]| + 1..] == Join(parts[1..], c))
  {
    assert Free(parts[0], c);
    IndexOfUnique(Join(parts, c), c, |parts[0]|);
  }

  lemma EmptyJoin(parts: seq<bytes>, c: byte)
    requires |parts| >= 1 && Join(parts, c) == []
    ensures parts == [[]]
  {
    assert parts == [parts[0]] + parts[1..];
  }

  /** Position p of s is where piece k starts, or the end of s with at most an empty last piece still ahead. */
  ghost predicate PieceAt(s: bytes, p: nat, parts: seq<bytes>, k: nat, c: byte) {
    && p <= |s| && k <= |parts| && AllFree(parts, c)
    && (k < |parts| ==> s[p..] == Join(parts[k..], c))
    && (p < |s| ==> k < |parts|)
    && (p == |s| && k < |parts| ==> parts[k..] == [[]])
  }

  lemma FirstPiece(s: bytes, c: byte)
    ensures PieceAt(s, 0, Split(s, c), 0, c)
  {
    JoinOfSplit(s, c);
    assert s[0..] == s && Split(s, c)[0..] == Split(s, c);
    if s == [] {
      EmptyJoin(Split(s, c), c);
    }
  }

  lemma NextPiece(s: bytes, p: nat, parts: seq<bytes>, k: nat, c: byte)
    requires PieceAt(s, p, parts, k, c) && p < |s|
    ensures var len := IndexOf(s[p..], c);
            && s[p..p + len] == parts[k]
            && PieceAt(s, if p + len < |s| then p + len + 1 else p + len, parts, k + 1, c)
  {
    var rest := parts[k..];
    JoinHead(rest, c);
    var len := IndexOf(s[p..], c);
    assert s[p..][..len] == s[p..p + len];
    assert rest[1..] == parts[k + 1..];
    if p + len < |s| {
      assert s[p..][len + 1..] == s[p + len + 1..];
      if p + len + 1 == |s| {
        EmptyJoin(parts[k + 1..], c);
      }
    }
  }

  /** The same, byte by byte. */
  lemma PieceBytes(s: bytes, p: nat, parts: seq<bytes>, k: nat, c: byte)
    requires PieceAt(s, p, parts, k, c) && p < |s|
    ensures k < |parts| && p + |parts[k]| <= |s| && c !in parts[k]
    ensures forall i :: 0 <= i < |parts[k]| ==> parts[k][i] == s[p + i]
    ensures p + |parts[k]| < |s| ==> s[p + |parts[k]|] == c
    ensures PieceAt(s, if p + |parts[k]| < |s| then p + |parts[k]| + 1 else |s|, parts, k + 1, c)
  {
    NextPiece(s, p, parts, k, c);
    assert Free(parts[k], c);
    hide PieceAt, Join;
    var len := IndexOf(s[p..], c);
    assert len < |s[p..]| ==> s[p..][len] == s[p + len];
    forall i | 0 <= i < len ensures parts[k][i] == s[p + i] {
      assert s[p..p + len][i] == s[p + i];
    }
  }

  /** Appending one byte either closes the last piece or extends it. */
  function Extend(parts: seq<bytes>, c: byte, x: byte): seq<bytes>
    requires |parts| >= 1
  {
    if x == c then parts + [[]] else parts[..|parts| - 1] + [parts[|parts| - 1] + [x]]
  }

  lemma ExtendEnds(parts: seq<bytes>, c: byte, x: byte)
    requires |parts| >= 1
    ensures var e, k := Extend(parts, c, x), |parts| - 1;
            && |e| == (if x == c then |parts| + 1 else |parts|)
            && (x == c ==> e[..|parts|] == parts && e[|parts|] == [])
            && (x != c ==> e[..k] == parts[..k] && e[k] == parts[k] + [x])
  {
  }

  lemma ExtendCons(head: bytes, parts: seq<bytes>, c: byte, x: byte)
    requires |parts| >= 1
    ensures Extend([head] + parts, c, x) == [head] + Extend(parts, c, x)
  {
    if x != c {
      assert ([head] + parts)[..|parts|] == [head] + parts[..|parts| - 1];
    }
  }

  lemma Around(s: bytes, i: nat, x: byte)
    requires i < |s|
    ensures s == s[..i] + [s[i]] + s[i + 1..]
    ensures s + [x] == s[..i] + [s[i]] + (s[i + 1..] + [x])
  {
  }

  /** The first piece of s, when it is not the last one. */
  lemma SplitFirst(s: bytes, c: byte, x: byte)
    requires IndexOf(s, c) < |s|
    ensures var i := IndexOf(s, c);
            && Split(s, c) == [s[..i]] + Split(s[i + 1..], c)
            && Split(s + [x], c) == [s[..i]] + Split(s[i + 1..] + [x], c)
  {
    var i := IndexOf(s, c);
    Around(s, i, x);
    hide Split;
    assert Free(s[..i], c);
    SplitCons(s[..i], s[i + 1..], c);
    SplitCons(s[..i], s[i + 1..] + [x], c);
  }

  lemma SplitLast(s: bytes, c: byte, x: byte)
    requires IndexOf(s, c) == |s|
    ensures Split(s, c) == [s] && Split(s + [x], c) == if x == c then [s] + [[]] else [s + [x]]
  {
    SplitCons(s, [], c);
    assert Split([], c) == [[]];
    hide Split;
    if x == c {
      assert s + [x] == s + [c] + [];
    } else {
      SplitCons(s + [x], [], c);
    }
  }

  lemma {:induction false} SplitSnoc(s: bytes, c: byte, x: byte)
    ensures Split(s + [x], c) == Extend(Split(s, c), c, x)
    decreases |s|
  {
    hide *;
    var i := IndexOf(s, c);
    if i < |s| {
      SplitFirst(s, c, x);
      SplitSnoc(s[i + 1..], c, x);
      ExtendCons(s[..i], Split(s[i + 1..], c), c, x);
    } else {
      SplitLast(s, c, x);
      ExtendOne(s, c, x);
    }
  }

  lemma ExtendOne(part: bytes, c: byte, x: byte)
    ensures Extend([part], c, x) == if x == c then [part] + [[]] else [part + [x]]
  {
  }

  /** f applied to each string, the results concatenated in order. */
  function FlatMap<T>(f: bytes -> seq<T>, ts: seq<bytes>): seq<T> {
    if ts == [] then [] else FlatMap(f, ts[..|ts| - 1]) + f(ts[|ts| - 1])
  }

  lemma FlatMapSnoc<T>(f: bytes -> seq<T>, ts: seq<bytes>, t: bytes)
    ensures FlatMap(f, ts + [t]) == FlatMap(f, ts) + f(t)
  {
    assert (ts + [t])[..|ts|] == ts;
  }

  lemma {:induction false} FlatMapAppend<T>(f: bytes -> seq<T>, a: seq<bytes>, b: seq<bytes>)
    ensures FlatMap(f, a + b) == FlatMap(f, a) + FlatMap(f, b)
  {
    if b == [] {
      assert a + b == a && FlatMap(f, b) == [];
    } else {
      var init, last := b[..|b| - 1], b[|b| - 1];
      FlatMapAppend(f, a, init);
      FlatMapSnoc(f, a + init, last);
      FlatMapSnoc(f, init, last);
      hide FlatMap;
      assert b == init + [last] && a + b == a + init + [last];
    }
  }

  lemma FlatMapSingle<T>(f: bytes -> seq<T>, t: bytes)
    ensures FlatMap(f, [t]) == f(t)
  {
    assert [t][..0] == [];
  }

  /** Chunks of a stream put back together. */
  function Flatten(chunks: seq<bytes>): bytes { FlatMap((c: bytes) => c, chunks) }

  lemma FlattenUpTo(chunks: seq<bytes>, k: nat)
    requires k < |chunks|
    ensures Flatten(chunks[..k + 1]) == Flatten(chunks[..k]) + chunks[k]
  {
    FlatMapUpTo((c: bytes) => c, chunks, k);
  }

  lemma FlatMapUpTo<T>(f: bytes -> seq<T>, ts: seq<bytes>, k: nat)
    requires k < |ts|
    ensures FlatMap(f, ts[..k + 1]) == FlatMap(f, ts[..k]) + f(ts[k])
  {
    FlatMapSnoc(f, ts[..k], ts[k]);
    hide FlatMap;
    assert ts[..k + 1] == ts[..k] + [ts[k]];
  }

  lemma FlatMapFrom<T>(f: bytes -> seq<T>, ts: seq<bytes>, k: nat)
    requires k <= |ts|
    ensures FlatMap(f, ts) == FlatMap(f, ts[..k]) + FlatMap(f, ts[k..])
  {
    hide FlatMap;
    FlatMapAppend(f, ts[..k], ts[k..]);
    assert ts[..k] + ts[k..] == ts;
  }

  lemma {:induction false} FlatMapMember<T>(f: bytes -> seq<T>, ts: seq<bytes>, x: T)
    ensures x in FlatMap(f, ts) <==> exists t :: t in ts && x in f(t)
  {
    if ts != [] {
      FlatMapMember(f, ts[..|ts| - 1], x);
      var last := ts[|ts| - 1];
      assert last in ts;
      assert forall t :: t in ts <==> t in ts[..|ts| - 1] || t == last;
    }
  }

  /** The C string that starts a buffer: everything before the first NUL. */
  function CStr(s: bytes): bytes { s[..IndexOf(s, 0)] }

  lemma CStrFree(s: bytes)
    ensures 0 !in CStr(s)
    ensures 0 !in s ==> CStr(s) == s
  {
  }
}
