/** Left-drop matching: the full name, then the name with leftmost labels dropped, down to two labels. */
module LeftDrop {
  import opened Bytes
  import opened Text
  import opened Hash
  import opened Normalize

  function CountDots(s: bytes): nat {
    if s == [] then 0 else CountDots(s[1..]) + if s[0] == DOT then 1 else 0
  }

  lemma {:induction false} CountDotsAfter(s: bytes)
    requires CountDots(s) > 0
    ensures IndexOf(s, DOT) < |s| && CountDots(s[IndexOf(s, DOT) + 1..]) == CountDots(s) - 1
  {
    if s[0] != DOT {
      CountDotsAfter(s[1..]);
    }
  }

  lemma {:induction false} CountDotsMember(s: bytes)
    ensures CountDots(s) > 0 <==> DOT in s
  {
    if s != [] {
      CountDotsMember(s[1..]);
    }
  }

  /** The names looked up for p, in order: p itself, then shorter suffixes while more than two labels are left. */
  function Drops(p: bytes): (ds: seq<bytes>)
    ensures |ds| >= 1 && ds[0] == p
    decreases |p|
  {
    if CountDots(p) < 2 then [p] else
      CountDotsAfter(p);
      [p] + Drops(p[IndexOf(p, DOT) + 1..])
  }

  function Tested(name: bytes): seq<bytes> { if name == [] then [] else Drops(name) }

  /** A suffix of the name that starts right after a dot and has at least two labels itself. */
  ghost predicate DotSuffix(name: bytes, t: bytes) { DOT in t && exists i :: BehindDot(name, i, t) }

  /** t is what follows the dot at position i. */
  ghost predicate BehindDot(name: bytes, i: int, t: bytes) { 0 <= i < |name| && name[i] == DOT && t == name[i + 1..] }

  lemma DropsUnfold(p: bytes)
    ensures CountDots(p) < 2 ==> Drops(p) == [p]
    ensures CountDots(p) >= 2 ==>
              var d := IndexOf(p, DOT);
              && d < |p| && Drops(p) == [p] + Drops(p[d + 1..]) && CountDots(p[d + 1..]) == CountDots(p) - 1
  {
    hide CountDots, IndexOf;
    if CountDots(p) >= 2 {
      CountDotsAfter(p);
    }
  }

  /** With fewer than two dots no suffix has two labels. */
  lemma NoSuffix(name: bytes, t: bytes)
    requires CountDots(name) < 2
    ensures !DotSuffix(name, t)
  {
    hide CountDots;
    if DotSuffix(name, t) {
      var i :| BehindDot(name, i, t);
      TwoDots(name, i);
    }
  }

  lemma TailOfTail(s: bytes, a: nat, b: nat)
    requires a + b <= |s|
    ensures s[a..][b..] == s[a + b..]
  {
  }

  /** The suffixes behind the first dot and the later ones. */
  lemma SuffixBehind(name: bytes, t: bytes)
    requires IndexOf(name, DOT) < |name|
    ensures var rest := name[IndexOf(name, DOT) + 1..];
            DotSuffix(name, t) <==> (DOT in t && t == rest) || DotSuffix(rest, t)
  {
    var d: nat := IndexOf(name, DOT);
    var rest := name[d + 1..];
    assert name[d] == DOT && forall k :: 0 <= k < d ==> name[k] != DOT;
    hide IndexOf;
    forall i ensures BehindDot(name, i, t) <==> (i == d && t == rest) || BehindDot(rest, i - d - 1, t) {
      if d < i < |name| {
        TailOfTail(name, d + 1, i - d);
        assert rest[i - d - 1] == name[i];
      }
    }
    assert BehindDot(name, d, rest);
    if DotSuffix(rest, t) {
      var j :| BehindDot(rest, j, t);
      assert BehindDot(name, j + d + 1, t) by { assert BehindDot(rest, (j + d + 1) - d - 1, t); }
    }
  }

  lemma {:induction false} DropsAreSuffixes(name: bytes, t: bytes)
    ensures t in Drops(name) <==> t == name || DotSuffix(name, t)
    decreases |name|
  {
    hide *;
    DropsUnfold(name);
    if CountDots(name) < 2 {
      NoSuffix(name, t);
    } else {
      var rest := name[IndexOf(name, DOT) + 1..];
      DropsAreSuffixes(rest, t);
      CountDotsMember(rest);
      SuffixBehind(name, t);
    }
  }

  lemma {:induction false} TwoDots(s: bytes, i: nat)
    requires i < |s| && s[i] == DOT && DOT in s[i + 1..]
    ensures CountDots(s) >= 2
  {
    if i == 0 {
      CountDotsMember(s[1..]);
    } else {
      assert s[1..][i..] == s[i + 1..];
      TwoDots(s[1..], i - 1);
    }
  }

  /** Which names are looked up: the whole non-empty name and its dot-suffixes of two or more labels. */
  lemma TestedNames(name: bytes, t: bytes)
    ensures t in Tested(name) <==> name != [] && (t == name || DotSuffix(name, t))
  {
    if name != [] {
      DropsAreSuffixes(name, t);
    }
  }

  /** Some lookup of the call, made in order for the tested names, answers true. */
  ghost predicate Answer(lookup: (nat, u64) -> bool, name: bytes) {
    exists k: nat :: k < |Tested(name)| && lookup(k, DomainHash(Tested(name)[k]))
  }

  /**
   * The matching loop. lookup(k, h) is what the k-th list lookup of this call answers for h: the list
   * may be swapped, or its lock may time out, between any two lookups.
   */
  method IsBlocked(name: bytes, lookup: (nat, u64) -> bool) returns (blocked: bool)
    ensures blocked <==> Answer(lookup, name)
  {
    hide *;
    NoName(lookup);
    if name == [] {
      return false;
    }
    ghost var tested := Tested(name);
    StartDrops(name);
    var labels := CountLabels(name);
    var p := name;
    var k: nat := 0;  // lookups made so far
    assert tested[0..] == tested;
    while true
      invariant labels == 1 + CountDots(p)
      invariant k < |tested| && tested[k..] == Drops(p)
      invariant forall j: nat :: j < k ==> !lookup(j, DomainHash(tested[j]))
      decreases labels
    {
      NextDrop(tested, k, p);
      var h := ComputeDomainHash(p);
      if lookup(k, h) {
        Answered(lookup, name, k);
        return true;
      }
      if labels <= 2 {
        NotAnswered(lookup, name);
        return false;
      }
      var dot := IndexOf(p, DOT);
      assert dot < |p|;  // strchr cannot miss
      p := p[dot + 1..];
      labels := labels - 1;
      k := k + 1;
    }
  }

  lemma NoName(lookup: (nat, u64) -> bool)
    ensures !Answer(lookup, [])
  {
  }

  lemma StartDrops(name: bytes)
    requires name != []
    ensures Tested(name) == Drops(name) && |Tested(name)| > 0
  {
    hide Drops;
  }

  lemma Answered(lookup: (nat, u64) -> bool, name: bytes, k: nat)
    requires k < |Tested(name)| && lookup(k, DomainHash(Tested(name)[k]))
    ensures Answer(lookup, name)
  {
    hide Tested, DomainHash;
  }

  lemma NotAnswered(lookup: (nat, u64) -> bool, name: bytes)
    requires forall k: nat :: k < |Tested(name)| ==> !lookup(k, DomainHash(Tested(name)[k]))
    ensures !Answer(lookup, name)
  {
    hide Tested, DomainHash;
  }

  lemma NextDrop(tested: seq<bytes>, k: nat, p: bytes)
    requires k < |tested| && tested[k..] == Drops(p)
    ensures tested[k] == p && (CountDots(p) < 2 ==> |tested| == k + 1)
    ensures CountDots(p) >= 2 ==>
              var d := IndexOf(p, DOT);
              && d < |p| && CountDots(p[d + 1..]) == CountDots(p) - 1
              && k + 1 < |tested| && tested[k + 1..] == Drops(p[d + 1..])
  {
    DropsUnfold(p);
    hide Drops, CountDots, IndexOf;
    assert tested[k] == tested[k..][0] && tested[k + 1..] == tested[k..][1..];
    if CountDots(p) >= 2 {
      var more := Drops(p[IndexOf(p, DOT) + 1..]);
      assert ([p] + more)[1..] == more;
    }
  }

  /** The label count of a non-empty name. */
  method CountLabels(name: bytes) returns (labels: nat)
    ensures labels == 1 + CountDots(name)
  {
    labels := 1;
    assert name[0..] == name;
    for q := 0 to |name|
      invariant labels + CountDots(name[q..]) == 1 + CountDots(name)
    {
      assert name[q..][1..] == name[q + 1..];
      if name[q] == DOT {
        labels := labels + 1;
      }
    }
  }

  // ---- what the answer means -------------------------------------------------------------------------

  /** The set of query names a list blocks. */
  ghost predicate BlockedBy(list: seq<u64>, name: bytes) {
    exists t :: t in Tested(name) && DomainHash(t) in list
  }

  /** Every lookup answered from one list. */
  function InList(list: seq<u64>): (nat, u64) -> bool { (k: nat, h: u64) => h in list }

  /** The k-th lookup answered from the k-th list. */
  function InLists(lists: nat -> seq<u64>): (nat, u64) -> bool { (k: nat, h: u64) => h in lists(k) }

  lemma FixedList(list: seq<u64>, name: bytes)
    ensures Answer(InList(list), name) <==> BlockedBy(list, name)
  {
    if BlockedBy(list, name) {
      var t :| t in Tested(name) && DomainHash(t) in list;
      var k: nat :| k < |Tested(name)| && Tested(name)[k] == t;
      assert InList(list)(k, DomainHash(Tested(name)[k]));
    }
  }

  /** With lists swapping under the call: a suffix on every one of them blocks, and only listed suffixes do. */
  lemma SwappingLists(lists: nat -> seq<u64>, name: bytes)
    ensures (exists t :: t in Tested(name) && forall k: nat :: DomainHash(t) in lists(k)) ==> Answer(InLists(lists), name)
    ensures Answer(InLists(lists), name) ==> exists k: nat :: BlockedBy(lists(k), name)
  {
    if t :| t in Tested(name) && forall k: nat :: DomainHash(t) in lists(k) {
      var k: nat :| k < |Tested(name)| && Tested(name)[k] == t;
      assert DomainHash(t) in lists(k);
      assert InLists(lists)(k, DomainHash(Tested(name)[k]));
    }
    if Answer(InLists(lists), name) {
      var k: nat :| k < |Tested(name)| && InLists(lists)(k, DomainHash(Tested(name)[k]));
      assert Tested(name)[k] in Tested(name);
      assert BlockedBy(lists(k), name);
    }
  }

  /** A listed domain blocks itself and every subdomain; a domain has at least one dot. */
  lemma SubdomainBlocked(list: seq<u64>, d: bytes, prefix: bytes)
    requires DOT in d && DomainHash(d) in list
    ensures BlockedBy(list, d) && BlockedBy(list, prefix + [DOT] + d)
  {
    TestedNames(d, d);
    var name := prefix + [DOT] + d;
    assert name[|prefix|] == DOT && name[|prefix| + 1..] == d;
    assert BehindDot(name, |prefix|, d);
    TestedNames(name, d);
  }
}
