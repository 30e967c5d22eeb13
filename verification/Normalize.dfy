/** Turning a token into a blockable domain, or rejecting it. */
module Normalize {
  import opened Bytes
  import opened Text

  const DOT: byte := '.' as int
  const STAR: byte := '*' as int
  const MAX_DOMAIN: nat := 253

  const IGNORED_HOSTS: seq<bytes> := [
    Ascii("localhost"), Ascii("localhost.localdomain"), Ascii("local"), Ascii("broadcasthost"),
    Ascii("ip6-localhost"), Ascii("ip6-loopback"), Ascii("ip6-localnet"), Ascii("ip6-mcastprefix"),
    Ascii("ip6-allnodes"), Ascii("ip6-allrouters"), Ascii("ip6-allhosts"), Ascii("0.0.0.0")]

  // ---- character classes (C locale) -----------------------------------------------------------

  predicate IsSpace(c: byte) { c == 32 || 9 <= c <= 13 }
  predicate IsDigit(c: byte) { '0' as int <= c <= '9' as int }
  predicate IsUpper(c: byte) { 'A' as int <= c <= 'Z' as int }
  predicate IsAlnum(c: byte) { IsDigit(c) || IsUpper(c) || 'a' as int <= c <= 'z' as int }
  predicate StartsLabel(c: byte) { IsAlnum(c) || c == '_' as int }
  predicate InLabel(c: byte) { StartsLabel(c) || c == '-' as int }

  function LowerByte(c: byte): byte { if IsUpper(c) then c + 32 else c }

  function Lower(s: bytes): (r: bytes)
    ensures |r| == |s|
    ensures forall i :: 0 <= i < |s| ==> r[i] == LowerByte(s[i])
  {
    seq(|s|, i requires 0 <= i < |s| => LowerByte(s[i]))
  }

  // ---- the two languages, stated without a scanner ---------------------------------------------

  /** One label: 1 to 63 characters, the first alphanumeric or '_', the others also '-'. */
  predicate ValidLabel(l: bytes) {
    1 <= |l| <= 63 && StartsLabel(l[0]) && forall i :: 0 <= i < |l| ==> InLabel(l[i])
  }

  predicate AllValid(ls: seq<bytes>) { forall i :: 0 <= i < |ls| ==> ValidLabel(ls[i]) }

  /** At least two dot-separated valid labels. */
  predicate ValidShape(s: bytes) {
    var ls := Split(s, DOT);
    |ls| >= 2 && AllValid(ls)
  }

  predicate DigitGroup(g: bytes) {
    1 <= |g| <= 3 && forall i :: 0 <= i < |g| ==> IsDigit(g[i])
  }

  /** Exactly k dot-separated groups of one to three digits. */
  predicate DigitGroups(s: bytes, k: nat) {
    var gs := Split(s, DOT);
    |gs| == k && forall i :: 0 <= i < |gs| ==> DigitGroup(gs[i])
  }

  predicate Ipv4Shape(s: bytes) { DigitGroups(s, 4) }

  // ---- the scanners ----------------------------------------------------------------------------

  /** What a run of n leading digits decides about the groups of s. */
  lemma FirstGroup(s: bytes, n: nat, k: nat)
    requires n <= |s| && k > 0 && (forall j :: 0 <= j < n ==> IsDigit(s[j])) && (n < |s| ==> !IsDigit(s[n]))
    ensures DigitGroups(s, k) <==>
              1 <= n <= 3 && if k == 1 then n == |s| else n < |s| && s[n] == DOT && DigitGroups(s[n + 1..], k - 1)
  {
    var i := IndexOf(s, DOT);
    var gs := Split(s, DOT);
    assert gs[0] == s[..i];
    if i != n {
      assert n < i && gs[0][n] == s[n];
      assert !DigitGroup(gs[0]);
    } else if i < |s| {
      var rest := Split(s[i + 1..], DOT);
      assert gs[1..] == rest;
      assert forall j :: 0 < j < |gs| ==> gs[j] == rest[j - 1];
      assert forall j :: 0 <= j < |rest| ==> rest[j] == gs[j + 1];
    }
  }

  method ScanIpv4(s: bytes) returns (ok: bool)
    ensures ok <==> Ipv4Shape(s)
  {
    var i := 0;
    for group := 0 to 4
      invariant i <= |s| && (group == 0 ==> i == 0)
      invariant 0 < group < 4 ==> (Ipv4Shape(s) <==> i < |s| && s[i] == DOT && DigitGroups(s[i + 1..], 4 - group))
      invariant group == 4 ==> (Ipv4Shape(s) <==> i == |s|)
    {
      if group > 0 {
        if i >= |s| || s[i] != DOT {
          return false;
        }
        i := i + 1;
      }
      var start := i;
      while i < |s| && IsDigit(s[i])
        invariant start <= i <= |s|
        invariant forall k :: start <= k < i ==> IsDigit(s[k])
      {
        i := i + 1;
      }
      var glen := i - start;
      ghost var tail := s[start..];
      FirstGroup(tail, glen, 4 - group);
      assert start == 0 ==> tail == s;
      assert i < |s| ==> tail[glen] == s[i] && tail[glen + 1..] == s[i + 1..];
      if glen < 1 || glen > 3 {
        return false;
      }
    }
    return i == |s|;
  }

  lemma AllValidCons(head: bytes, rest: seq<bytes>)
    ensures AllValid([head] + rest) <==> ValidLabel(head) && AllValid(rest)
  {
    hide ValidLabel;
    var ls := [head] + rest;
    assert ls[0] == head && forall j :: 0 <= j < |rest| ==> ls[j + 1] == rest[j];
    if ValidLabel(head) && AllValid(rest) {
      assert forall i :: 0 < i < |ls| ==> ls[i] == rest[i - 1];
    }
  }

  /** What the first label decides about the labels of s. */
  lemma FirstLabel(s: bytes)
    ensures var n := IndexOf(s, DOT);
            && (AllValid(Split(s, DOT)) <==> ValidLabel(s[..n]) && (n < |s| ==> AllValid(Split(s[n + 1..], DOT))))
            && |Split(s, DOT)| == if n == |s| then 1 else 1 + |Split(s[n + 1..], DOT)|
  {
    var n := IndexOf(s, DOT);
    hide ValidLabel, AllValid, IndexOf;
    if n < |s| {
      AllValidCons(s[..n], Split(s[n + 1..], DOT));
    } else {
      AllValidCons(s, []);
      NoneValid();
      assert s[..n] == s && [s] + [] == [s];
    }
  }

  lemma NoneValid()
    ensures AllValid([])
  {
  }

  /** Scans the label that starts s: its length, and whether all its characters are allowed. */
  method ScanLabel(s: bytes) returns (ok: bool, n: nat)
    requires s != []
    ensures ok ==> n == IndexOf(s, DOT) > 0 && (ValidLabel(s[..n]) <==> n <= 63)
    ensures !ok ==> !ValidLabel(s[..IndexOf(s, DOT)])
  {
    ghost var end := IndexOf(s, DOT);
    n := 0;
    if !StartsLabel(s[0]) {
      assert end > 0 ==> s[..end][0] == s[0];
      return false, n;
    }
    n := 1;
    while n < |s| && s[n] != DOT
      invariant 1 <= n <= end
      invariant forall k :: 0 <= k < n ==> InLabel(s[k])
    {
      if !InLabel(s[n]) {
        assert s[..end][n] == s[n];
        return false, n;
      }
      n := n + 1;
    }
    return true, n;
  }

  /** What is still to be checked of the rest of a name after count labels. */
  ghost predicate Remaining(rest: bytes, count: nat) {
    AllValid(Split(rest, DOT)) && count + |Split(rest, DOT)| >= 2
  }

  lemma RemainingStep(rest: bytes, count: nat)
    ensures var n := IndexOf(rest, DOT);
            Remaining(rest, count) <==>
              ValidLabel(rest[..n]) && if n < |rest| then Remaining(rest[n + 1..], count + 1) else count >= 1
  {
    FirstLabel(rest);
    hide ValidLabel, AllValid, Split, IndexOf;
  }

  method ScanDomain(s: bytes) returns (ok: bool)
    ensures ok <==> ValidShape(s)
  {
    var i, labelCount := 0, 0;
    ghost var rest, goal := s, ValidShape(s);
    RemainingStep([], 0);
    assert goal == Remaining(s, 0);
    while i < |s|
      invariant i <= |s| && rest == s[i..]
      invariant i < |s| ==> goal == Remaining(rest, labelCount)
      invariant i == |s| ==> (goal <==> labelCount >= 2)
    {
      RemainingStep(rest, labelCount);
      var valid, n := ScanLabel(s[i..]);
      if !valid || n > 63 {
        return false;
      }
      i := i + n;
      labelCount := labelCount + 1;
      if i < |s| {
        i := i + 1;
        ghost var next := rest[n + 1..];
        assert next == s[i..];
        rest := next;
        if i >= |s| {
          RemainingStep(rest, labelCount);
          return false;
        }
      } else {
        rest := [];
      }
    }
    return labelCount >= 2;
  }

  /** The scanner's language as its comment states it: joins of two or more valid labels. */
  lemma DomainLanguage(s: bytes)
    ensures ValidShape(s) <==> exists ls: seq<bytes> :: |ls| >= 2 && AllValid(ls) && s == Join(ls, DOT)
  {
    if ValidShape(s) {
      JoinOfSplit(s, DOT);
    }
    forall ls: seq<bytes> | |ls| >= 2 && AllValid(ls) && s == Join(ls, DOT) ensures ValidShape(s) {
      forall l | l in ls ensures Free(l, DOT) {
        assert exists i :: 0 <= i < |ls| && l == ls[i];
      }
      SplitOfJoin(ls, DOT);
    }
  }

  lemma Ipv4Language(s: bytes)
    ensures Ipv4Shape(s) <==>
              exists gs: seq<bytes> :: |gs| == 4 && (forall i :: 0 <= i < 4 ==> DigitGroup(gs[i])) && s == Join(gs, DOT)
  {
    if Ipv4Shape(s) {
      JoinOfSplit(s, DOT);
    }
    forall gs: seq<bytes> | |gs| == 4 && (forall i :: 0 <= i < 4 ==> DigitGroup(gs[i])) && s == Join(gs, DOT)
      ensures Ipv4Shape(s)
    {
      forall g | g in gs ensures Free(g, DOT) {
        assert exists i :: 0 <= i < |gs| && g == gs[i];
      }
      SplitOfJoin(gs, DOT);
    }
  }

  // ---- normalisation ---------------------------------------------------------------------------

  function TrimStart(s: bytes): bytes { if s != [] && IsSpace(s[0]) then TrimStart(s[1..]) else s }
  function TrimEnd(s: bytes): bytes { if s != [] && IsSpace(s[|s| - 1]) then TrimEnd(s[..|s| - 1]) else s }
  function Trim(s: bytes): bytes { TrimEnd(TrimStart(s)) }

  /** At most one trailing dot. */
  function DropDot(s: bytes): bytes { if s != [] && s[|s| - 1] == DOT then s[..|s| - 1] else s }

  /** At most one "*." prefix. */
  function DropStar(s: bytes): bytes { if |s| >= 2 && s[0] == STAR && s[1] == DOT then s[2..] else s }

  function Strip(token: bytes): bytes { DropStar(DropDot(Trim(token))) }

  predicate IgnoredHost(l: bytes) { l in IGNORED_HOSTS }

  /** Names that are never blocked, numbers, non-ASCII and malformed names. */
  predicate Rejected(l: bytes) {
    IgnoredHost(l) || Ipv4Shape(l) || (exists i :: 0 <= i < |l| && l[i] >= 0x80) || !ValidShape(l)
  }

  /** The normalised domain, or [] when the token is not a blockable domain. */
  function Normalized(token: bytes, outSize: nat): (d: bytes) {
    var s := Strip(token);
    if s == [] || |s| > MAX_DOMAIN || |s| >= outSize || Rejected(Lower(s)) then [] else Lower(s)
  }

  /** What every emitted domain is. */
  predicate IsDomain(d: bytes) {
    && 1 <= |d| <= MAX_DOMAIN
    && ValidShape(d)
    && (forall i :: 0 <= i < |d| ==> !IsUpper(d[i]))
    && !IgnoredHost(d)
    && !Ipv4Shape(d)
  }

  lemma TrimStartStep(s: bytes, k: nat)
    requires k <= |s|
    ensures if k < |s| && IsSpace(s[k]) then TrimStart(s[k..]) == TrimStart(s[k + 1..]) else TrimStart(s[k..]) == s[k..]
  {
    hide IsSpace;
    assert k < |s| ==> s[k..][0] == s[k] && s[k..][1..] == s[k + 1..];
  }

  lemma TrimEndStep(s: bytes, k: nat)
    requires k <= |s|
    ensures if k > 0 && IsSpace(s[k - 1]) then TrimEnd(s[..k]) == TrimEnd(s[..k - 1]) else TrimEnd(s[..k]) == s[..k]
  {
    hide IsSpace;
    assert k > 0 ==> s[..k][k - 1] == s[k - 1] && s[..k][..k - 1] == s[..k - 1];
  }

  method SkipLeading(s: bytes) returns (start: nat)
    ensures start <= |s| && s[start..] == TrimStart(s)
  {
    hide *;
    start := 0;
    assert s[0..] == s;
    while start < |s| && IsSpace(s[start])
      invariant start <= |s| && TrimStart(s[start..]) == TrimStart(s)
    {
      TrimStartStep(s, start);
      start := start + 1;
    }
    TrimStartStep(s, start);
  }

  method DropTrailing(s: bytes) returns (end: nat)
    ensures end <= |s| && s[..end] == TrimEnd(s)
  {
    hide *;
    end := |s|;
    assert s[..end] == s;
    while end > 0 && IsSpace(s[end - 1])
      invariant end <= |s| && TrimEnd(s[..end]) == TrimEnd(s)
    {
      TrimEndStep(s, end);
      end := end - 1;
    }
    TrimEndStep(s, end);
  }

  method TrimRange(s: bytes) returns (start: nat, end: nat)
    ensures start <= end <= |s| && s[start..end] == Trim(s)
  {
    hide TrimStart, TrimEnd;
    start := SkipLeading(s);
    var len := DropTrailing(s[start..]);
    end := start + len;
    SliceOfSlice(s, start, |s|, 0, len);
  }

  method IsIgnoredHost(s: bytes) returns (ignored: bool)
    ensures ignored <==> IgnoredHost(s)
  {
    for i := 0 to |IGNORED_HOSTS|
      invariant forall k :: 0 <= k < i ==> IGNORED_HOSTS[k] != s
    {
      if IGNORED_HOSTS[i] == s {
        return true;
      }
    }
    return false;
  }

  method LowerInto(lower: array<byte>, s: bytes)
    requires |s| <= lower.Length
    modifies lower
    ensures lower[..|s|] == Lower(s)
  {
    for i := 0 to |s|
      invariant forall k :: 0 <= k < i ==> lower[k] == LowerByte(s[k])
    {
      lower[i] := LowerByte(s[i]);
    }
  }

  method IsRejected(l: bytes) returns (rejected: bool)
    ensures rejected <==> Rejected(l)
  {
    var ignored := IsIgnoredHost(l);
    var ipv4 := ScanIpv4(l);
    if ignored || ipv4 {
      return true;
    }
    for i := 0 to |l|
      invariant forall k :: 0 <= k < i ==> l[k] < 0x80
    {
      if l[i] >= 0x80 {
        return true;
      }
    }
    var valid := ScanDomain(l);
    return !valid;
  }

  method NormalizeDomain(token: bytes, outSize: nat) returns (out: bytes)
    ensures out == Normalized(token, outSize)
  {
    hide TrimStart, TrimEnd, Lower, Rejected;
    var start, end := TrimRange(token);
    var s := token[start..end];
    var len := |s|;
    if len > 0 && s[len - 1] == DOT {
      len := len - 1;
    }
    s := s[..len];
    if len >= 2 && s[0] == STAR && s[1] == DOT {
      s := s[2..];
      len := len - 2;
    }
    assert s == Strip(token);
    if len == 0 || len > MAX_DOMAIN || len >= outSize {
      return [];
    }
    var lower := new byte[256];
    LowerInto(lower, s);
    var rejected := IsRejected(lower[..len]);
    return if rejected then [] else lower[..len];
  }

  /** Characters of a well-shaped name: label characters and inner dots only. */
  lemma {:induction false} ShapeCharacters(s: bytes)
    requires AllValid(Split(s, DOT))
    ensures s != [] && StartsLabel(s[0]) && InLabel(s[|s| - 1])
    ensures forall i :: 0 <= i < |s| ==> s[i] == DOT || InLabel(s[i])
    decreases |s|
  {
    FirstLabel(s);
    var n := IndexOf(s, DOT);
    var head := s[..n];
    assert head[0] == s[0];
    if n < |s| {
      var tail := s[n + 1..];
      ShapeCharacters(tail);
      forall i | 0 <= i < |s| ensures s[i] == DOT || InLabel(s[i]) {
        if i < n {
          assert s[i] == head[i];
        } else if i > n {
          assert s[i] == tail[i - n - 1];
        }
      }
      assert tail[|tail| - 1] == s[|s| - 1];
    } else {
      assert head == s;
    }
  }

  lemma StripKeeps(d: bytes)
    requires d != [] && !IsSpace(d[0]) && d[0] != STAR && !IsSpace(d[|d| - 1]) && d[|d| - 1] != DOT
    ensures Strip(d) == d
  {
    assert TrimStart(d) == d && TrimEnd(d) == d;
  }

  lemma DomainNotRejected(d: bytes)
    requires IsDomain(d)
    ensures !Rejected(d) && Lower(d) == d
  {
    ShapeCharacters(d);
    forall i | 0 <= i < |d| ensures d[i] < 0x80 {
      assert d[i] == DOT || InLabel(d[i]);
    }
    assert Lower(d) == d;
  }

  /** An emitted domain is already normal: every later normalisation returns it unchanged. */
  lemma DomainIsFixedPoint(d: bytes, outSize: nat)
    requires IsDomain(d) && |d| < outSize
    ensures Normalized(d, outSize) == d
  {
    ShapeCharacters(d);
    StripKeeps(d);
    DomainNotRejected(d);
  }

  /** Normalisation yields [] or a domain; so the fixed points are exactly the domains, and it is idempotent. */
  lemma NormalizedIsDomain(token: bytes, outSize: nat)
    ensures var d := Normalized(token, outSize);
            && (d == [] || (IsDomain(d) && |d| < outSize))
            && Normalized(d, outSize) == d
  {
    var d := Normalized(token, outSize);
    if d != [] {
      DomainIsFixedPoint(d, outSize);
    } else {
      assert Strip([]) == [];
    }
  }

  // ---- what normalisation means -------------------------------------------------------------------

  /** The same byte, or the two cases of one ASCII letter. */
  predicate SameLetter(a: byte, b: byte) {
    a == b || (65 <= a <= 90 && b == a + 32) || (65 <= b <= 90 && a == b + 32)
  }

  predicate CaseVariant(s: bytes, t: bytes) { |s| == |t| && forall i :: 0 <= i < |s| ==> SameLetter(s[i], t[i]) }

  /** Lowering merges exactly the strings that differ in letter case only. */
  lemma LowerMerges(s: bytes, t: bytes)
    ensures Lower(s) == Lower(t) <==> CaseVariant(s, t)
  {
    if CaseVariant(s, t) {
      assert Lower(s) == Lower(t);
    }
  }

  /** And it yields the one of them without capital letters. */
  lemma LowerIs(s: bytes, t: bytes)
    ensures t == Lower(s) <==> CaseVariant(s, t) && forall i :: 0 <= i < |t| ==> !(65 <= t[i] <= 90)
  {
    if CaseVariant(s, t) && forall i :: 0 <= i < |t| ==> !(65 <= t[i] <= 90) {
      assert t == Lower(s);
    }
  }

  ghost predicate Blank(s: bytes) { forall i :: 0 <= i < |s| ==> IsSpace(s[i]) }

  lemma {:induction false} TrimPadding(lead: bytes, core: bytes, trail: bytes)
    requires Blank(lead) && Blank(trail)
    requires core != [] && !IsSpace(core[0]) && !IsSpace(core[|core| - 1])
    ensures Trim(lead + core + trail) == core
    decreases |lead| + |trail|
  {
    var s := lead + core + trail;
    if lead != [] {
      assert s[1..] == lead[1..] + core + trail;
      TrimPadding(lead[1..], core, trail);
    } else if trail != [] {
      assert TrimStart(s) == s;
      var shorter := core + trail[..|trail| - 1];
      assert s[..|s| - 1] == shorter && TrimStart(shorter) == shorter;
      assert [] + core + trail[..|trail| - 1] == shorter;
      TrimPadding([], core, trail[..|trail| - 1]);
    } else {
      assert s == core;
    }
  }

  lemma {:induction false} TrimParts(s: bytes) returns (lead: bytes, trail: bytes)
    ensures s == lead + Trim(s) + trail && Blank(lead) && Blank(trail)
    decreases |s|
  {
    if s != [] && IsSpace(s[0]) {
      lead, trail := TrimParts(s[1..]);
      assert s == [s[0]] + s[1..];
      lead := [s[0]] + lead;
    } else if s != [] && IsSpace(s[|s| - 1]) {
      var init := s[..|s| - 1];
      lead, trail := TrimParts(init);
      assert TrimStart(s) == s && TrimStart(init) == init;
      assert s == init + [s[|s| - 1]];
      trail := trail + [s[|s| - 1]];
    } else {
      lead, trail := [], [];
    }
  }

  /** A way of writing d: white space around, at most one "*." before and one "." behind, any letter case. */
  ghost predicate Spells(token: bytes, d: bytes, lead: bytes, star: bytes, v: bytes, dot: bytes, trail: bytes) {
    && token == lead + (star + v + dot) + trail && Blank(lead) && Blank(trail)
    && (star == [] || star == [42, 46]) && (dot == [] || dot == [46]) && CaseVariant(v, d)
  }

  lemma StripSpelling(token: bytes, d: bytes, lead: bytes, star: bytes, v: bytes, dot: bytes, trail: bytes)
    requires Spells(token, d, lead, star, v, dot, trail)
    requires d != [] && StartsLabel(d[0]) && InLabel(d[|d| - 1])
    ensures Strip(token) == v
  {
    assert SameLetter(v[0], d[0]) && SameLetter(v[|v| - 1], d[|d| - 1]);
    assert StartsLabel(v[0]) && InLabel(v[|v| - 1]);
    var core := star + v + dot;
    assert core[|core| - 1] == if dot == [] then v[|v| - 1] else DOT;
    assert core[0] == if star == [] then v[0] else STAR;
    TrimPadding(lead, core, trail);
    hide Trim, Blank;
    assert DropDot(core) == star + v;
    assert DropStar(star + v) == v;
  }

  lemma StripIsSpelling(token: bytes) returns (lead: bytes, star: bytes, dot: bytes, trail: bytes)
    ensures token == lead + (star + Strip(token) + dot) + trail && Blank(lead) && Blank(trail)
    ensures (star == [] || star == [42, 46]) && (dot == [] || dot == [46])
  {
    lead, trail := TrimParts(token);
    hide Trim, Blank;
    var t := Trim(token);
    dot := if DropDot(t) == t then [] else [46];
    assert t == DropDot(t) + dot;
    star := if DropStar(DropDot(t)) == DropDot(t) then [] else [42, 46];
    assert DropDot(t) == star + Strip(token);
  }

  /** A token stands for a domain if and only if it is one of those ways of writing that domain. */
  lemma NormalizedExactly(token: bytes, d: bytes)
    requires IsDomain(d)
    ensures Normalized(token, 256) == d <==>
              exists lead, star, v, dot, trail :: Spells(token, d, lead, star, v, dot, trail)
  {
    ShapeCharacters(d);
    DomainNotRejected(d);
    hide ValidShape, Ipv4Shape, IgnoredHost, Rejected;
    if Normalized(token, 256) == d {
      var v := Strip(token);
      var lead, star, dot, trail := StripIsSpelling(token);
      LowerIs(v, d);
      assert Spells(token, d, lead, star, v, dot, trail);
    }
    forall lead, star, v, dot, trail | Spells(token, d, lead, star, v, dot, trail) ensures Normalized(token, 256) == d {
      StripSpelling(token, d, lead, star, v, dot, trail);
      LowerMerges(v, d);
    }
  }

  /** In particular every letter-case variant of a domain, bare or with "*." and "." around it. */
  lemma AnyCase(d: bytes, v: bytes)
    requires IsDomain(d) && CaseVariant(v, d)
    ensures Normalized(v, 256) == d && Normalized([42, 46] + v + [46], 256) == d
  {
    hide IsDomain, CaseVariant, Normalized;
    assert Blank([]);
    assert v == [] + ([] + v + []) + [];
    assert Spells(v, d, [], [], v, [], []);
    NormalizedExactly(v, d);
    var w := [42, 46] + v + [46];
    assert w == [] + ([42, 46] + v + [46]) + [];
    assert Spells(w, d, [], [42, 46], v, [46], []);
    NormalizedExactly(w, d);
  }

  /** The one ignored host that has the shape of a domain. */
  lemma LocalDomainIgnored(token: bytes)
    ensures Normalized(token, 256) != Ascii("localhost.localdomain")
  {
    hide ValidShape, Ipv4Shape, Strip, Ascii;
    NormalizedIsDomain(token, 256);
    assert IGNORED_HOSTS[1] == Ascii("localhost.localdomain");
  }
}
