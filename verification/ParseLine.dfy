/** One classifier for the three source shapes: hosts files, bare domains, and "||domain^". */
module ParseLine {
  import opened Bytes
  import opened Text
  import opened Normalize

  const MAX_LINE: nat := 2048
  const MAX_TOKENS: nat := 64
  const OUT_SIZE: nat := 256

  const HASH: byte := '#' as int
  const BANG: byte := '!' as int
  const BRACKET: byte := '[' as int
  const AT: byte := '@' as int
  const BAR: byte := '|' as int
  const CARET: byte := '^' as int
  const COLON: byte := ':' as int

  predicate AbpModifier(c: byte) {
    c == '/' as int || c == CARET || c == STAR || c == '$' as int || c == BAR
  }

  // ---- what a line means -----------------------------------------------------------------------

  /** Length of the leading run of non-space bytes. */
  function RunLength(s: bytes): (n: nat)
    ensures n <= |s|
    ensures forall k :: 0 <= k < n ==> !IsSpace(s[k])
    ensures n < |s| ==> IsSpace(s[n])
  {
    if s == [] || IsSpace(s[0]) then 0 else 1 + RunLength(s[1..])
  }

  lemma RunLengthUnique(s: bytes, n: nat)
    requires n <= |s| && (forall k :: 0 <= k < n ==> !IsSpace(s[k])) && (n < |s| ==> IsSpace(s[n]))
    ensures RunLength(s) == n
  {
    var m := RunLength(s);
    assert m < |s| ==> IsSpace(s[m]);
  }

  /** The maximal runs of non-space bytes, in order. */
  function Fields(s: bytes): (f: seq<bytes>)
    decreases |s|
  {
    if s == [] then []
    else if IsSpace(s[0]) then Fields(s[1..])
    else [s[..RunLength(s)]] + Fields(s[RunLength(s)..])
  }

  function Take(ts: seq<bytes>, n: nat): seq<bytes> { if |ts| <= n then ts else ts[..n] }

  function EmitToken(token: bytes): seq<bytes> {
    var d := Normalized(token, OUT_SIZE);
    if d == [] then [] else [d]
  }

  function EmitTokens(ts: seq<bytes>): seq<bytes> { FlatMap(EmitToken, ts) }

  /** A first token that is an address makes the line a hosts entry. */
  predicate IsAddress(token: bytes) { Ipv4Shape(token) || COLON in token }

  function HostsOrPlain(ts: seq<bytes>): seq<bytes> {
    if ts != [] && IsAddress(ts[0]) then EmitTokens(ts[1..]) else EmitTokens(ts)
  }

  /** Adblock syntax: only an exact "||domain^" emits. */
  function AbpEntry(t: bytes): seq<bytes>
    requires |t| >= 2
  {
    if t[|t| - 1] != CARET || |t| < 3 then [] else
    var body := t[2..|t| - 1];
    if exists i :: 0 <= i < |body| && AbpModifier(body[i]) then [] else EmitToken(body)
  }

  predicate NeverBlocks(t: bytes)
    requires t != []
  {
    t[0] == BANG || t[0] == BRACKET || (|t| >= 2 && t[0] == AT && t[1] == AT)
  }

  function EmittedByTrimmed(t: bytes): seq<bytes> {
    if t == [] || NeverBlocks(t) then []
    else if |t| >= 2 && t[0] == BAR && t[1] == BAR then AbpEntry(t)
    else HostsOrPlain(Take(Fields(t), MAX_TOKENS))
  }

  /** The domains one source line contributes, in order. */
  function Emitted(line: bytes): seq<bytes> {
    if |line| > MAX_LINE then [] else EmittedByTrimmed(Trim(line[..IndexOf(line, HASH)]))
  }

  // ---- the parser --------------------------------------------------------------------------------

  method SkipSpaces(line: bytes, from: nat) returns (i: nat)
    requires from <= |line|
    ensures from <= i <= |line| && (i < |line| ==> !IsSpace(line[i]))
    ensures Fields(line[i..]) == Fields(line[from..])
  {
    i := from;
    while i < |line| && IsSpace(line[i])
      invariant from <= i <= |line|
      invariant Fields(line[i..]) == Fields(line[from..])
    {
      assert line[i..][1..] == line[i + 1..];
      i := i + 1;
    }
  }

  method SkipToken(line: bytes, from: nat) returns (i: nat)
    requires from < |line| && !IsSpace(line[from])
    ensures from < i <= |line|
    ensures Fields(line[from..]) == [line[from..i]] + Fields(line[i..])
  {
    i := from;
    while i < |line| && !IsSpace(line[i])
      invariant from <= i <= |line|
      invariant forall k :: from <= k < i ==> !IsSpace(line[k])
    {
      i := i + 1;
    }
    ghost var tail := line[from..];
    RunLengthUnique(tail, i - from);
    assert tail[..i - from] == line[from..i] && tail[i - from..] == line[i..];
  }

  lemma NoFields()
    ensures Fields([]) == []
  {
  }

  lemma Associate(a: seq<bytes>, x: bytes, b: seq<bytes>)
    ensures a + ([x] + b) == a + [x] + b
  {
  }

  method Tokenize(line: bytes) returns (tokens: seq<bytes>)
    ensures tokens == Take(Fields(line), MAX_TOKENS)
  {
    hide Fields, IsSpace;
    tokens := [];
    var i := 0;
    ghost var all, rest := Fields(line), Fields(line);
    assert line[0..] == line;
    NoFields();
    while i < |line| && |tokens| < MAX_TOKENS
      invariant i <= |line| && |tokens| <= MAX_TOKENS
      invariant all == tokens + rest && rest == Fields(line[i..])
      decreases |line| - i
    {
      i := SkipSpaces(line, i);
      if i >= |line| {
        break;
      }
      var start := i;
      i := SkipToken(line, start);
      rest := Fields(line[i..]);
      Associate(tokens, line[start..i], rest);
      tokens := tokens + [line[start..i]];
    }
    if i == |line| {
      assert line[i..] == [];
    } else {
      assert all[..|tokens|] == tokens;
    }
  }

  /** normalize_domain, then the sink when something is left. */
  method Emit(token: bytes) returns (emitted: seq<bytes>)
    ensures emitted == EmitToken(token)
  {
    var out := NormalizeDomain(token, OUT_SIZE);
    return if |out| > 0 then [out] else [];
  }

  lemma EmitNothing()
    ensures EmitTokens([]) == []
  {
  }

  lemma EmitOneMore(ts: seq<bytes>, k: nat)
    requires k < |ts|
    ensures EmitTokens(ts[..k + 1]) == EmitTokens(ts[..k]) + EmitToken(ts[k])
  {
    FlatMapUpTo(EmitToken, ts, k);
  }

  method EmitFrom(tokens: seq<bytes>, first: nat) returns (emitted: seq<bytes>)
    requires first <= |tokens|
    ensures emitted == EmitTokens(tokens[first..])
  {
    hide *;
    emitted := [];
    ghost var rest := tokens[first..];
    EmitNothing();
    assert rest[..0] == [];
    for k := first to |tokens|
      invariant emitted == EmitTokens(rest[..k - first])
    {
      var out := Emit(tokens[k]);
      EmitOneMore(rest, k - first);
      emitted := emitted + out;
    }
    assert rest[..|rest|] == rest;
  }

  method ParseAbp(line: bytes) returns (emitted: seq<bytes>)
    requires |line| >= 2 && line[0] == BAR && line[1] == BAR
    ensures emitted == AbpEntry(line)
  {
    if line[|line| - 1] != CARET {
      return [];
    }
    var body := line[2..|line| - 1];
    for i := 0 to |body|
      invariant forall k :: 0 <= k < i ==> !AbpModifier(body[k])
    {
      if AbpModifier(body[i]) {
        return [];
      }
    }
    emitted := Emit(body);
  }

  method FirstName(tokens: seq<bytes>) returns (first: nat)
    ensures first <= |tokens|
    ensures first == if tokens != [] && IsAddress(tokens[0]) then 1 else 0
  {
    first := 0;
    if |tokens| > 0 {
      var t0 := tokens[0];
      var hasColon := false;
      for k := 0 to |t0|
        invariant hasColon <==> COLON in t0[..k]
      {
        if t0[k] == COLON {
          hasColon := true;
        }
      }
      assert t0[..|t0|] == t0;
      var ipv4 := ScanIpv4(t0);
      if ipv4 || hasColon {
        first := 1;
      }
    }
  }

  method ParseTrimmed(line: bytes) returns (emitted: seq<bytes>)
    ensures emitted == EmittedByTrimmed(line)
  {
    var len := |line|;
    if len == 0 {
      return [];
    }
    if line[0] == BANG || line[0] == BRACKET || (len >= 2 && line[0] == AT && line[1] == AT) {
      return [];
    }
    if len >= 2 && line[0] == BAR && line[1] == BAR {
      emitted := ParseAbp(line);
      return;
    }
    var tokens := Tokenize(line);
    var first := FirstName(tokens);
    emitted := EmitFrom(tokens, first);
    assert tokens[0..] == tokens;
  }

  /** Returns the domains handed to the sink, in the order of the calls. */
  method Parse(lineIn: bytes) returns (emitted: seq<bytes>)
    ensures emitted == Emitted(lineIn)
  {
    if |lineIn| > MAX_LINE {
      return [];
    }
    var buf := lineIn[..IndexOf(lineIn, HASH)];
    var start, end := TrimRange(buf);
    emitted := ParseTrimmed(buf[start..end]);
  }

  // ---- what the three shapes promise ---------------------------------------------------------

  ghost predicate FixedPoint(d: bytes) { IsDomain(d) && Normalized(d, OUT_SIZE) == d }

  lemma EmitTokenFixed(token: bytes)
    ensures forall d :: d in EmitToken(token) ==> FixedPoint(d)
  {
    NormalizedIsDomain(token, OUT_SIZE);
  }

  lemma EmitTokensFixed(ts: seq<bytes>)
    ensures forall d :: d in EmitTokens(ts) ==> FixedPoint(d)
  {
    forall d | d in EmitTokens(ts) ensures FixedPoint(d) {
      FlatMapMember(EmitToken, ts, d);
      var t :| t in ts && d in EmitToken(t);
      EmitTokenFixed(t);
    }
  }

  lemma TrimmedFixed(t: bytes)
    ensures forall d :: d in EmittedByTrimmed(t) ==> FixedPoint(d)
  {
    if |t| >= 3 { EmitTokenFixed(t[2..|t| - 1]); }
    var ts := Take(Fields(t), MAX_TOKENS);
    EmitTokensFixed(ts);
    if ts != [] { EmitTokensFixed(ts[1..]); }
  }

  /** Whatever the line, only domains come out: lower case, at most 253 bytes, never an address or ignored host. */
  lemma EmittedAreDomains(line: bytes)
    ensures forall d :: d in Emitted(line) ==> IsDomain(d) && Normalized(d, OUT_SIZE) == d
  {
    TrimmedFixed(Trim(line[..IndexOf(line, HASH)]));
  }

  /** A padded, commented line means what its core means. */
  lemma PaddedLine(lead: bytes, core: bytes, trail: bytes, comment: bytes)
    requires Blank(lead) && Blank(trail) && HASH !in core
    requires core != [] && !IsSpace(core[0]) && !IsSpace(core[|core| - 1])
    requires comment == [] || comment[0] == HASH
    requires |lead + core + trail + comment| <= MAX_LINE
    ensures Emitted(lead + core + trail + comment) == EmittedByTrimmed(core)
  {
    var line := lead + core + trail + comment;
    var n := |lead + core + trail|;
    assert line[..n] == lead + core + trail;
    assert forall k :: 0 <= k < n ==> (lead + core + trail)[k] != HASH;
    assert forall k :: 0 <= k < n ==> line[k] == (lead + core + trail)[k];
    assert n < |line| ==> line[n] == comment[0];
    IndexOfUnique(line, HASH, n);
    TrimPadding(lead, core, trail);
  }

  lemma EmitDomain(d: bytes)
    requires IsDomain(d)
    ensures EmitToken(d) == [d]
  {
    DomainIsFixedPoint(d, OUT_SIZE);
  }

  lemma SpaceFree(d: bytes)
    requires ValidShape(d)
    ensures d != [] && forall i :: 0 <= i < |d| ==> d[i] == DOT || InLabel(d[i])
    ensures !IsSpace(d[0]) && !IsSpace(d[|d| - 1]) && StartsLabel(d[0])
    ensures HASH !in d && forall i :: 0 <= i < |d| ==> !IsSpace(d[i]) && !AbpModifier(d[i])
    ensures COLON !in d
  {
    ShapeCharacters(d);
    forall i | 0 <= i < |d| ensures !IsSpace(d[i]) && !AbpModifier(d[i]) && d[i] != HASH && d[i] != COLON {
      assert d[i] == DOT || InLabel(d[i]);
    }
  }

  /** A bare domain per line. */
  lemma PlainLine(lead: bytes, d: bytes, trail: bytes, comment: bytes)
    requires IsDomain(d) && Blank(lead) && Blank(trail) && (comment == [] || comment[0] == HASH)
    requires |lead + d + trail + comment| <= MAX_LINE
    ensures Emitted(lead + d + trail + comment) == [d]
  {
    SpaceFree(d);
    PaddedLine(lead, d, trail, comment);
    EmitDomains([d]);
    PlainCore(d);
  }

  lemma PlainCore(d: bytes)
    requires d != [] && StartsLabel(d[0]) && COLON !in d && !Ipv4Shape(d)
    requires forall i :: 0 <= i < |d| ==> !IsSpace(d[i])
    ensures EmittedByTrimmed(d) == EmitTokens([d])
  {
    FieldsOfWord(d);
    hide Fields, IsSpace, EmitTokens, Ipv4Shape, AbpEntry;
  }

  lemma FieldsOfWord(d: bytes)
    requires d != [] && forall i :: 0 <= i < |d| ==> !IsSpace(d[i])
    ensures Fields(d) == [d]
  {
    RunLengthUnique(d, |d|);
    assert d[..|d|] == d && d[|d|..] == [];
  }

  /** The exact Adblock form. */
  lemma AbpLine(lead: bytes, d: bytes, trail: bytes, comment: bytes)
    requires IsDomain(d) && Blank(lead) && Blank(trail) && (comment == [] || comment[0] == HASH)
    requires |lead + ([BAR, BAR] + d + [CARET]) + trail + comment| <= MAX_LINE
    ensures Emitted(lead + ([BAR, BAR] + d + [CARET]) + trail + comment) == [d]
  {
    SpaceFree(d);
    var core := [BAR, BAR] + d + [CARET];
    PaddedLine(lead, core, trail, comment);
    EmitDomain(d);
    AbpCore(d);
  }

  lemma AbpCore(d: bytes)
    requires d != [] && forall i :: 0 <= i < |d| ==> !AbpModifier(d[i])
    ensures EmittedByTrimmed([BAR, BAR] + d + [CARET]) == EmitToken(d)
  {
    var core := [BAR, BAR] + d + [CARET];
    assert core[2..|core| - 1] == d;
  }

  // ---- lines that emit nothing ---------------------------------------------------------------

  lemma {:induction false} TrimEndKeeps(s: bytes, k: nat)
    requires k < |s| && !IsSpace(s[k])
    ensures k < |TrimEnd(s)| && TrimEnd(s) <= s
  {
    if k < |s| - 1 && IsSpace(s[|s| - 1]) {
      TrimEndKeeps(s[..|s| - 1], k);
    }
  }

  lemma {:induction false} TrimStartSkips(lead: bytes, rest: bytes)
    requires Blank(lead) && rest != [] && !IsSpace(rest[0])
    ensures TrimStart(lead + rest) == rest
  {
    if lead == [] {
      assert lead + rest == rest;
    } else {
      assert (lead + rest)[1..] == lead[1..] + rest;
      TrimStartSkips(lead[1..], rest);
    }
  }

  /** What follows the leading white space decides how the trimmed line starts, comment or not. */
  lemma TrimmedStart(lead: bytes, rest: bytes, k: nat)
    requires Blank(lead) && k < |rest| && forall i :: 0 <= i <= k ==> rest[i] != HASH && !IsSpace(rest[i])
    ensures var line := lead + rest;
            var t := Trim(line[..IndexOf(line, HASH)]);
            k < |t| && t[..k + 1] == rest[..k + 1]
  {
    var line, n := lead + rest, IndexOf(rest, HASH);
    assert k < n by { assert n < |rest| ==> rest[n] == HASH; }
    IndexOfUnique(line, HASH, |lead| + n);
    var cut := rest[..n];
    assert line[..|lead| + n] == lead + cut;
    TrimStartSkips(lead, cut);
    TrimEndKeeps(cut, k);
    assert cut[..k + 1] == rest[..k + 1];
  }

  /** Lines that start with '!', '[' or "@@" emit nothing, whatever follows; nor do lines over 2048 bytes. */
  lemma NoticesEmitNothing(lead: bytes, rest: bytes)
    requires Blank(lead) && rest != []
    requires rest[0] == 33 || rest[0] == 91 || (|rest| > 1 && rest[0] == rest[1] == 64) || |lead + rest| > 2048
    ensures Emitted(lead + rest) == []
  {
    if |lead + rest| <= 2048 {
      var k := if rest[0] == 64 then 1 else 0;
      TrimmedStart(lead, rest, k);
      hide Trim, IsSpace, AbpEntry, HostsOrPlain;
      var t := Trim((lead + rest)[..IndexOf(lead + rest, HASH)]);
      assert t[..k + 1][0] == rest[..k + 1][0] && t[..k + 1][k] == rest[..k + 1][k];
    }
  }

  /** Nor do blank lines and comments. */
  lemma BlankEmitsNothing(lead: bytes, comment: bytes)
    requires Blank(lead) && (comment == [] || comment[0] == 35)
    ensures Emitted(lead + comment) == []
  {
    IndexOfUnique(lead + comment, HASH, |lead|);
    assert (lead + comment)[..|lead|] == lead;
    BlankTrims(lead);
  }

  lemma {:induction false} BlankTrims(s: bytes)
    requires Blank(s)
    ensures TrimStart(s) == [] && Trim(s) == []
  {
    if s != [] {
      BlankTrims(s[1..]);
    }
  }

  /** '/', '^', '*', '$' and '|'. */
  const RULE_BYTES: seq<byte> := [47, 94, 42, 36, 124]

  /** Adblock rules other than the exact form: without the final '^', or with '/', '^', '*', '$' or '|' inside. */
  lemma AbpRulesEmitNothing(lead: bytes, rule: bytes, trail: bytes, comment: bytes)
    requires |rule| >= 2 && rule[0] == rule[1] == 124 && HASH !in rule && !IsSpace(rule[|rule| - 1])
    requires Blank(lead) && Blank(trail) && (comment == [] || comment[0] == HASH)
    requires rule[|rule| - 1] != 94
             || exists i :: 2 <= i < |rule| - 1 && rule[i] in RULE_BYTES
    requires |lead + rule + trail + comment| <= MAX_LINE
    ensures Emitted(lead + rule + trail + comment) == []
  {
    PaddedLine(lead, rule, trail, comment);
    if rule[|rule| - 1] == 94 {
      var i :| 2 <= i < |rule| - 1 && rule[i] in RULE_BYTES;
      assert AbpModifier(rule[2..|rule| - 1][i - 2]);
    }
  }

  /** A word: what a line without a comment is made of between its spaces. */
  ghost predicate Word(w: bytes) { w != [] && HASH !in w && forall k :: 0 <= k < |w| ==> !IsSpace(w[k]) }

  ghost predicate Words(ts: seq<bytes>) { forall i :: 0 <= i < |ts| ==> Word(ts[i]) }

  ghost predicate Gaps(gaps: seq<bytes>) { forall i :: 0 <= i < |gaps| ==> gaps[i] != [] && Blank(gaps[i]) }

  /** The words with gaps between them. */
  function Spaced(ts: seq<bytes>, gaps: seq<bytes>): bytes
    requires |ts| >= 1 && |gaps| == |ts| - 1
  {
    if |ts| == 1 then ts[0] else ts[0] + gaps[0] + Spaced(ts[1..], gaps[1..])
  }

  lemma SpacedCons(ts: seq<bytes>, gaps: seq<bytes>)
    requires |ts| > 1 && |gaps| == |ts| - 1 && Words(ts) && Gaps(gaps)
    ensures Spaced(ts, gaps) == ts[0] + gaps[0] + Spaced(ts[1..], gaps[1..])
    ensures Word(ts[0]) && gaps[0] != [] && Blank(gaps[0]) && Words(ts[1..]) && Gaps(gaps[1..])
  {
  }

  lemma {:induction false} FieldsSkip(gap: bytes, rest: bytes)
    requires Blank(gap)
    ensures Fields(gap + rest) == Fields(rest)
  {
    if gap == [] {
      assert gap + rest == rest;
    } else {
      assert (gap + rest)[1..] == gap[1..] + rest;
      FieldsSkip(gap[1..], rest);
    }
  }

  lemma FieldsCons(word: bytes, gap: bytes, rest: bytes)
    requires Word(word) && Blank(gap) && gap != []
    ensures Fields(word + gap + rest) == [word] + Fields(rest)
  {
    var s, n := word + gap + rest, |word|;
    RunLengthUnique(s, n);
    FieldsSkip(gap, rest);
    assert s[..n] == word && s[n..] == gap + rest;
    assert !IsSpace(s[0]);
  }

  lemma {:induction false} FieldsOfSpaced(ts: seq<bytes>, gaps: seq<bytes>)
    requires |ts| >= 1 && |gaps| == |ts| - 1 && Words(ts) && Gaps(gaps)
    ensures Fields(Spaced(ts, gaps)) == ts
    decreases |ts|
  {
    if |ts| == 1 {
      assert Word(ts[0]);
      FieldsOfWord(ts[0]);
    } else {
      SpacedCons(ts, gaps);
      FieldsOfSpaced(ts[1..], gaps[1..]);
      FieldsCons(ts[0], gaps[0], Spaced(ts[1..], gaps[1..]));
      hide Fields, Spaced;
      assert ts == [ts[0]] + ts[1..];
    }
  }

  /** The text starts with the first word, and its last byte is no space. */
  lemma {:induction false} SpacedEnds(ts: seq<bytes>, gaps: seq<bytes>)
    requires |ts| >= 1 && |gaps| == |ts| - 1 && Words(ts) && Gaps(gaps)
    ensures var s := Spaced(ts, gaps);
            && HASH !in s && ts[0] <= s && s != [] && !IsSpace(s[0]) && !IsSpace(s[|s| - 1])
            && (|s| > |ts[0]| ==> IsSpace(s[|ts[0]|]))
    decreases |ts|
  {
    assert Word(ts[0]);
    if |ts| > 1 {
      SpacedCons(ts, gaps);
      SpacedEnds(ts[1..], gaps[1..]);
      hide Spaced;
      var s, rest := Spaced(ts, gaps), Spaced(ts[1..], gaps[1..]);
      assert forall k :: 0 <= k < |gaps[0]| ==> gaps[0][k] != HASH;
      assert s[|s| - 1] == rest[|rest| - 1] && s[|ts[0]|] == gaps[0][0];
    }
  }

  lemma {:induction false} FlatMapSingles(f: bytes -> seq<bytes>, ts: seq<bytes>)
    requires forall i :: 0 <= i < |ts| ==> f(ts[i]) == [ts[i]]
    ensures FlatMap(f, ts) == ts
  {
    if ts != [] {
      FlatMapSingles(f, ts[..|ts| - 1]);
    }
  }

  lemma EmitDomains(ds: seq<bytes>)
    requires forall i :: 0 <= i < |ds| ==> IsDomain(ds[i])
    ensures EmitTokens(ds) == ds
  {
    forall i | 0 <= i < |ds| ensures EmitToken(ds[i]) == [ds[i]] {
      EmitDomain(ds[i]);
    }
    FlatMapSingles(EmitToken, ds);
  }

  /** The first word of a hosts line: an address, not the start of anything Adblock. */
  predicate HostsStart(address: bytes) {
    && address != [] && (Ipv4Shape(address) || 58 in address) && address[0] != 33 && address[0] != 91
    && !(|address| >= 2 && address[0] == address[1] == 64) && !(|address| >= 2 && address[0] == address[1] == 124)
  }

  lemma Ipv4Starts(ip: bytes)
    requires Ipv4Shape(ip)
    ensures Word(ip) && HostsStart(ip)
  {
    AddressCharacters(ip);
  }

  lemma DomainWord(d: bytes)
    requires IsDomain(d)
    ensures Word(d)
  {
    SpaceFree(d);
  }

  /** A line whose first word is an address, whatever the spacing, means the words after it, 63 at most. */
  lemma HostsCore(address: bytes, names: seq<bytes>, gaps: seq<bytes>)
    requires Word(address) && HostsStart(address) && Words(names) && |gaps| == |names| && Gaps(gaps)
    ensures EmittedByTrimmed(Spaced([address] + names, gaps)) == EmitTokens(Take(names, MAX_TOKENS - 1))
  {
    var ts := [address] + names;
    assert Words(ts);
    FieldsOfSpaced(ts, gaps);
    SpacedEnds(ts, gaps);
    hide Fields, Spaced, EmitTokens, Ipv4Shape, AbpEntry, Words;
    var core := Spaced(ts, gaps);
    assert core[0] == address[0] && (|address| >= 2 ==> core[1] == address[1]);
    assert Take(ts, MAX_TOKENS)[1..] == Take(names, MAX_TOKENS - 1);
  }

  /** A hosts line emits exactly the domains after the address: the first 63 of them. */
  lemma HostsLine(lead: bytes, address: bytes, names: seq<bytes>, gaps: seq<bytes>, trail: bytes, comment: bytes)
    requires Word(address) && HostsStart(address) && Words(names) && |gaps| == |names| && Gaps(gaps)
    requires Blank(lead) && Blank(trail) && (comment == [] || comment[0] == HASH)
    requires |lead + Spaced([address] + names, gaps) + trail + comment| <= MAX_LINE
    ensures var emitted := Emitted(lead + Spaced([address] + names, gaps) + trail + comment);
            && emitted == EmitTokens(Take(names, MAX_TOKENS - 1))
            && ((forall i :: 0 <= i < |names| ==> IsDomain(names[i])) ==> emitted == Take(names, MAX_TOKENS - 1))
  {
    var ts := [address] + names;
    assert Words(ts);
    SpacedEnds(ts, gaps);
    HostsCore(address, names, gaps);
    hide Emitted, EmittedByTrimmed, Spaced, EmitTokens, Words, Word, IsDomain;
    PaddedLine(lead, Spaced(ts, gaps), trail, comment);
    var kept := Take(names, MAX_TOKENS - 1);
    if forall i :: 0 <= i < |names| ==> IsDomain(names[i]) {
      assert forall i :: 0 <= i < |kept| ==> kept[i] == names[i];
      EmitDomains(kept);
    }
  }

  /** The usual hosts file entry: an IPv4 address and domains, with any white space, emits those domains. */
  lemma HostsFileEntry(lead: bytes, ip: bytes, ds: seq<bytes>, gaps: seq<bytes>, trail: bytes, comment: bytes)
    requires Ipv4Shape(ip) && (forall i :: 0 <= i < |ds| ==> IsDomain(ds[i])) && |ds| < MAX_TOKENS
    requires |gaps| == |ds| && Gaps(gaps) && Blank(lead) && Blank(trail) && (comment == [] || comment[0] == HASH)
    requires |lead + Spaced([ip] + ds, gaps) + trail + comment| <= MAX_LINE
    ensures Emitted(lead + Spaced([ip] + ds, gaps) + trail + comment) == ds
  {
    Ipv4Starts(ip);
    forall i | 0 <= i < |ds| ensures Word(ds[i]) {
      DomainWord(ds[i]);
    }
    hide Emitted, Spaced, IsDomain, Ipv4Shape, Word, HostsStart;
    HostsLine(lead, ip, ds, gaps, trail, comment);
  }

  /** Domains on one line, without an address in front: the first 64 of them. */
  lemma DomainsLine(lead: bytes, ds: seq<bytes>, gaps: seq<bytes>, trail: bytes, comment: bytes)
    requires |ds| >= 1 && |gaps| == |ds| - 1 && Gaps(gaps) && forall i :: 0 <= i < |ds| ==> IsDomain(ds[i])
    requires Blank(lead) && Blank(trail) && (comment == [] || comment[0] == HASH)
    requires |lead + Spaced(ds, gaps) + trail + comment| <= MAX_LINE
    ensures Emitted(lead + Spaced(ds, gaps) + trail + comment) == if |ds| <= 64 then ds else ds[..64]
  {
    forall i | 0 <= i < |ds| ensures Word(ds[i]) {
      DomainWord(ds[i]);
    }
    SpaceFree(ds[0]);
    var kept := Take(ds, MAX_TOKENS);
    assert forall i :: 0 <= i < |kept| ==> kept[i] == ds[i];
    hide *;
    DomainsCore(ds, gaps);
    SpacedEnds(ds, gaps);
    PaddedLine(lead, Spaced(ds, gaps), trail, comment);
    EmitDomains(kept);
  }

  lemma DomainsCore(ts: seq<bytes>, gaps: seq<bytes>)
    requires |ts| >= 1 && |gaps| == |ts| - 1 && Gaps(gaps) && Words(ts)
    requires StartsLabel(ts[0][0]) && !IsAddress(ts[0])
    ensures EmittedByTrimmed(Spaced(ts, gaps)) == EmitTokens(Take(ts, MAX_TOKENS))
  {
    FieldsOfSpaced(ts, gaps);
    SpacedEnds(ts, gaps);
    hide Fields, Spaced, EmitTokens, IsAddress, AbpEntry, Words;
    assert Spaced(ts, gaps)[0] == ts[0][0];
  }

  lemma {:induction false} GroupCharacters(s: bytes, k: nat)
    requires k > 0 && DigitGroups(s, k)
    ensures s != [] && forall i :: 0 <= i < |s| ==> s[i] == DOT || IsDigit(s[i])
    ensures IsDigit(s[0])
    decreases k
  {
    var n := IndexOf(s, DOT);
    var gs := Split(s, DOT);
    assert DigitGroup(gs[0]) && gs[0] == s[..n];
    assert gs[0][0] == s[0];
    if n < |s| {
      var tail := s[n + 1..];
      assert gs[1..] == Split(tail, DOT);
      assert forall j :: 0 <= j < |gs| - 1 ==> gs[1..][j] == gs[j + 1];
      GroupCharacters(tail, k - 1);
      forall i | 0 <= i < |s| ensures s[i] == DOT || IsDigit(s[i]) {
        if i < n {
          assert s[i] == gs[0][i];
        } else if i > n {
          assert s[i] == tail[i - n - 1];
        }
      }
    } else {
      assert forall i :: 0 <= i < |s| ==> s[i] == gs[0][i];
    }
  }

  lemma AddressCharacters(ip: bytes)
    requires Ipv4Shape(ip)
    ensures ip != [] && HASH !in ip && IsDigit(ip[0]) && forall k :: 0 <= k < |ip| ==> !IsSpace(ip[k])
  {
    GroupCharacters(ip, 4);
    forall k | 0 <= k < |ip| ensures ip[k] != HASH && !IsSpace(ip[k]) {
      assert ip[k] == DOT || IsDigit(ip[k]);
    }
  }
}
