/** Streaming sources into the builder: chunks to lines, lines to domains, domains to hashes. */
module Fetch {
  import opened Bytes
  import opened Text
  import opened Hash
  import opened ParseLine
  import opened Generate
  import Allow = Allowlist

  const LINE_MAX: nat := 2048
  const NEWLINE: byte := '\n' as int

  // ---- the batch meaning of a body ------------------------------------------------------------

  function KeepShort(line: bytes): seq<bytes> { if |line| <= LINE_MAX then [line] else [] }

  function ShortLines(lines: seq<bytes>): seq<bytes> { FlatMap(KeepShort, lines) }

  function Pieces(body: bytes): (p: seq<bytes>)
    ensures |p| >= 1
  {
    Split(body, NEWLINE)
  }

  /** The text after the last newline. */
  function Tail(body: bytes): bytes { Pieces(body)[|Pieces(body)| - 1] }

  /** The newline-terminated lines. */
  function Terminated(body: bytes): seq<bytes> { Pieces(body)[..|Pieces(body)| - 1] }

  predicate LastLineCounts(body: bytes) { 0 < |Tail(body)| <= LINE_MAX }

  /** Every line that reaches the parser: an unterminated last line only when it is not empty. */
  function BodyLines(body: bytes): seq<bytes> {
    if LastLineCounts(body) then ShortLines(Terminated(body)) + [Tail(body)] else ShortLines(Terminated(body))
  }

  /** What one source's HTTP exchange delivers. */
  datatype Source = Unreachable | Body(chunks: seq<bytes>, readError: bool)

  /** The lines a source contributes: after a read error, those completed before it. */
  function SourceLines(s: Source): seq<bytes> {
    match s
    case Unreachable => []
    case Body(chunks, readError) =>
      if readError then ShortLines(Terminated(Flatten(chunks))) else BodyLines(Flatten(chunks))
  }

  function AllLines(sources: seq<Source>): seq<bytes> {
    if sources == [] then [] else AllLines(sources[..|sources| - 1]) + SourceLines(sources[|sources| - 1])
  }

  // ---- which lines those are -------------------------------------------------------------------

  /** The lines of at most 2048 bytes, in order. */
  function Fitting(ls: seq<bytes>): seq<bytes> {
    if ls == [] then []
    else if |ls[|ls| - 1]| <= 2048 then Fitting(ls[..|ls| - 1]) + [ls[|ls| - 1]]
    else Fitting(ls[..|ls| - 1])
  }

  /** Of the lines that make up a body, those parsed: the last one only if the body is complete and it is not empty. */
  function Seen(ls: seq<bytes>, readError: bool): seq<bytes>
    requires |ls| >= 1
  {
    if readError || ls[|ls| - 1] == [] then Fitting(ls[..|ls| - 1]) else Fitting(ls)
  }

  lemma {:induction false} ShortLinesFit(ls: seq<bytes>)
    ensures ShortLines(ls) == Fitting(ls)
    ensures (forall l :: l in ls ==> |l| <= 2048) ==> Fitting(ls) == ls
    ensures forall l :: l in Fitting(ls) <==> l in ls && |l| <= 2048
  {
    if ls != [] {
      ShortLinesFit(ls[..|ls| - 1]);
      assert ls == ls[..|ls| - 1] + [ls[|ls| - 1]];
    }
  }

  lemma PiecesOfBody(body: bytes, ls: seq<bytes>)
    requires |ls| >= 1 && AllFree(ls, 10) && body == Join(ls, 10)
    ensures Tail(body) == ls[|ls| - 1] && Terminated(body) == ls[..|ls| - 1]
  {
    hide Split, Join, AllFree;
    SplitOfJoin(ls, NEWLINE);
    assert Pieces(body) == ls;
  }

  /** A body is its newline-free lines with newlines between them. */
  lemma LinesOfBody(body: bytes, ls: seq<bytes>)
    requires |ls| >= 1 && AllFree(ls, 10) && body == Join(ls, 10)
    ensures BodyLines(body) == Seen(ls, false) && ShortLines(Terminated(body)) == Seen(ls, true)
  {
    var init, last := ls[..|ls| - 1], ls[|ls| - 1];
    PiecesOfBody(body, ls);
    ShortLinesFit(init);
    hide ShortLines, Tail, Terminated, Join, AllFree;
    assert BodyLines(body) == if 0 < |last| <= LINE_MAX then Fitting(init) + [last] else Fitting(init);
  }

  /** And that is what a source contributes, however its body is cut into chunks. */
  lemma LinesOfSource(s: Source, ls: seq<bytes>)
    requires s.Body? && |ls| >= 1 && AllFree(ls, 10) && Flatten(s.chunks) == Join(ls, 10)
    ensures SourceLines(s) == Seen(ls, s.readError)
  {
    LinesOfBody(Flatten(s.chunks), ls);
  }

  lemma AllLinesSnoc(a: seq<Source>, s: Source)
    ensures AllLines(a + [s]) == AllLines(a) + SourceLines(s) && AllLines([]) == []
  {
    hide SourceLines;
    assert (a + [s])[..|a|] == a;
  }

  /** Sources come one after another; an unreachable one contributes nothing. */
  lemma {:induction false} AllLinesAppend(a: seq<Source>, b: seq<Source>)
    ensures AllLines(a + b) == AllLines(a) + AllLines(b)
  {
    hide *;
    if b == [] {
      AllLinesSnoc([], Unreachable);
      assert a + b == a;
    } else {
      var init, last := b[..|b| - 1], b[|b| - 1];
      AllLinesAppend(a, init);
      AllLinesSnoc(a + init, last);
      AllLinesSnoc(init, last);
      assert b == init + [last] && a + b == a + init + [last];
    }
  }

  lemma AllLinesSingle(s: Source)
    ensures AllLines([s]) == SourceLines(s) && (s.Unreachable? ==> AllLines([s]) == [])
  {
    assert [s][..0] == [] && AllLines([]) == [];
    hide BodyLines;
  }

  lemma LineOfSource(s: Source, ls: seq<bytes>, k: nat)
    requires s.Body? && !s.readError && k < |ls| && AllFree(ls, 10) && Flatten(s.chunks) == Join(ls, 10)
    requires 1 <= |ls[k]| <= 2048
    ensures ls[k] in SourceLines(s)
  {
    hide SourceLines, Flatten, Join, Fitting, AllFree;
    LinesOfSource(s, ls);
    ShortLinesFit(ls);
    ShortLinesFit(ls[..|ls| - 1]);
    assert k < |ls| - 1 ==> ls[k] == ls[..|ls| - 1][k];
  }

  /** So every non-empty line of at most 2048 bytes of a complete body is among the lines parsed. */
  lemma LineIsParsed(sources: seq<Source>, i: nat, ls: seq<bytes>, k: nat)
    requires i < |sources| && sources[i].Body? && !sources[i].readError
    requires k < |ls| && AllFree(ls, 10) && Flatten(sources[i].chunks) == Join(ls, 10)
    requires 1 <= |ls[k]| <= 2048
    ensures ls[k] in AllLines(sources)
  {
    hide *;
    LineOfSource(sources[i], ls, k);
    AllLinesSingle(sources[i]);
    AllLinesAppend(sources[..i], [sources[i]]);
    AllLinesAppend(sources[..i] + [sources[i]], sources[i + 1..]);
    assert sources == sources[..i] + [sources[i]] + sources[i + 1..];
  }

  /** The hash a domain adds, unless it is allowlisted. */
  function WantedHash(domain: bytes, allow: seq<u64>): seq<u64> {
    if DomainHash(domain) in allow then [] else [DomainHash(domain)]
  }

  function DomainHasher(allow: seq<u64>): bytes -> seq<u64> { (d: bytes) => WantedHash(d, allow) }

  function DomainHashes(domains: seq<bytes>, allow: seq<u64>): seq<u64> { FlatMap(DomainHasher(allow), domains) }

  function LineHasher(allow: seq<u64>): bytes -> seq<u64> { (l: bytes) => DomainHashes(Emitted(l), allow) }

  /** The hashes that a sequence of lines adds, in order. */
  function LineHashes(lines: seq<bytes>, allow: seq<u64>): seq<u64> { FlatMap(LineHasher(allow), lines) }

  lemma LineHashesAppend(a: seq<bytes>, b: seq<bytes>, allow: seq<u64>)
    ensures LineHashes(a + b, allow) == LineHashes(a, allow) + LineHashes(b, allow)
  {
    FlatMapAppend(LineHasher(allow), a, b);
  }

  lemma DomainHashesMember(domains: seq<bytes>, allow: seq<u64>, h: u64)
    ensures h in DomainHashes(domains, allow) <==> h !in allow && exists d :: d in domains && DomainHash(d) == h
  {
    FlatMapMember(DomainHasher(allow), domains, h);
    hide DomainHash;
    forall d ensures h in DomainHasher(allow)(d) <==> h !in allow && DomainHash(d) == h {
    }
  }

  /** Some domain of the line has this hash. */
  ghost predicate Contributes(line: bytes, h: u64) { exists d :: d in Emitted(line) && DomainHash(d) == h }

  lemma LineHasherMember(line: bytes, allow: seq<u64>, h: u64)
    ensures h in LineHasher(allow)(line) <==> h !in allow && Contributes(line, h)
  {
    DomainHashesMember(Emitted(line), allow, h);
  }

  /** Exactly the non-allowlisted domains of the lines are hashed. */
  lemma HashesOfLines(lines: seq<bytes>, allow: seq<u64>, h: u64)
    ensures h in LineHashes(lines, allow) <==> h !in allow && exists l :: l in lines && Contributes(l, h)
  {
    FlatMapMember(LineHasher(allow), lines, h);
    forall l: bytes ensures h in LineHasher(allow)(l) <==> h !in allow && Contributes(l, h) {
      LineHasherMember(l, allow, h);
    }
  }

  /** A source that lists one of the three canaries makes the self-test fail, unless it is allowlisted. */
  lemma CanaryLine(lines: seq<bytes>, line: bytes, c: bytes, allow: seq<u64>)
    requires line in lines && c in Emitted(line) && DomainHash(c) !in allow
    requires c == Ascii("esp-hole-selftest-canary.example") || c == Ascii("definitely-not-blocked.invalid")
             || c == Ascii("self-test.test")
    ensures CanaryAdded(LineHashes(lines, allow))
  {
    HashesOfLines(lines, allow, DomainHash(c));
    hide Emitted, DomainHash, LineHashes, Ascii;
    assert Contributes(line, DomainHash(c));
    assert NEGATIVE_CANARIES[0] in NEGATIVE_CANARIES && NEGATIVE_CANARIES[1] in NEGATIVE_CANARIES;
    assert NEGATIVE_CANARIES[2] in NEGATIVE_CANARIES;
  }

  // ---- the streaming side -----------------------------------------------------------------------

  /** What the assembler holds after consuming `body`: the current line, cut off at the buffer size. */
  ghost predicate Assembled(body: bytes, buffer: bytes, lineLen: nat, overflowed: bool) {
    && |buffer| == LINE_MAX
    && lineLen == Min(|Tail(body)|, LINE_MAX)
    && buffer[..lineLen] == Tail(body)[..lineLen]
    && (overflowed <==> |Tail(body)| > LINE_MAX)
  }

  lemma NextByte(body: bytes, c: byte)
    ensures c == NEWLINE ==> Tail(body + [c]) == [] && Terminated(body + [c]) == Terminated(body) + [Tail(body)]
    ensures c != NEWLINE ==> Tail(body + [c]) == Tail(body) + [c] && Terminated(body + [c]) == Terminated(body)
    ensures |Terminated(body + [c])| == |Terminated(body)| + if c == NEWLINE then 1 else 0
  {
    hide Split, Extend;
    SplitSnoc(body, NEWLINE, c);
    var p := Split(body, NEWLINE);
    ExtendEnds(p, NEWLINE, c);
    assert p == p[..|p| - 1] + [p[|p| - 1]];
  }

  lemma NoBytes()
    ensures Tail([]) == [] && Terminated([]) == [] && ShortLines([]) == []
  {
    assert Pieces([]) == [[]];
  }

  /** Turns the bytes of one response into parser calls; holds the static line buffer. */
  class LineAssembler {
    var buffer: array<byte>
    var lineLen: nat
    var overflowed: bool
    var lines: nat
    var calls: seq<bytes>   // the lines handed to the parser, in order
    ghost var body: bytes   // the bytes consumed so far

    ghost predicate Valid()
      reads this, buffer
    {
      && Assembled(body, buffer[..], lineLen, overflowed)
      && calls == ShortLines(Terminated(body))
      && lines == |Terminated(body)|
    }

    constructor ()
      ensures Valid() && body == [] && fresh(buffer)
    {
      buffer := new byte[LINE_MAX];
      lineLen, overflowed, lines, calls, body := 0, false, 0, [], [];
      new;
      NoBytes();
    }

    method FeedByte(c: byte)
      requires Valid()
      modifies this, buffer
      ensures Valid() && body == old(body) + [c] && buffer == old(buffer)
    {
      NextByte(body, c);
      hide ShortLines, Tail, Terminated;
      if c == NEWLINE {
        assert !overflowed ==> buffer[..lineLen] == Tail(body);
        if !overflowed {
          calls := calls + [buffer[..lineLen]];
        } else {
          assert calls + [] == calls;
        }
        ShortLinesSnoc(Terminated(body), Tail(body));
        lineLen := 0;
        overflowed := false;
        lines := lines + 1;
      } else if lineLen < LINE_MAX {
        buffer[lineLen] := c;
        lineLen := lineLen + 1;
      } else {
        overflowed := true;
      }
      body := body + [c];
    }

    method FeedChunk(chunk: bytes)
      requires Valid()
      modifies this, buffer
      ensures Valid() && body == old(body) + chunk && buffer == old(buffer)
    {
      for i := 0 to |chunk|
        invariant Valid() && body == old(body) + chunk[..i] && buffer == old(buffer)
      {
        FeedByte(chunk[i]);
        assert chunk[..i + 1] == chunk[..i] + [chunk[i]];
      }
      assert chunk[..|chunk|] == chunk;
    }

    /** End of the response: a final line without newline still counts when it fits. */
    method Finish()
      requires Valid()
      modifies this
      ensures calls == BodyLines(old(body))
      ensures forall ls: seq<bytes> :: |ls| >= 1 && AllFree(ls, 10) && old(body) == Join(ls, 10) ==> calls == Seen(ls, false)
      ensures lines == |Terminated(old(body))| + if LastLineCounts(old(body)) then 1 else 0
    {
      forall ls: seq<bytes> | |ls| >= 1 && AllFree(ls, 10) && body == Join(ls, 10)
        ensures BodyLines(body) == Seen(ls, false)
      {
        LinesOfBody(body, ls);
      }
      assert !overflowed ==> buffer[..lineLen] == Tail(body);
      if lineLen > 0 && !overflowed {
        calls := calls + [buffer[..lineLen]];
        lines := lines + 1;
      }
    }
  }

  lemma ShortLinesSnoc(ls: seq<bytes>, l: bytes)
    ensures ShortLines(ls + [l]) == ShortLines(ls) + KeepShort(l)
  {
    FlatMapAppend(KeepShort, ls, [l]);
    FlatMapSingle(KeepShort, l);
  }

  /** However the response is cut into chunks, the parser sees the same lines: those of the whole body. */
  method AssembleLines(source: Source) returns (calls: seq<bytes>, ok: bool)
    ensures calls == SourceLines(source)
    ensures ok <==> source.Body? && !source.readError
    ensures source.Unreachable? ==> calls == []
    ensures forall ls: seq<bytes> ::
              source.Body? && |ls| >= 1 && AllFree(ls, 10) && Flatten(source.chunks) == Join(ls, 10) ==>
                calls == Seen(ls, source.readError)
  {
    forall ls: seq<bytes> |
        source.Body? && |ls| >= 1 && AllFree(ls, 10) && Flatten(source.chunks) == Join(ls, 10)
      ensures SourceLines(source) == Seen(ls, source.readError)
    {
      LinesOfSource(source, ls);
    }
    if source.Unreachable? {
      return [], false;
    }
    var a := new LineAssembler();
    for i := 0 to |source.chunks|
      invariant a.Valid() && fresh(a) && fresh(a.buffer) && a.body == Flatten(source.chunks[..i])
    {
      a.FeedChunk(source.chunks[i]);
      FlattenUpTo(source.chunks, i);
    }
    assert source.chunks[..|source.chunks|] == source.chunks;
    if source.readError {
      return a.calls, false;
    }
    a.Finish();
    return a.calls, true;
  }

  ghost predicate Within(a: seq<u64>, b: seq<u64>) { forall h :: h in a ==> h in b }

  lemma WithinRefl(a: seq<u64>)
    ensures Within(a, a + [])
  {
  }

  lemma WithinSnoc(a: seq<u64>, b: seq<u64>, c: seq<u64>, d: seq<u64>, a': seq<u64>)
    requires Within(a, b + c) && (a' == a || a' == a + d)
    ensures Within(a', b + (c + d))
    ensures a == b + c && a' == a + d ==> a' == b + (c + d)
  {
    assert b + (c + d) == b + c + d;
  }

  lemma WithinTwice(a: seq<u64>, b: seq<u64>, c: seq<u64>, d: seq<u64>, a': seq<u64>)
    requires Within(a, b + c) && Within(a', a + d)
    ensures Within(a', b + (c + d))
    ensures a == b + c && a' == a + d ==> a' == b + (c + d)
  {
    assert b + (c + d) == b + c + d;
  }

  lemma DomainHasherApplied(d: bytes, allow: seq<u64>)
    ensures DomainHasher(allow)(d) == WantedHash(d, allow)
  {
  }

  // ---- one generation ------------------------------------------------------------------------------

  /** The sink of one generation: the allowlist filter in front of the builder. */
  class Sink {
    const memory: bool  // true: the allocator never fails
    const allow: Allow.Allowlist
    const builder: Builder
    var addedCount: nat

    ghost predicate Valid()
      reads this, allow, builder
    {
      allow.Valid() && builder.Valid() && builder.hashes != allow.hashes
    }

    ghost function Added(): seq<u64>
      reads this, allow, builder, builder.hashes
      requires Valid()
    {
      builder.Contents()
    }

    ghost function Allowed(): seq<u64>
      reads this, allow, allow.hashes, builder
      requires Valid()
    {
      allow.Contents()
    }

    constructor (minDomains: nat, sha: Sha256, allow: Allow.Allowlist, memory: bool)
      requires allow.Valid()
      ensures Valid() && Added() == [] && this.allow == allow && this.memory == memory
      ensures fresh(builder) && fresh(builder.hashes) && builder.minDomains == minDomains && builder.sha == sha
    {
      this.memory := memory;
      this.allow := allow;
      builder := new Builder(minDomains, sha);
      addedCount := 0;
    }

    /** Drops an allowlisted domain, otherwise appends its hash; a failed append is not counted. */
    method Add(domain: bytes)
      requires Valid()
      modifies this, builder, builder.hashes
      ensures Valid() && (builder.hashes == old(builder.hashes) || fresh(builder.hashes))
      ensures Allowed() == old(Allowed())
      ensures Added() == old(Added()) + WantedHash(domain, Allowed()) || (!memory && Added() == old(Added()))
      ensures addedCount - old(addedCount) == |Added()| - |old(Added())|
    {
      var h := ComputeDomainHash(domain);
      var skip := allow.Contains(h);
      if skip {
        return;
      }
      var allocOk: bool := *;
      var ok := builder.Add(domain, memory || allocOk);
      if ok {
        addedCount := addedCount + 1;
      }
    }

    /** One line: parse it and add what it emits. */
    method AddLine(line: bytes)
      requires Valid()
      modifies this, builder, builder.hashes
      ensures Valid() && (builder.hashes == old(builder.hashes) || fresh(builder.hashes))
      ensures Allowed() == old(Allowed())
      ensures memory ==> Added() == old(Added()) + DomainHashes(Emitted(line), Allowed())
      ensures Within(Added(), old(Added()) + DomainHashes(Emitted(line), Allowed()))
    {
      hide Emitted, WantedHash, DomainHash, DomainHasher, Within;
      WithinRefl(Added());
      var domains := Parse(line);
      ghost var start, allowed, done := Added(), Allowed(), [];
      ghost var f := DomainHasher(allowed);
      for i := 0 to |domains|
        invariant Valid() && (builder.hashes == old(builder.hashes) || fresh(builder.hashes))
        invariant Allowed() == allowed && done == FlatMap(f, domains[..i])
        invariant memory ==> Added() == start + done
        invariant Within(Added(), start + done)
      {
        ghost var before, next := Added(), WantedHash(domains[i], allowed);
        Add(domains[i]);
        FlatMapUpTo(f, domains, i);
        DomainHasherApplied(domains[i], allowed);
        WithinSnoc(before, start, done, next, Added());
        done := done + next;
      }
      assert domains[..|domains|] == domains;
    }

    method AddLines(lines: seq<bytes>)
      requires Valid()
      modifies this, builder, builder.hashes
      ensures Valid() && (builder.hashes == old(builder.hashes) || fresh(builder.hashes))
      ensures Allowed() == old(Allowed())
      ensures memory ==> Added() == old(Added()) + LineHashes(lines, Allowed())
      ensures Within(Added(), old(Added()) + LineHashes(lines, Allowed()))
    {
      hide Emitted, DomainHashes, LineHasher, Within;
      WithinRefl(Added());
      ghost var start, allowed, done := Added(), Allowed(), [];
      ghost var f := LineHasher(allowed);
      for i := 0 to |lines|
        invariant Valid() && (builder.hashes == old(builder.hashes) || fresh(builder.hashes))
        invariant Allowed() == allowed && done == FlatMap(f, lines[..i])
        invariant memory ==> Added() == start + done
        invariant Within(Added(), start + done)
      {
        ghost var before, next := Added(), DomainHashes(Emitted(lines[i]), allowed);
        AddLine(lines[i]);
        FlatMapUpTo(f, lines, i);
        LineHasherApplied(lines[i], allowed);
        WithinTwice(before, start, done, next, Added());
        done := done + next;
      }
      assert lines[..|lines|] == lines;
    }
  }

  lemma LineHasherApplied(l: bytes, allow: seq<u64>)
    ensures LineHasher(allow)(l) == DomainHashes(Emitted(l), allow)
  {
  }

  lemma WithinChain(a: seq<u64>, b: seq<u64>, c: seq<u64>, next: seq<u64>)
    requires Within(a, b + next) && Within(b, c)
    ensures Within(a, c + next)
  {
  }

  /** An artifact of some of the wanted hashes: which ones depends on the appends that ran out of memory. */
  ghost predicate PublishesSome(sha: Sha256, wanted: seq<u64>, art: Artifact) {
    exists added :: Within(added, wanted) && Publishes(sha, added, art)
  }

  /**
   * All configured sources, one after another, into a fresh builder; then finish. With memory the outcome is
   * determined by the hashes of all lines of all sources.
   */
  method FetchAndGenerate(sources: seq<Source>, minDomains: nat, sha: Sha256, allow: Allow.Allowlist, memory: bool)
    returns (r: Outcome)
    requires allow.Valid()
    ensures r.Published? ==>
              && PublishesSome(sha, LineHashes(AllLines(sources), allow.Contents()), r.art)
              && r.art.count >= minDomains && r.art.count >= 1
    ensures memory && r.Published? ==> Publishes(sha, LineHashes(AllLines(sources), allow.Contents()), r.art)
    ensures memory ==>
              var wanted := LineHashes(AllLines(sources), allow.Contents());
              && (r.BelowMinDomains? <==> |Distinct(wanted)| < minDomains)
              && (r.AllocFailed? <==> wanted == [] && minDomains == 0)
              && (r.SelfTestFailed? <==> |Distinct(wanted)| >= minDomains && CanaryAdded(wanted))
  {
    hide LineHashes, Within, Publishes, CanaryAdded, SourceLines;
    var created: bool := *;
    if !memory && !created {
      return AllocFailed;
    }
    var sink := new Sink(minDomains, sha, allow, memory);
    ghost var allowed := allow.Contents();
    NoLines(allowed);
    for i := 0 to |sources|
      invariant sink.Valid() && fresh(sink.builder.hashes) && sink.Allowed() == allowed
      invariant memory ==> sink.Added() == LineHashes(AllLines(sources[..i]), allowed)
      invariant Within(sink.Added(), LineHashes(AllLines(sources[..i]), allowed))
    {
      var lines, ok := AssembleLines(sources[i]);
      ghost var before, sofar := sink.Added(), AllLines(sources[..i]);
      sink.AddLines(lines);
      assert sources[..i + 1][..i] == sources[..i];
      LineHashesAppend(sofar, lines, allowed);
      WithinChain(sink.Added(), before, LineHashes(sofar, allowed), LineHashes(lines, allowed));
    }
    assert sources[..|sources|] == sources;
    ghost var added := sink.Added();
    var allocOk: bool := *;
    CardinalityAtMostLength(added);
    CanaryNeedsHashes(added);
    r := sink.builder.Finish(memory || allocOk);
  }

  lemma CanaryNeedsHashes(added: seq<u64>)
    ensures CanaryAdded(added) ==> added != []
    ensures added == [] ==> |Distinct(added)| == 0
    ensures added != [] ==> |Distinct(added)| > 0
  {
    if added != [] {
      assert added[0] in Distinct(added);
    } else {
      assert Distinct(added) == {};
    }
  }

  lemma NoLines(allow: seq<u64>)
    ensures LineHashes(AllLines([]), allow) == [] && Within([], LineHashes(AllLines([]), allow))
  {
  }
}
