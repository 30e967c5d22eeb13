/** What a stats datagram means to the generator, and the totals it reaches over whole runs. */
module StatsCollector {
  import opened Bytes
  import opened Text
  import opened StatsLine

  const MAX_NODES: nat := 16
  const NAME_SIZE: nat := 16

  /** A node's running sums (modulo 2^32) and its last reported uptime. */
  datatype Totals = Totals(sums: Counters, uptime: int)

  function Fresh(): Totals { Totals(ZERO, 0) }

  // ---- what a line means --------------------------------------------------------------------------------

  /** Adds a value to the total it is for; the uptime is a gauge. */
  function ApplyTarget(n: Totals, t: Target, v: int): (r: Totals)
    requires WellFormed(n.sums) && (t.Hist? ==> t.bucket < BUCKETS)
    ensures WellFormed(r.sums)
  {
    var c := n.sums;
    match t
    case Blocked => n.(sums := c.(blocked := Add32(c.blocked, v)))
    case Forwarded => n.(sums := c.(forwarded := Add32(c.forwarded, v)))
    case Timeouts => n.(sums := c.(timeouts := Add32(c.timeouts, v)))
    case LatSum => n.(sums := c.(latSum := Add32(c.latSum, v)))
    case Uptime => n.(uptime := v)
    case Hist(b) => n.(sums := c.(hist := c.hist[b := Add32(c.hist[b], v)]))
    case Ignored => n
  }

  /** One comma-separated piece: ignored without '='. */
  function ApplyText(n: Totals, text: bytes): (r: Totals)
    requires WellFormed(n.sums)
    ensures WellFormed(r.sums)
  {
    var e := IndexOf(text, EQUALS);
    if e == |text| then n else ApplyTarget(n, TargetOf(text[..e]), StrToL(text[e + 1..]))
  }

  function ApplyTexts(n: Totals, ts: seq<bytes>): (r: Totals)
    requires WellFormed(n.sums)
    ensures WellFormed(r.sums)
  {
    if ts == [] then n else ApplyText(ApplyTexts(n, ts[..|ts| - 1]), ts[|ts| - 1])
  }

  // ---- printed lines -----------------------------------------------------------------------------------------

  function ApplyFields(n: Totals, fs: seq<Field>): (r: Totals)
    requires WellFormed(n.sums) && Printable(fs)
    ensures WellFormed(r.sums)
  {
    if fs == [] then n
    else ApplyTarget(ApplyFields(n, fs[..|fs| - 1]), fs[|fs| - 1].target, Clamp(fs[|fs| - 1].value))
  }

  lemma FieldReadBack(n: Totals, f: Field)
    requires WellFormed(n.sums) && !f.target.Ignored? && (f.target.Hist? ==> f.target.bucket < BUCKETS)
    ensures ApplyText(n, FieldText(f)) == ApplyTarget(n, f.target, Clamp(f.value))
  {
    FieldTextFree(f);
    KeysUnderstood(f.target);
    PrintedCountReadBack(f.value, [SUFFIX]);
    var key, text := KeyOf(f.target), FieldText(f);
    hide KeyOf, TargetOf, Dec, StrToL;
    assert text[..|key|] == key && text[|key| + 1..] == Dec(f.value) + [SUFFIX];
  }

  lemma {:induction false} FieldsReadBack(n: Totals, fs: seq<Field>)
    requires WellFormed(n.sums) && Printable(fs)
    ensures ApplyTexts(n, FieldTexts(fs)) == ApplyFields(n, fs)
  {
    if fs != [] {
      var k := |fs| - 1;
      FieldsReadBack(n, fs[..k]);
      assert FieldTexts(fs)[..k] == FieldTexts(fs[..k]);
      FieldReadBack(ApplyFields(n, fs[..k]), fs[k]);
    }
  }

  /** The counts as the collector reads them: those above a 32-bit long's maximum arrive as that maximum. */
  function Saturated(d: Counters): (s: Counters)
    requires WellFormed(d)
    ensures WellFormed(s)
  {
    Counters(Clamp(d.blocked), Clamp(d.forwarded), Clamp(d.timeouts), Clamp(d.latSum),
             seq(BUCKETS, i requires 0 <= i < BUCKETS => Clamp(d.hist[i])))
  }

  predicate Small(d: Counters)
    requires WellFormed(d)
  {
    && d.blocked <= LONG_MAX && d.forwarded <= LONG_MAX && d.timeouts <= LONG_MAX && d.latSum <= LONG_MAX
    && forall i :: 0 <= i < BUCKETS ==> d.hist[i] <= LONG_MAX
  }

  /** base with the first k buckets of hist added. */
  function HistAdded(base: seq<u32>, hist: seq<u32>, k: nat): (r: seq<u32>)
    requires |base| == |hist| == BUCKETS && k <= BUCKETS
    ensures |r| == BUCKETS
  {
    seq(BUCKETS, i requires 0 <= i < BUCKETS => if i < k then Add32(base[i], Clamp(hist[i])) else base[i])
  }

  lemma HistAddedStep(base: seq<u32>, hist: seq<u32>, k: nat)
    requires |base| == |hist| == BUCKETS && 0 < k <= BUCKETS
    ensures var before := HistAdded(base, hist, k - 1);
            HistAdded(base, hist, k) == before[k - 1 := Add32(before[k - 1], Clamp(hist[k - 1]))]
    ensures HistAdded(base, hist, 0) == base
  {
    hide Add32, Clamp;
    assert HistAdded(base, hist, 0) == base;
  }

  lemma ApplySnoc(n: Totals, fs: seq<Field>, f: Field)
    requires WellFormed(n.sums) && Printable(fs) && Printable([f])
    ensures Printable(fs + [f])
    ensures ApplyFields(n, fs + [f]) == ApplyTarget(ApplyFields(n, fs), f.target, Clamp(f.value))
  {
    var all := fs + [f];
    assert all[..|fs|] == fs && all[|fs|] == f && [f][0] == f;
    hide ApplyTarget, Clamp;
  }

  lemma HistFieldsSnoc(fs: seq<Field>, hist: seq<u32>, k: nat)
    requires |hist| == BUCKETS && 0 < k <= BUCKETS
    ensures fs + HistFields(hist)[..k] == fs + HistFields(hist)[..k - 1] + [Field(Hist(k - 1), hist[k - 1])]
    ensures Printable([Field(Hist(k - 1), hist[k - 1])])
  {
  }

  /** base after the first k buckets of hist. */
  function WithHist(base: Totals, hist: seq<u32>, k: nat): (r: Totals)
    requires WellFormed(base.sums) && |hist| == BUCKETS && k <= BUCKETS
    ensures WellFormed(r.sums)
  {
    base.(sums := base.sums.(hist := HistAdded(base.sums.hist, hist, k)))
  }

  lemma WithHistStep(base: Totals, hist: seq<u32>, k: nat)
    requires WellFormed(base.sums) && |hist| == BUCKETS && 0 < k <= BUCKETS
    ensures WithHist(base, hist, k) == ApplyTarget(WithHist(base, hist, k - 1), Hist(k - 1), Clamp(hist[k - 1]))
  {
    HistAddedStep(base.sums.hist, hist, k);
    hide HistAdded, Add32, Clamp;
  }

  lemma WithHistNone(base: Totals, hist: seq<u32>)
    requires WellFormed(base.sums) && |hist| == BUCKETS
    ensures WithHist(base, hist, 0) == base
  {
    HistAddedStep(base.sums.hist, hist, 1);
    hide HistAdded;
  }

  lemma {:induction false} HistReadBack(n: Totals, fs: seq<Field>, hist: seq<u32>, k: nat)
    requires WellFormed(n.sums) && Printable(fs) && |hist| == BUCKETS && k <= BUCKETS
    ensures Printable(fs + HistFields(hist)[..k])
    ensures ApplyFields(n, fs + HistFields(hist)[..k]) == WithHist(ApplyFields(n, fs), hist, k)
  {
    hide *;
    if k == 0 {
      assert fs + HistFields(hist)[..k] == fs;
      WithHistNone(ApplyFields(n, fs), hist);
    } else {
      HistReadBack(n, fs, hist, k - 1);
      HistFieldsSnoc(fs, hist, k);
      ApplySnoc(n, fs + HistFields(hist)[..k - 1], Field(Hist(k - 1), hist[k - 1]));
      WithHistStep(ApplyFields(n, fs), hist, k);
    }
  }

  lemma NamedReadBack(n: Totals, d: Counters, uptime: nat)
    requires WellFormed(n.sums) && WellFormed(d)
    ensures Printable(Fields(d, uptime)[..5])
    ensures var s := Saturated(d);
            ApplyFields(n, Fields(d, uptime)[..5]) == Totals(
              n.sums.(blocked := Add32(n.sums.blocked, s.blocked), forwarded := Add32(n.sums.forwarded, s.forwarded),
                      timeouts := Add32(n.sums.timeouts, s.timeouts), latSum := Add32(n.sums.latSum, s.latSum)),
              Clamp(uptime))
  {
    var fs := Fields(d, uptime)[..5];
    assert fs[..4][..3] == fs[..3] && fs[..3][..2] == fs[..2] && fs[..2][..1] == fs[..1] && fs[..1][..0] == [];
    hide Add32, Clamp;
    assert ApplyFields(n, []) == n;
    assert ApplyFields(n, fs[..1]) == ApplyTarget(n, Blocked, Clamp(d.blocked));
    assert ApplyFields(n, fs[..2]) == ApplyTarget(ApplyFields(n, fs[..1]), Forwarded, Clamp(d.forwarded));
    assert ApplyFields(n, fs[..3]) == ApplyTarget(ApplyFields(n, fs[..2]), Timeouts, Clamp(d.timeouts));
    assert ApplyFields(n, fs[..4]) == ApplyTarget(ApplyFields(n, fs[..3]), LatSum, Clamp(d.latSum));
  }

  /** A printed report adds exactly its (saturated) deltas to the node, every bucket to its own. */
  lemma ReportReadBack(n: Totals, d: Counters, uptime: nat)
    requires WellFormed(n.sums) && WellFormed(d)
    ensures ApplyTexts(n, FieldTexts(Fields(d, uptime))) == Totals(Plus(n.sums, Saturated(d)), Clamp(uptime))
  {
    hide Add32, Clamp, ApplyFields, ApplyTexts, FieldTexts;
    var fs := Fields(d, uptime);
    assert fs == fs[..5] + HistFields(d.hist)[..BUCKETS];
    NamedReadBack(n, d, uptime);
    HistReadBack(n, fs[..5], d.hist, BUCKETS);
    FieldsReadBack(n, fs);
    assert ApplyFields(n, fs).sums.hist == Plus(n.sums, Saturated(d)).hist;
  }

  /** The sums come out right exactly when every delta fits a 32-bit long. */
  lemma ExactWhenSmall(n: Totals, d: Counters)
    requires WellFormed(n.sums) && WellFormed(d)
    ensures Plus(n.sums, Saturated(d)) == Plus(n.sums, d) <==> Small(d)
  {
    var l, r := Plus(n.sums, Saturated(d)), Plus(n.sums, d);
    ClampKeeps(n.sums.blocked, d.blocked);
    ClampKeeps(n.sums.forwarded, d.forwarded);
    ClampKeeps(n.sums.timeouts, d.timeouts);
    ClampKeeps(n.sums.latSum, d.latSum);
    hide Add32, Clamp;
    forall i | 0 <= i < BUCKETS ensures l.hist[i] == r.hist[i] <==> d.hist[i] <= LONG_MAX {
      ClampKeeps(n.sums.hist[i], d.hist[i]);
    }
    if Small(d) {
      assert l.hist == r.hist;
    }
  }

  lemma ClampKeeps(a: u32, v: u32)
    ensures Add32(a, Clamp(v)) == Add32(a, v) <==> v <= LONG_MAX
  {
  }

  // ---- one datagram line ---------------------------------------------------------------------------------------

  /** A line taken apart: the node it is about and the text of its fields. */
  datatype Parsed = Malformed | About(node: bytes, text: bytes)

  function NodeAndFields(rest: bytes): Parsed {
    var sp := IndexOf(rest, SPACE);
    if sp == |rest| || sp == 0 || sp >= NAME_SIZE then Malformed else About(rest[..sp], rest[sp + 1..])
  }

  function ParsedLine(line: bytes): Parsed {
    if |PREFIX| < |line| && PREFIX <= line then NodeAndFields(line[|PREFIX|..]) else Malformed
  }

  /** A line whose fields run on into the text behind it. */
  function WithTail(p: Parsed, tail: bytes): Parsed { if p.About? then About(p.node, p.text + tail) else p }

  type Table = map<bytes, Totals>

  ghost predicate WellFormedTable(t: Table) { forall name :: name in t ==> WellFormed(t[name].sums) }

  /** The totals after a line: a known node is updated, a new one is added if there is room for it. */
  ghost function Updated(t: Table, p: Parsed): (t': Table)
    requires WellFormedTable(t)
    ensures WellFormedTable(t')
  {
    if p.Malformed? || (p.node !in t && |t| >= MAX_NODES) then t
    else t[p.node := ApplyTexts(Before(t, p.node), Split(p.text, COMMA))]
  }

  /** A node's totals so far; zero on first sight. */
  ghost function Before(t: Table, node: bytes): (n: Totals)
    requires WellFormedTable(t)
    ensures WellFormed(n.sums)
  {
    if node in t then t[node] else Fresh()
  }

  ghost function Ingested(t: Table, line: bytes): (t': Table)
    requires WellFormedTable(t)
    ensures WellFormedTable(t')
  {
    Updated(t, ParsedLine(line))
  }

  lemma WholeLine(t: Table, line: bytes)
    requires WellFormedTable(t)
    ensures Updated(t, WithTail(ParsedLine(line), [])) == Ingested(t, line)
  {
    hide ParsedLine;
    var p := ParsedLine(line);
    assert p.About? ==> p.text + [] == p.text;
  }

  lemma LineApart(node: bytes, text: bytes)
    requires 0 < |node| < NAME_SIZE && SPACE !in node
    ensures ParsedLine(PREFIX + node + [SPACE] + text) == About(node, text)
  {
    hide Ascii;
    var line := PREFIX + node + [SPACE] + text;
    var rest := line[|PREFIX|..];
    assert rest == node + [SPACE] + text;
    IndexOfUnique(rest, SPACE, |node|);
    assert rest[..|node|] == node && rest[|node| + 1..] == text;
  }

  /** A line is taken if and only if it is a report of a node whose name has 1 to 15 bytes. */
  lemma ParsedExactly(line: bytes, node: bytes, text: bytes)
    ensures ParsedLine(line) == About(node, text) <==>
              1 <= |node| <= 15 && 32 !in node && line == Ascii("esphole,node=") + node + [32] + text
  {
    if 1 <= |node| <= 15 && 32 !in node && line == Ascii("esphole,node=") + node + [32] + text {
      LineApart(node, text);
    }
    hide Ascii;
    if ParsedLine(line) == About(node, text) {
      var rest := line[|PREFIX|..];
      assert line == PREFIX + rest;
      assert rest == node + [32] + text;
    }
  }

  /** Any other line changes nothing. */
  lemma OtherLinesIgnored(t: Table, line: bytes)
    requires WellFormedTable(t)
    ensures Ingested(t, line) != t ==>
              exists node, text :: 1 <= |node| <= 15 && 32 !in node && line == Ascii("esphole,node=") + node + [32] + text
  {
    hide ParsedLine, Ascii;
    match ParsedLine(line)
    case Malformed =>
    case About(node, text) => ParsedExactly(line, node, text);
  }

  lemma TextsApart(fs: seq<Field>)
    requires Printable(fs) && fs != []
    ensures Split(Join(FieldTexts(fs), COMMA), COMMA) == FieldTexts(fs)
  {
    var ts := FieldTexts(fs);
    hide FieldText, Join, Split, Free;
    forall t | t in ts ensures Free(t, COMMA) {
      var i :| 0 <= i < |ts| && ts[i] == t;
      FieldTextFree(fs[i]);
    }
    SplitOfJoin(ts, COMMA);
  }

  /** The collector, given a report the sender printed, adds exactly its deltas to that node and nothing else. */
  lemma ReportIngested(t: Table, node: bytes, d: Counters, uptime: nat)
    requires WellFormedTable(t) && WellFormed(d) && 0 < |node| < NAME_SIZE && SPACE !in node
    requires node in t || |t| < MAX_NODES
    ensures Ingested(t, Line(node, d, uptime)) ==
            t[node := Totals(Plus(Before(t, node).sums, Saturated(d)), Clamp(uptime))]
  {
    hide *;
    LineParsed(node, d, uptime);
    AboutNode(t, Line(node, d, uptime), node, Join(FieldTexts(Fields(d, uptime)), COMMA));
    TextsApart(Fields(d, uptime));
    ReportReadBack(Before(t, node), d, uptime);
  }

  lemma LineParsed(node: bytes, d: Counters, uptime: nat)
    requires WellFormed(d) && 0 < |node| < NAME_SIZE && SPACE !in node
    ensures Printable(Fields(d, uptime))
    ensures ParsedLine(Line(node, d, uptime)) == About(node, Join(FieldTexts(Fields(d, uptime)), COMMA))
  {
    assert Printable(Fields(d, uptime));
    hide ParsedLine, Fields, Join, FieldTexts, Printable;
    LineApart(node, Join(FieldTexts(Fields(d, uptime)), COMMA));
  }

  lemma AboutNode(t: Table, line: bytes, node: bytes, text: bytes)
    requires WellFormedTable(t) && (node in t || |t| < MAX_NODES) && ParsedLine(line) == About(node, text)
    ensures Ingested(t, line) == t[node := ApplyTexts(Before(t, node), Split(text, COMMA))]
  {
    hide ParsedLine, ApplyTexts, Split, Before, WellFormedTable;
  }

  // ---- whole runs ----------------------------------------------------------------------------------------------

  /** A report: the node's counters at the time it is sent. */
  datatype Report = Report(node: bytes, now: Counters, uptime: nat)

  ghost predicate WellFormedReports(rs: seq<Report>) {
    forall i :: 0 <= i < |rs| ==> WellFormed(rs[i].now) && 0 < |rs[i].node| < NAME_SIZE && SPACE !in rs[i].node
  }

  /** The counters each node had when it last reported; before its first report they count as zero. */
  ghost function Last(rs: seq<Report>, node: bytes): (c: Counters)
    requires WellFormedReports(rs)
    ensures WellFormed(c)
  {
    if rs == [] then ZERO
    else if rs[|rs| - 1].node == node then rs[|rs| - 1].now
    else Last(rs[..|rs| - 1], node)
  }

  /** What the k-th report prints. */
  ghost function Delta(rs: seq<Report>, k: nat): (d: Counters)
    requires WellFormedReports(rs) && k < |rs|
    ensures WellFormed(d)
  {
    Minus(rs[k].now, Last(rs[..k], rs[k].node))
  }

  /** The table after all reports, each delivered once and in order. */
  ghost function Collected(rs: seq<Report>): (t: Table)
    requires WellFormedReports(rs)
    ensures WellFormedTable(t)
  {
    if rs == [] then map[]
    else Ingested(Collected(rs[..|rs| - 1]),
                  Line(rs[|rs| - 1].node, Delta(rs, |rs| - 1), rs[|rs| - 1].uptime))
  }

  ghost predicate SmallDeltas(rs: seq<Report>)
    requires WellFormedReports(rs)
  {
    forall k :: 0 <= k < |rs| ==> Small(Delta(rs, k))
  }

  /** The nodes that have reported. */
  ghost function Reporters(rs: seq<Report>): set<bytes> { set r | r in rs :: r.node }

  /**
   * Over every run of up to 16 nodes, through any number of counter wraps: the collector knows exactly the nodes
   * that reported, and its sums are their own counters as of their last reports.
   */
  lemma {:induction false} TotalsAreCounters(rs: seq<Report>, node: bytes)
    requires WellFormedReports(rs) && SmallDeltas(rs) && |Reporters(rs)| <= 16
    ensures Collected(rs).Keys == Reporters(rs)
    ensures Before(Collected(rs), node).sums == Last(rs, node)
  {
    if rs == [] {
      assert Collected(rs).Keys == {};
    } else {
      var init, r := rs[..|rs| - 1], rs[|rs| - 1];
      SmallPrefix(rs);
      ReportersStep(rs);
      TotalsAreCounters(init, node);
      TotalsAreCounters(init, r.node);
      assert Last(rs, node) == if r.node == node then r.now else Last(init, node);
      var t, n := Collected(init), Totals(r.now, Clamp(r.uptime));
      assert |t| == |t.Keys|;
      CollectedStep(rs);
      NodeUpdated(t, r.node, n, node);
      hide *;
    }
  }

  lemma NodeUpdated(t: Table, name: bytes, n: Totals, other: bytes)
    requires WellFormedTable(t) && WellFormed(n.sums)
    ensures WellFormedTable(t[name := n]) && t[name := n].Keys == t.Keys + {name}
    ensures Before(t[name := n], other) == if other == name then n else Before(t, other)
  {
  }

  lemma ReportersStep(rs: seq<Report>)
    requires rs != []
    ensures Reporters(rs) == Reporters(rs[..|rs| - 1]) + {rs[|rs| - 1].node}
    ensures |Reporters(rs[..|rs| - 1])| <= |Reporters(rs)|
    ensures rs[|rs| - 1].node in Reporters(rs[..|rs| - 1]) || |Reporters(rs[..|rs| - 1])| < |Reporters(rs)|
  {
    var init, r := rs[..|rs| - 1], rs[|rs| - 1];
    assert rs == init + [r];
    assert forall x :: x in rs <==> x in init || x == r;
    assert Reporters(rs) == Reporters(init) + {r.node};
    if r.node in Reporters(init) {
      assert Reporters(rs) == Reporters(init);
    }
  }

  lemma CollectedStep(rs: seq<Report>)
    requires WellFormedReports(rs) && SmallDeltas(rs) && rs != []
    requires var r, init := rs[|rs| - 1], rs[..|rs| - 1];
             && Before(Collected(init), r.node).sums == Last(init, r.node)
             && (r.node in Collected(init) || |Collected(init)| < MAX_NODES)
    ensures var r := rs[|rs| - 1];
            Collected(rs) == Collected(rs[..|rs| - 1])[r.node := Totals(r.now, Clamp(r.uptime))]
  {
    var k := |rs| - 1;
    var init, r := rs[..k], rs[k];
    var d, t := Delta(rs, k), Collected(init);
    assert Small(d);
    assert d == Minus(r.now, Last(init, r.node));
    hide Delta, Ingested, Small, Saturated, Plus, Minus, Clamp, Last, Before, Line, SmallDeltas;
    ReportIngested(t, r.node, d, r.uptime);
    ExactWhenSmall(Before(t, r.node), d);
    PlusMinus(r.now, Last(init, r.node));
  }

  lemma SmallPrefix(rs: seq<Report>)
    requires WellFormedReports(rs) && SmallDeltas(rs) && rs != []
    ensures WellFormedReports(rs[..|rs| - 1]) && SmallDeltas(rs[..|rs| - 1])
  {
    var init := rs[..|rs| - 1];
    forall k | 0 <= k < |init| ensures Small(Delta(init, k)) {
      assert init[..k] == rs[..k] && Small(Delta(rs, k));
    }
  }

  /** The collector's sums are the nodes' counters after every report so far. */
  ghost predicate ExactSoFar(rs: seq<Report>)
    requires WellFormedReports(rs)
  {
    forall k, node :: 0 <= k <= |rs| ==> ExactAt(rs, k, node)
  }

  ghost predicate ExactAt(rs: seq<Report>, k: nat, node: bytes)
    requires WellFormedReports(rs) && k <= |rs|
  {
    Before(Collected(rs[..k]), node).sums == Last(rs[..k], node)
  }

  /** Over runs: the sums are exact after every report if and only if no delta exceeds 2^31 - 1. */
  lemma ExactExactlyWhenSmall(rs: seq<Report>)
    requires WellFormedReports(rs) && |Reporters(rs)| <= 16
    ensures ExactSoFar(rs) <==> SmallDeltas(rs)
  {
    if SmallDeltas(rs) {
      forall k: nat, node | k <= |rs| ensures ExactAt(rs, k, node) {
        PrefixSmall(rs, k);
        TotalsAreCounters(rs[..k], node);
      }
    }
    if ExactSoFar(rs) {
      hide Small, Delta, Reporters, ExactAt, WellFormedReports;
      forall k: nat | k < |rs| ensures Small(Delta(rs, k)) {
        assert ExactAt(rs, k, rs[k].node) && ExactAt(rs, k + 1, rs[k].node);
        SmallWhenExact(rs, k);
      }
    }
  }

  lemma PrefixSmall(rs: seq<Report>, k: nat)
    requires WellFormedReports(rs) && SmallDeltas(rs) && k <= |rs|
    ensures WellFormedReports(rs[..k]) && SmallDeltas(rs[..k]) && |Reporters(rs[..k])| <= |Reporters(rs)|
    decreases |rs|
  {
    if k == |rs| {
      assert rs[..k] == rs;
    } else {
      SmallPrefix(rs);
      ReportersStep(rs);
      PrefixSmall(rs[..|rs| - 1], k);
      assert rs[..|rs| - 1][..k] == rs[..k];
    }
  }

  lemma {:induction false} ReportersUpTo(rs: seq<Report>, k: nat)
    requires k <= |rs|
    ensures |Reporters(rs[..k])| <= |Reporters(rs)|
    decreases |rs|
  {
    if k == |rs| {
      assert rs[..k] == rs;
    } else {
      ReportersStep(rs);
      ReportersUpTo(rs[..|rs| - 1], k);
      assert rs[..|rs| - 1][..k] == rs[..k];
    }
  }

  /** The table never holds more nodes than have reported. */
  lemma {:induction false} CollectedFrom(rs: seq<Report>)
    requires WellFormedReports(rs)
    ensures Collected(rs).Keys <= Reporters(rs)
  {
    if rs != [] {
      var init, r := rs[..|rs| - 1], rs[|rs| - 1];
      CollectedFrom(init);
      ReportersStep(rs);
      var d := Delta(rs, |rs| - 1);
      hide Delta, Reporters, Collected;
      assert Collected(rs) == Ingested(Collected(init), Line(r.node, d, r.uptime)) by { CollectedUnfolds(rs); }
      LineParsed(r.node, d, r.uptime);
      hide Line, ParsedLine, ApplyTexts;
    }
  }

  lemma CollectedUnfolds(rs: seq<Report>)
    requires WellFormedReports(rs) && rs != []
    ensures Collected(rs) ==
            Ingested(Collected(rs[..|rs| - 1]), Line(rs[|rs| - 1].node, Delta(rs, |rs| - 1), rs[|rs| - 1].uptime))
  {
  }

  lemma SmallWhenExact(rs: seq<Report>, k: nat)
    requires WellFormedReports(rs) && |Reporters(rs)| <= 16 && k < |rs|
    requires ExactAt(rs, k, rs[k].node) && ExactAt(rs, k + 1, rs[k].node)
    ensures Small(Delta(rs, k))
  {
    var r := rs[k];
    var t, d := Collected(rs[..k]), Delta(rs, k);
    assert Before(t, r.node).sums == Last(rs[..k], r.node);
    assert Before(Collected(rs[..k + 1]), r.node).sums == Last(rs[..k + 1], r.node);
    assert WellFormed(r.now) && 0 < |r.node| < NAME_SIZE && SPACE !in r.node;
    hide *;
    RoomFor(rs, k);
    NextReport(rs, k);
    ReportIngested(t, r.node, d, r.uptime);
    NodeUpdated(t, r.node, Totals(Plus(Before(t, r.node).sums, Saturated(d)), Clamp(r.uptime)), r.node);
    DeltaIs(rs, k);
    PlusMinus(r.now, Last(rs[..k], r.node));
    ExactWhenSmall(Before(t, r.node), d);
  }

  lemma RoomFor(rs: seq<Report>, k: nat)
    requires WellFormedReports(rs) && |Reporters(rs)| <= 16 && k < |rs|
    ensures rs[k].node in Collected(rs[..k]) || |Collected(rs[..k])| < MAX_NODES
  {
    hide Reporters, Collected;
    var init, upTo := rs[..k], rs[..k + 1];
    assert upTo[..k] == init && upTo[k] == rs[k];
    ReportersUpTo(rs, k + 1);
    ReportersStep(upTo);
    CollectedFrom(init);
    TableFits(Collected(init), Reporters(init), Reporters(upTo), rs[k].node);
  }

  lemma NextReport(rs: seq<Report>, k: nat)
    requires WellFormedReports(rs) && k < |rs|
    ensures Collected(rs[..k + 1]) == Ingested(Collected(rs[..k]), Line(rs[k].node, Delta(rs, k), rs[k].uptime))
    ensures Last(rs[..k + 1], rs[k].node) == rs[k].now
  {
    var init, upTo := rs[..k], rs[..k + 1];
    assert upTo[..k] == init && upTo[k] == rs[k];
    assert Last(upTo, rs[k].node) == rs[k].now;
    assert Delta(upTo, k) == Delta(rs, k);
    hide Delta, Collected, Ingested, Line, Last;
    CollectedUnfolds(upTo);
  }

  lemma DeltaIs(rs: seq<Report>, k: nat)
    requires WellFormedReports(rs) && k < |rs|
    ensures Delta(rs, k) == Minus(rs[k].now, Last(rs[..k], rs[k].node))
  {
  }

  lemma TableFits(t: Table, before: set<bytes>, after: set<bytes>, node: bytes)
    requires t.Keys <= before && after == before + {node} && |after| <= MAX_NODES
    ensures node in t || |t| < MAX_NODES
  {
    if node !in t {
      assert node !in t.Keys && t.Keys + {node} <= after;
      SubsetSize(t.Keys + {node}, after);
      assert |t| == |t.Keys|;
    }
  }

  lemma SubsetSize(a: set<bytes>, b: set<bytes>)
    requires a <= b
    ensures |a| <= |b|
  {
    assert b == a + (b - a);
  }
}
