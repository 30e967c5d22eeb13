/** The DNS wire format of a query (RFC 1035, sections 3.1, 4.1.1 and 4.1.2) and the NXDOMAIN reply. */
module DnsWire {
  import opened Bytes
  import opened Text
  import opened Normalize

  const DNS_MAX_PKT: nat := 1500
  const DNS_MAX_NAME: nat := 254  // 253 characters and a NUL
  const HEADER: nat := 12

  // ---- header bits --------------------------------------------------------------------------------

  predicate QrSet(flags: byte) { (flags as bv8) & 0x80 != 0 }

  function ClearQr(flags: byte): byte { ((flags as bv8) & 0x7f) as byte }

  /** QR = 1, opcode and RD kept, AA and TC cleared. */
  function NxFlags(flags: byte): byte { (0x80 | ((flags as bv8) & 0x79)) as byte }

  lemma FlagBits(flags: byte)
    ensures QrSet(flags) <==> flags >= 128
    ensures QrSet(NxFlags(flags)) && !QrSet(ClearQr(flags))
    ensures (NxFlags(flags) as bv8) & 0x79 == (flags as bv8) & 0x79
    ensures (NxFlags(flags) as bv8) & 0x06 == 0
  {
    QrFlag(flags);
    QrFlag(NxFlags(flags));
    ClearedFlag(flags);
    NxFlag(flags);
    hide NxFlags, ClearQr, QrSet;
  }

  lemma QrFlag(flags: byte)
    ensures QrSet(flags) <==> flags >= 128
  {
    QrBit(flags as bv8);
  }

  lemma ClearedFlag(flags: byte)
    ensures !QrSet(ClearQr(flags))
  {
    QrBit(flags as bv8);
  }

  lemma NxFlag(flags: byte)
    ensures QrSet(NxFlags(flags))
    ensures (NxFlags(flags) as bv8) & 0x79 == (flags as bv8) & 0x79
    ensures (NxFlags(flags) as bv8) & 0x06 == 0
  {
    KeptBits(flags as bv8);
  }

  lemma QrBit(b: bv8)
    ensures b & 0x80 != 0 <==> b >= 128
    ensures (b & 0x7f) & 0x80 == 0
  {
  }

  lemma KeptBits(b: bv8)
    ensures (0x80 | (b & 0x79)) & 0x80 != 0 && (0x80 | (b & 0x79)) & 0x79 == b & 0x79 && (0x80 | (b & 0x79)) & 0x06 == 0
  {
  }

  // ---- names on the wire -------------------------------------------------------------------------

  /** Labels a query name can have: 1 to 63 bytes of any value. */
  predicate WireLabels(labels: seq<bytes>) {
    forall i :: 0 <= i < |labels| ==> 1 <= |labels[i]| <= 63
  }

  function EncodeName(labels: seq<bytes>): (e: bytes)
    requires WireLabels(labels)
    ensures |e| >= 1
  {
    if labels == [] then [0] else [|labels[0]|] + labels[0] + EncodeName(labels[1..])
  }

  /** The dotted form; the root name is empty. */
  function Dotted(labels: seq<bytes>): bytes { if labels == [] then [] else Join(labels, DOT) }

  function AppendLabel(name: bytes, part: bytes): bytes { if name == [] then part else name + [DOT] + part }

  /** What the parser reads at off, given the part of the name read before: the name and the offset behind it. */
  function ReadName(pkt: bytes, off: nat, name: bytes): (r: Option<(bytes, nat)>)
    ensures r.Some? ==> off < r.value.1 <= |pkt| && (|name| < DNS_MAX_NAME ==> |r.value.0| < DNS_MAX_NAME)
    decreases |pkt| - off
  {
    if off >= |pkt| then None else
    var lab := pkt[off];
    if lab == 0 then Some((name, off + 1))
    else if lab >= 64 || off + 1 + lab > |pkt| then None
    else
      var next := AppendLabel(name, Lower(pkt[off + 1..off + 1 + lab]));
      if |next| >= DNS_MAX_NAME then None else ReadName(pkt, off + 1 + lab, next)
  }

  function QdCount(pkt: bytes): nat
    requires |pkt| >= HEADER
  {
    (pkt[4] as int) * 256 + pkt[5]
  }

  datatype Question = Question(name: bytes, end: nat)

  /** A query (QR clear, at least one question) whose first question is complete. */
  function ReadQuestion(pkt: bytes): (q: Option<Question>)
    ensures q.Some? ==> HEADER + 5 <= q.value.end <= |pkt| && |q.value.name| < DNS_MAX_NAME
  {
    if |pkt| < HEADER || QrSet(pkt[2]) || QdCount(pkt) < 1 then None else
    match ReadName(pkt, HEADER, [])
    case None => None
    case Some((name, off)) => if off + 4 > |pkt| then None else Some(Question(name, off + 4))
  }

  // ---- the parser --------------------------------------------------------------------------------

  /** Copies one label into the name buffer, lower-cased. */
  method CopyLabel(pkt: array<byte>, off: nat, lab: nat, name: array<byte>, at: nat)
    requires pkt != name && off + lab <= pkt.Length && at + lab <= name.Length
    modifies name
    ensures name[..at + lab] == old(name[..at]) + Lower(pkt[off..off + lab])
  {
    for i := 0 to lab
      invariant name[..at] == old(name[..at])
      invariant forall j :: at <= j < at + i ==> name[j] == LowerByte(pkt[off + j - at])
      invariant pkt[..] == old(pkt[..])
    {
      name[at + i] := LowerByte(pkt[off + i]);
    }
    assert name[at..at + lab] == Lower(pkt[off..off + lab]);
    assert name[..at + lab] == name[..at] + name[at..at + lab];
  }

  /** Appends one label, behind a dot unless it is the first. */
  method AddLabel(pkt: array<byte>, off: nat, lab: nat, name: array<byte>, from: nat) returns (n: nat)
    requires pkt != name && off + lab <= pkt.Length && 0 < lab
    requires from + lab + (if from > 0 then 1 else 0) < name.Length
    modifies name
    ensures n < name.Length && name[..n] == AppendLabel(old(name[..from]), Lower(pkt[off..off + lab]))
  {
    hide Lower;
    n := from;
    if n > 0 {
      name[n] := DOT;
      n := n + 1;
      assert name[..n] == old(name[..from]) + [DOT];
    }
    CopyLabel(pkt, off, lab, name, n);
    n := n + lab;
  }

  /** The label loop: fills the name buffer from offset 12 on; -1 on anything malformed. */
  method ReadLabels(pkt: array<byte>, len: nat, name: array<byte>) returns (end: int, n: nat)
    requires pkt != name && HEADER <= len <= pkt.Length && name.Length == DNS_MAX_NAME
    modifies name
    ensures n < DNS_MAX_NAME
    ensures ReadName(pkt[..len], HEADER, []) == if end < 0 then None else Some((name[..n], end))
  {
    hide Lower, ReadName, AppendLabel;
    var off: nat := HEADER;
    n := 0;
    ghost var packet := pkt[..len];
    ghost var goal, sofar: seq<byte> := ReadName(packet, HEADER, []), [];
    while true
      invariant off <= len && n < DNS_MAX_NAME && packet == pkt[..len] && sofar == name[..n]
      invariant goal == ReadName(packet, off, sofar)
      decreases len - off
    {
      NextLabel(packet, off, sofar);
      if off >= len {
        return -1, n;
      }
      var lab := pkt[off];
      off := off + 1;
      if lab == 0 {
        return off, n;
      }
      if lab >= 64 || off + lab > len {
        return -1, n;
      }
      if n + lab + (if n > 0 then 1 else 0) >= DNS_MAX_NAME {
        return -1, n;
      }
      ghost var part := pkt[off..off + lab];
      SliceOfSlice(pkt[..], 0, len, off, off + lab);
      assert part == packet[off..off + lab];
      n := AddLabel(pkt, off, lab, name, n);
      sofar := AppendLabel(sofar, Lower(part));
      off := off + lab;
    }
  }

  /** One step of reading a name. */
  lemma NextLabel(pkt: bytes, off: nat, name: bytes)
    ensures off >= |pkt| ==> ReadName(pkt, off, name).None?
    ensures off < |pkt| && pkt[off] == 0 ==> ReadName(pkt, off, name) == Some((name, off + 1))
    ensures off < |pkt| && (pkt[off] >= 64 || off + 1 + pkt[off] > |pkt|) ==> ReadName(pkt, off, name).None?
    ensures off < |pkt| && 0 < pkt[off] < 64 && off + 1 + pkt[off] <= |pkt| ==>
              var lab := pkt[off];
              var next := AppendLabel(name, Lower(pkt[off + 1..off + 1 + lab]));
              && |next| == |name| + lab + (if name == [] then 0 else 1)
              && ReadName(pkt, off, name) == if |next| >= DNS_MAX_NAME then None else ReadName(pkt, off + 1 + lab, next)
  {
  }

  /** Parses the first len bytes of pkt; on success the name buffer starts with the NUL-terminated name. */
  method ParseQuestion(pkt: array<byte>, len: nat, name: array<byte>) returns (end: int)
    requires pkt != name && len <= pkt.Length && name.Length == DNS_MAX_NAME
    modifies name
    ensures end < 0 <==> ReadQuestion(pkt[..len]).None?
    ensures end >= 0 ==>
              var q := ReadQuestion(pkt[..len]).value;
              q.end == end && name[..|q.name|] == q.name && name[|q.name|] == 0
  {
    if len < HEADER || QrSet(pkt[2]) {
      return -1;
    }
    var qdcount := (pkt[4] as int) * 256 + pkt[5];
    if qdcount < 1 {
      return -1;
    }
    var off, n := ReadLabels(pkt, len, name);
    if off < 0 {
      return -1;
    }
    name[n] := 0;
    return if off + 4 > len then -1 else off + 4;
  }

  // ---- parsing inverts the encoding, in both directions ---------------------------------------------

  /** The name the parser accumulates from labels, starting from a part already read. */
  function Accumulated(name: bytes, labels: seq<bytes>): (r: bytes)
    ensures |name| <= |r|
    decreases |labels|
  {
    if labels == [] then name else Accumulated(AppendLabel(name, Lower(labels[0])), labels[1..])
  }

  lemma LowerJoin(a: bytes, b: bytes)
    ensures Lower(a + [DOT] + b) == Lower(a) + [DOT] + Lower(b)
  {
  }

  lemma {:induction false} AccumulatedIsDotted(name: bytes, labels: seq<bytes>)
    requires WireLabels(labels) && labels != []
    ensures Accumulated(name, labels) == AppendLabel(name, Lower(Dotted(labels)))
    decreases |labels|
  {
    var part, rest := labels[0], labels[1..];
    if rest == [] {
      assert labels == [part];
    } else {
      AccumulatedIsDotted(AppendLabel(name, Lower(part)), rest);
      LowerJoin(part, Dotted(rest));
      assert |Lower(part)| == |part| > 0;
      hide Lower;
      var first, tail := Lower(part), Lower(Dotted(rest));
      assert AppendLabel(AppendLabel(name, first), tail) == AppendLabel(name, first + [DOT] + tail) by {
        assert name + [DOT] + first + [DOT] + tail == name + [DOT] + (first + [DOT] + tail);
      }
    }
  }

  /** An encoded label and what follows it, taken apart. */
  lemma TakeLabel(pkt: bytes, off: nat, part: bytes, rest: bytes)
    requires 1 <= |part| <= 63
    requires off + 1 + |part| + |rest| <= |pkt| && pkt[off..off + 1 + |part| + |rest|] == [|part|] + part + rest
    ensures pkt[off] == |part|
    ensures pkt[off + 1..off + 1 + |part|] == part
    ensures pkt[off + 1 + |part|..off + 1 + |part| + |rest|] == rest
  {
    var e, n, m := pkt[off..off + 1 + |part| + |rest|], |part|, |rest|;
    assert pkt[off] == e[0];
    SliceOfSlice(pkt, off, off + 1 + n + m, 1, 1 + n);
    SliceOfSlice(pkt, off, off + 1 + n + m, 1 + n, 1 + n + m);
    assert e[1..1 + n] == part;
    assert e[1 + n..1 + n + m] == rest;
  }

  lemma {:induction false} ReadEncoded(pkt: bytes, off: nat, name: bytes, labels: seq<bytes>)
    requires WireLabels(labels) && |name| < DNS_MAX_NAME
    requires off + |EncodeName(labels)| <= |pkt| && pkt[off..off + |EncodeName(labels)|] == EncodeName(labels)
    ensures ReadName(pkt, off, name) ==
              if |Accumulated(name, labels)| < DNS_MAX_NAME
              then Some((Accumulated(name, labels), off + |EncodeName(labels)|)) else None
    decreases |labels|
  {
    NextLabel(pkt, off, name);
    hide ReadName, Lower, EncodeName, Accumulated, AppendLabel;
    if labels == [] {
      NothingEncoded(name);
      assert pkt[off] == pkt[off..off + 1][0] == 0;
    } else {
      var part, tail := labels[0], labels[1..];
      var rest := EncodeName(tail);
      assert labels == [part] + tail;
      LabelsCons(name, part, tail);
      TakeLabel(pkt, off, part, rest);
      var next := AppendLabel(name, Lower(part));
      AccumulatedLonger(next, tail);
      if |next| < DNS_MAX_NAME {
        ReadEncoded(pkt, off + 1 + |part|, next, tail);
      }
    }
  }

  lemma NothingEncoded(name: bytes)
    ensures EncodeName([]) == [0] && Accumulated(name, []) == name
  {
  }

  lemma AccumulatedLonger(name: bytes, labels: seq<bytes>)
    ensures |name| <= |Accumulated(name, labels)|
  {
  }

  lemma LabelsCons(name: bytes, part: bytes, rest: seq<bytes>)
    requires WireLabels(rest) && 1 <= |part| <= 63
    ensures WireLabels([part] + rest)
    ensures EncodeName([part] + rest) == [|part|] + part + EncodeName(rest)
    ensures Accumulated(name, [part] + rest) == Accumulated(AppendLabel(name, Lower(part)), rest)
  {
    assert ([part] + rest)[1..] == rest;
  }

  lemma EncodedCons(pkt: bytes, off: nat, lab: nat, end: nat, rest: seq<bytes>)
    requires off + 1 + lab <= end <= |pkt| && pkt[off] == lab && 1 <= lab <= 63
    requires WireLabels(rest) && pkt[off + 1 + lab..end] == EncodeName(rest)
    ensures pkt[off..end] == EncodeName([pkt[off + 1..off + 1 + lab]] + rest)
  {
    hide *;
    ThreeParts(pkt, off, off + 1 + lab, end);
    LabelsCons([], pkt[off + 1..off + 1 + lab], rest);
  }

  /** Taking one label off a name that can be read. */
  lemma ReadableLabel(pkt: bytes, off: nat, name: bytes)
    requires ReadName(pkt, off, name).Some?
    ensures off < |pkt|
    ensures pkt[off] == 0 ==> ReadName(pkt, off, name) == Some((name, off + 1))
    ensures var lab := pkt[off];
            lab > 0 ==>
              && lab <= 63 && off + 1 + lab <= |pkt|
              && var next := AppendLabel(name, Lower(pkt[off + 1..off + 1 + lab]));
                 |next| < DNS_MAX_NAME && ReadName(pkt, off, name) == ReadName(pkt, off + 1 + lab, next)
  {
    NextLabel(pkt, off, name);
    hide ReadName, Lower, AppendLabel;
  }

  lemma {:induction false} ReadIsEncoding(pkt: bytes, off: nat, name: bytes) returns (labels: seq<bytes>)
    requires ReadName(pkt, off, name).Some? && |name| < DNS_MAX_NAME
    ensures WireLabels(labels)
    ensures pkt[off..ReadName(pkt, off, name).value.1] == EncodeName(labels)
    ensures Accumulated(name, labels) == ReadName(pkt, off, name).value.0
    decreases |pkt| - off
  {
    hide *;
    ReadableLabel(pkt, off, name);
    var end := ReadName(pkt, off, name).value.1;
    if pkt[off] == 0 {
      labels := [];
      NoLabels(pkt, off, name);
    } else {
      var lab: nat := pkt[off];
      var part := pkt[off + 1..off + 1 + lab];
      var rest := ReadIsEncoding(pkt, off + 1 + lab, AppendLabel(name, Lower(part)));
      labels := [part] + rest;
      LabelsCons(name, part, rest);
      EncodedCons(pkt, off, lab, end, rest);
    }
  }

  lemma NoLabels(pkt: bytes, off: nat, name: bytes)
    requires off < |pkt| && pkt[off] == 0
    ensures WireLabels([]) && pkt[off..off + 1] == EncodeName([]) && Accumulated(name, []) == name
  {
  }

  /** The complete description of what the parser accepts, and of the name it returns. */
  ghost predicate Encodes(pkt: bytes, labels: seq<bytes>, q: Question) {
    && WireLabels(labels)
    && q.end <= |pkt| && q.end == HEADER + |EncodeName(labels)| + 4
    && pkt[HEADER..q.end - 4] == EncodeName(labels)
    && q.name == Lower(Dotted(labels)) && |q.name| <= 253
  }

  predicate QueryHeader(pkt: bytes) { |pkt| >= HEADER && !QrSet(pkt[2]) && (pkt[4] > 0 || pkt[5] > 0) }

  lemma AccumulatedFromStart(labels: seq<bytes>)
    requires WireLabels(labels)
    ensures Accumulated([], labels) == Lower(Dotted(labels))
  {
    if labels != [] {
      AccumulatedIsDotted([], labels);
    }
  }

  lemma ParseInvertsEncoding(pkt: bytes, labels: seq<bytes>, q: Question)
    requires QueryHeader(pkt) && Encodes(pkt, labels, q)
    ensures ReadQuestion(pkt) == Some(q)
  {
    hide ReadName, EncodeName, Lower, Dotted, QrSet;
    AccumulatedFromStart(labels);
    ReadEncoded(pkt, HEADER, [], labels);
  }

  lemma AcceptedIsEncoding(pkt: bytes) returns (labels: seq<bytes>)
    requires ReadQuestion(pkt).Some?
    ensures QueryHeader(pkt) && Encodes(pkt, labels, ReadQuestion(pkt).value)
  {
    labels := ReadIsEncoding(pkt, HEADER, []);
    AccumulatedFromStart(labels);
  }

  /** On arbitrary bytes: accepted exactly when the packet is a query that starts with an encoded name. */
  lemma AcceptsExactlyQueries(pkt: bytes, q: Question)
    ensures ReadQuestion(pkt) == Some(q) <==> QueryHeader(pkt) && exists labels :: Encodes(pkt, labels, q)
  {
    if ReadQuestion(pkt) == Some(q) {
      var labels := AcceptedIsEncoding(pkt);
    }
    if QueryHeader(pkt) && exists labels :: Encodes(pkt, labels, q) {
      var labels :| Encodes(pkt, labels, q);
      ParseInvertsEncoding(pkt, labels, q);
    }
  }

  // ---- the NXDOMAIN reply ------------------------------------------------------------------------------

  /** The reply to a query: same ID, flags rewritten, one question, no records, the question bytes echoed. */
  function NxReply(pkt: bytes, qEnd: nat): bytes
    requires HEADER <= qEnd <= |pkt|
  {
    [pkt[0], pkt[1], NxFlags(pkt[2]), 0x83, 0, 1, 0, 0, 0, 0, 0, 0] + pkt[HEADER..qEnd]
  }

  /**
   * The reply r refuses the query whose question ends at end: its ID, QR set, opcode and RD kept, AA and TC clear,
   * RA set, RCODE 3, one question, no records, and the question as it was asked.
   */
  ghost predicate Refuses(r: bytes, query: bytes, end: nat) {
    && 12 <= end <= |query| && |r| == end && r[0] == query[0] && r[1] == query[1]
    && r[2] >= 128 && (r[2] as bv8) & 0x79 == (query[2] as bv8) & 0x79 && (r[2] as bv8) & 0x06 == 0
    && r[3] == 128 + 3
    && r[4] == 0 && r[5] == 1 && (forall i :: 6 <= i < 12 ==> r[i] == 0)
    && r[12..] == query[12..end]
  }

  lemma NxReplyRefuses(pkt: bytes, qEnd: nat)
    requires HEADER <= qEnd <= |pkt|
    ensures Refuses(NxReply(pkt, qEnd), pkt, qEnd)
  {
    FlagBits(pkt[2]);
    FlagBits(NxFlags(pkt[2]));
    hide QrSet, NxFlags;
  }

  /** A packet with its header rewritten. */
  lemma Patched(was: bytes, now: bytes, qEnd: nat)
    requires |now| == |was| && HEADER <= qEnd <= |was| && now[12..] == was[12..]
    requires now[0] == was[0] && now[1] == was[1] && now[2] == NxFlags(was[2]) && now[3] == 0x83
    requires now[4] == 0 && now[5] == 1 && forall k :: 6 <= k < 12 ==> now[k] == 0
    ensures now[..qEnd] == NxReply(was, qEnd) && Refuses(now[..qEnd], was, qEnd) && now[qEnd..] == was[qEnd..]
  {
    NxReplyRefuses(was, qEnd);
    hide NxFlags, Refuses;
    assert now[12..qEnd] == now[12..][..qEnd - 12] && was[12..qEnd] == was[12..][..qEnd - 12];
    assert now[qEnd..] == now[12..][qEnd - 12..] && was[qEnd..] == was[12..][qEnd - 12..];
    assert now[..12] == [was[0], was[1], NxFlags(was[2]), 0x83, 0, 1, 0, 0, 0, 0, 0, 0];
    assert now[..qEnd] == now[..12] + now[12..qEnd];
  }

  /** Patches the request in place and returns the reply length. */
  method MakeNxdomain(pkt: array<byte>, qEnd: nat) returns (len: nat)
    requires HEADER <= qEnd <= pkt.Length
    modifies pkt
    ensures len == qEnd && pkt[..len] == NxReply(old(pkt[..]), qEnd) && Refuses(pkt[..len], old(pkt[..]), qEnd)
    ensures pkt[len..] == old(pkt[len..])
  {
    hide NxFlags, NxReply, Refuses;
    pkt[2] := NxFlags(pkt[2]);
    pkt[3] := 0x83;
    pkt[4] := 0;
    pkt[5] := 1;
    for i := 6 to 12
      invariant pkt[0] == old(pkt[0]) && pkt[1] == old(pkt[1]) && pkt[2] == NxFlags(old(pkt[2]))
      invariant pkt[3] == 0x83 && pkt[4] == 0 && pkt[5] == 1
      invariant forall k :: 6 <= k < i ==> pkt[k] == 0
      invariant pkt[12..] == old(pkt[12..])
    {
      pkt[i] := 0;
    }
    ghost var was, now := old(pkt[..]), pkt[..];
    assert now[12..] == was[12..];
    Patched(was, now, qEnd);
    assert pkt[..qEnd] == now[..qEnd] && pkt[qEnd..] == now[qEnd..];
    return qEnd;
  }

  lemma NxReplyHeader(pkt: bytes, qEnd: nat)
    requires HEADER <= qEnd <= |pkt|
    ensures var r := NxReply(pkt, qEnd);
            && |r| == qEnd && r[..2] == pkt[..2] && QrSet(r[2]) && r[HEADER..] == pkt[HEADER..qEnd]
            && QueryHeader(r[2 := ClearQr(r[2])])
  {
    FlagBits(pkt[2]);
    FlagBits(NxFlags(pkt[2]));
    hide QrSet, ClearQr, NxFlags;
    var r := NxReply(pkt, qEnd);
    assert r[2] == NxFlags(pkt[2]) && r[5] == 1;
  }

  /** With QR cleared again the reply is a query for the same question and nothing else. */
  lemma NxReplyEchoesQuestion(pkt: bytes, q: Question)
    requires ReadQuestion(pkt) == Some(q)
    ensures var r := NxReply(pkt, q.end);
            && Refuses(r, pkt, q.end) && r[..2] == pkt[..2] && r[HEADER..] == pkt[HEADER..q.end]
            && QrSet(r[2]) && ReadQuestion(r[2 := ClearQr(r[2])]) == Some(q)
  {
    var labels := AcceptedIsEncoding(pkt);
    NxReplyHeader(pkt, q.end);
    NxReplyRefuses(pkt, q.end);
    var r := NxReply(pkt, q.end);
    hide ReadQuestion, Refuses, QueryHeader, QrSet, ClearQr, NxReply, EncodeName, Lower, Dotted;
    var again := r[2 := ClearQr(r[2])];
    assert again[HEADER..] == r[HEADER..];
    assert again[HEADER..q.end - 4] == r[HEADER..][..q.end - 4 - HEADER];
    assert pkt[HEADER..q.end - 4] == pkt[HEADER..q.end][..q.end - 4 - HEADER];
    ParseInvertsEncoding(again, labels, q);
  }
}
