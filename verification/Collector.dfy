/** The collector's node table and datagram buffer, updated in place. */
module Collector {
  import opened Bytes
  import opened Text
  import opened StatsLine
  import opened StatsCollector

  /** First c from p on, or the end of the C string that ends at e. */
  method FindChar(buf: array<byte>, p: nat, e: nat, c: byte) returns (q: nat)
    requires p <= e < buf.Length && buf[e] == 0 && 0 !in buf[p..e] && c != 0
    ensures q == p + IndexOf(buf[p..e], c)
  {
    q := p;
    while buf[q] != 0 && buf[q] != c
      invariant p <= q <= e && c !in buf[p..q]
      decreases e - q
    {
      assert buf[q] == buf[p..e][q - p] || q == e;
      q := q + 1;
    }
    assert q < e ==> buf[q] == buf[p..e][q - p];
    IndexOfUnique(buf[p..e], c, q - p);
  }

  /** First c between p and e, or e. */
  method FindByte(buf: array<byte>, p: nat, e: nat, c: byte) returns (q: nat)
    requires p <= e <= buf.Length
    ensures q == p + IndexOf(buf[p..e], c)
  {
    q := p;
    while q < e && buf[q] != c
      invariant p <= q <= e && c !in buf[p..q]
    {
      q := q + 1;
    }
    assert q < e ==> buf[q] == buf[p..e][q - p];
    IndexOfUnique(buf[p..e], c, q - p);
  }

  lemma NoNulBetween(buf: bytes, start: nat, from: nat, z: nat)
    requires start <= from <= z <= |buf| && 0 !in buf[start..z]
    ensures 0 !in buf[from..z]
  {
    assert buf[from..z] == buf[start..z][from - start..];
  }

  datatype Slot = Slot(used: bool, node: bytes, totals: Totals)

  /** The table read off the slots: the used ones come first and have different names. */
  ghost predicate Matches(slots: seq<Slot>, t: Table) {
    |slots| == MAX_NODES && |t| <= MAX_NODES && FirstMatch(slots, t, |t|)
  }

  ghost predicate FirstMatch(slots: seq<Slot>, t: Table, k: nat) {
    && k <= |slots|
    && (forall i :: 0 <= i < |slots| ==> (slots[i].used <==> i < k))
    && (forall i :: 0 <= i < k ==> slots[i].node in t && t[slots[i].node] == slots[i].totals)
    && (forall i, j :: 0 <= i < j < k ==> slots[i].node != slots[j].node)
    && (forall name :: name in t ==> Holds(slots, k, name))
  }

  ghost predicate Holds(slots: seq<Slot>, k: nat, name: bytes) {
    exists i :: 0 <= i < k <= |slots| && slots[i].node == name
  }

  lemma NotInTable(slots: seq<Slot>, t: Table, name: bytes)
    requires Matches(slots, t) && forall j :: 0 <= j < |t| ==> slots[j].node != name
    ensures name !in t
  {
    assert !Holds(slots, |t|, name);
  }

  lemma SlotClaimed(slots: seq<Slot>, t: Table, k: nat, name: bytes, n: Totals)
    requires FirstMatch(slots, t, k) && name !in t && k < |slots|
    ensures FirstMatch(slots[k := Slot(true, name, n)], t[name := n], k + 1)
  {
    var slots', t' := slots[k := Slot(true, name, n)], t[name := n];
    assert slots'[k].node == name;
    forall other | other in t && other != name ensures Holds(slots', k + 1, other) {
      assert Holds(slots, k, other);
      var i :| 0 <= i < k && slots[i].node == other;
      assert slots'[i].node == other;
    }
  }

  lemma SlotUpdated(slots: seq<Slot>, t: Table, k: nat, j: nat, n: Totals)
    requires FirstMatch(slots, t, k) && j < k
    ensures FirstMatch(slots[j := slots[j].(totals := n)], t[slots[j].node := n], k)
  {
    var slots', t' := slots[j := slots[j].(totals := n)], t[slots[j].node := n];
    forall other | other in t' ensures Holds(slots', k, other) {
      assert Holds(slots, k, other);
      var i :| 0 <= i < k && slots[i].node == other;
      assert slots'[i].node == other;
    }
  }

  ghost function FieldAdded(t: Table, name: bytes, key: bytes, val: bytes): (t': Table)
    requires WellFormedTable(t) && name in t
    ensures WellFormedTable(t') && t'.Keys == t.Keys
  {
    t[name := ApplyTarget(t[name], TargetOf(key), StrToL(val))]
  }

  lemma MatchesFieldAdded(slots: seq<Slot>, t: Table, k: nat, key: bytes, val: bytes)
    requires Matches(slots, t) && WellFormedTable(t) && k < |t|
    ensures var n := slots[k];
            && n.node in t && WellFormed(n.totals.sums)
            && |FieldAdded(t, n.node, key, val)| == |t|
            && Matches(slots[k := n.(totals := ApplyTarget(n.totals, TargetOf(key), StrToL(val)))],
                       FieldAdded(t, n.node, key, val))
  {
    hide TargetOf, StrToL, ApplyTarget;
    SlotUpdated(slots, t, |t|, k, ApplyTarget(slots[k].totals, TargetOf(key), StrToL(val)));
  }

  ghost function TextAdded(t: Table, name: bytes, text: bytes): (t': Table)
    requires WellFormedTable(t) && name in t
    ensures WellFormedTable(t') && t'.Keys == t.Keys
  {
    var eq := IndexOf(text, EQUALS);
    if eq == |text| then t else FieldAdded(t, name, text[..eq], text[eq + 1..])
  }

  ghost function TextsAdded(t: Table, name: bytes, texts: seq<bytes>): (t': Table)
    requires WellFormedTable(t) && name in t
    ensures WellFormedTable(t') && t'.Keys == t.Keys
    ensures texts == [] ==> t' == t
  {
    t[name := ApplyTexts(t[name], texts)]
  }

  lemma TextsAddedNext(t: Table, name: bytes, texts: seq<bytes>, k: nat)
    requires WellFormedTable(t) && name in t && k < |texts|
    ensures TextsAdded(t, name, texts[..k + 1]) == TextAdded(TextsAdded(t, name, texts[..k]), name, texts[k])
  {
    hide ApplyTarget, TargetOf, StrToL, IndexOf;
    assert texts[..k + 1][..k] == texts[..k];
  }

  /** The loop does not visit an empty last piece. */
  lemma AllPiecesAdded(t: Table, name: bytes, s: bytes, texts: seq<bytes>, k: nat)
    requires WellFormedTable(t) && name in t && PieceAt(s, |s|, texts, k, COMMA)
    ensures k <= |texts| && TextsAdded(t, name, texts[..k]) == TextsAdded(t, name, texts)
  {
    hide TextsAdded, FieldAdded, Join, Split;
    if k == |texts| {
      assert texts[..k] == texts;
    } else {
      assert texts[k] == texts[k..][0] && |texts[k..]| == 1;
      TextsAddedNext(t, name, texts, k);
      assert texts[..k + 1] == texts;
    }
  }

  /** Claiming a slot and then adding the fields is the update of the table. */
  lemma ClaimThenAdd(t: Table, node: bytes, text: bytes)
    requires WellFormedTable(t) && (node in t || |t| < MAX_NODES)
    ensures var claimed := if node in t then t else t[node := Fresh()];
            && WellFormedTable(claimed) && node in claimed
            && TextsAdded(claimed, node, Split(text, COMMA)) == Updated(t, About(node, text))
  {
    hide ApplyTexts;
    NodeUpdated(t, node, Fresh(), node);
  }

  /** From field on, the buffer still holds the text that filled it from start to the NUL at e. */
  ghost predicate Reading(buf: bytes, start: nat, field: nat, e: nat, text: bytes) {
    && start <= field <= e < |buf| && buf[e] == 0 && 0 !in text && |text| == e - start
    && forall i :: field <= i < e ==> buf[i] == text[i - start]
  }

  /** The C string at field starts with this comma-free piece, which ends at a comma or at e. */
  ghost predicate PieceHere(buf: bytes, field: nat, e: nat, piece: bytes) {
    && field < e < |buf| && buf[e] == 0 && 0 !in buf[field..e]
    && field + |piece| <= e && COMMA !in piece && (field + |piece| < e ==> buf[field + |piece|] == COMMA)
    && forall i :: 0 <= i < |piece| ==> piece[i] == buf[field + i]
  }

  function After(field: nat, piece: bytes, e: nat): nat {
    if field + |piece| < e then field + |piece| + 1 else e
  }

  lemma NextReading(buf: bytes, start: nat, field: nat, e: nat, text: bytes, parts: seq<bytes>, k: nat)
    requires Reading(buf, start, field, e, text) && PieceAt(text, field - start, parts, k, COMMA)
    requires buf[field] != 0
    ensures k < |parts| && PieceHere(buf, field, e, parts[k])
    ensures var next := After(field, parts[k], e);
            && field < next && Reading(buf, start, next, e, text)
            && PieceAt(text, next - start, parts, k + 1, COMMA)
  {
    PieceBytes(text, field - start, parts, k, COMMA);
    hide PieceAt;
    forall i | 0 <= i < |parts[k]| ensures parts[k][i] == buf[field + i] {
      assert text[field - start + i] == buf[field + i];
    }
  }

  lemma ReadingStarts(buf: bytes, start: nat, e: nat)
    requires start <= e < |buf| && buf[e] == 0 && 0 !in buf[start..e]
    ensures Reading(buf, start, start, e, buf[start..e])
  {
  }

  lemma ReadingKept(was: bytes, buf: bytes, start: nat, field: nat, e: nat, text: bytes)
    requires Reading(was, start, field, e, text) && |buf| == |was| && buf[field..] == was[field..]
    ensures Reading(buf, start, field, e, text)
  {
    assert forall i :: field <= i < |buf| ==> buf[i] == buf[field..][i - field] && was[i] == was[field..][i - field];
  }

  lemma ReadingDone(buf: bytes, start: nat, field: nat, e: nat, text: bytes)
    requires Reading(buf, start, field, e, text) && buf[field] == 0
    ensures field - start == |text|
  {
    assert forall j :: 0 <= j < |text| ==> text[j] != 0;
  }

  class Collector {
    var nodes: array<Slot>
    ghost var table: Table

    ghost predicate Valid()
      reads this, nodes
    {
      Matches(nodes[..], table) && WellFormedTable(table)
    }

    ghost function NameAt(slot: nat): (name: bytes)
      requires Valid() && slot < |table|
      reads this, nodes
      ensures name in table
    {
      nodes[slot].node
    }

    constructor ()
      ensures Valid() && table == map[] && fresh(nodes)
    {
      table := map[];
      nodes := new Slot[MAX_NODES](_ => Slot(false, [], Fresh()));
    }

    /** The slot of a node already known, or the first free one; MAX_NODES if there is none. */
    method Lookup(name: bytes) returns (known: bool, slot: nat)
      requires Valid()
      ensures known <==> name in table
      ensures if known then slot < |table| && NameAt(slot) == name else slot == |table|
    {
      hide WellFormedTable;
      var free := MAX_NODES;
      for i := 0 to MAX_NODES
        invariant forall j :: 0 <= j < i && j < |table| ==> nodes[j].node != name
        invariant free == if i <= |table| then MAX_NODES else |table|
      {
        if nodes[i].used && nodes[i].node == name {
          return true, i;
        }
        if !nodes[i].used && free == MAX_NODES {
          free := i;
        }
      }
      NotInTable(nodes[..], table, name);
      return false, free;
    }

    /** The slot of a node, claimed on first sight; MAX_NODES for an unusable name or a full table. */
    method FindOrCreate(name: bytes) returns (slot: nat)
      requires Valid()
      modifies this`table, nodes
      ensures Valid() && slot <= MAX_NODES
      ensures slot == MAX_NODES <==>
              |name| == 0 || |name| >= NAME_SIZE || (name !in old(table) && |old(table)| >= MAX_NODES)
      ensures table == if slot == MAX_NODES || name in old(table) then old(table) else old(table)[name := Fresh()]
      ensures slot < MAX_NODES ==> slot < |table| && NameAt(slot) == name
    {
      hide FirstMatch, Holds, WellFormed;
      if |name| == 0 || |name| >= NAME_SIZE {
        return MAX_NODES;
      }
      var known;
      known, slot := Lookup(name);
      if !known && slot < MAX_NODES {
        ghost var slots, t := nodes[..][slot := Slot(true, name, Fresh())], table[name := Fresh()];
        SlotClaimed(nodes[..], table, slot, name, Fresh());
        NodeUpdated(table, name, Fresh(), name);
        assert Matches(slots, t) && |t| == |table| + 1;
        hide Matches, FirstMatch, Holds, WellFormed, WellFormedTable;
        nodes[slot] := Slot(true, name, Fresh());
        table := t;
        assert nodes[..] == slots;
      }
    }

    /** One field of a node's line. */
    method AddField(slot: nat, key: bytes, val: bytes)
      requires Valid() && slot < |table|
      modifies this`table, nodes
      ensures Valid() && slot < |table| && NameAt(slot) == old(NameAt(slot))
      ensures table == FieldAdded(old(table), old(NameAt(slot)), key, val)
    {
      MatchesFieldAdded(nodes[..], table, slot, key, val);
      hide TargetOf, StrToL, ApplyTarget, FieldAdded, Matches, WellFormed, WellFormedTable;
      var n := nodes[slot];
      ghost var was := nodes[..];
      nodes[slot] := n.(totals := ApplyTarget(n.totals, TargetOf(key), StrToL(val)));
      table := FieldAdded(table, n.node, key, val);
      assert nodes[..] == was[slot := nodes[slot]];
    }

    /** One comma-separated piece, in place: its comma and its first '=' become NUL. */
    method AddPiece(slot: nat, buf: array<byte>, field: nat, e: nat, ghost piece: bytes) returns (next: nat)
      requires Valid() && slot < |table| && PieceHere(buf[..], field, e, piece)
      modifies this`table, nodes, buf
      ensures Valid() && slot < |table| && NameAt(slot) == old(NameAt(slot))
      ensures next == After(field, piece, e)
      ensures table == TextAdded(old(table), old(NameAt(slot)), piece)
      ensures next <= buf.Length && buf[..][next..] == old(buf[..][next..])
    {
      hide WellFormedTable, Matches, FieldAdded, IndexOf;
      assert buf[field..e][..|piece|] == piece;
      assert field + |piece| < e ==> buf[field..e][|piece|] == COMMA;
      IndexOfUnique(buf[field..e], COMMA, |piece|);
      var comma := FindChar(buf, field, e, COMMA);
      next := e;
      if comma < e {
        buf[comma] := 0;
        next := comma + 1;
      }
      assert buf[field..comma] == piece;
      var eq := FindChar(buf, field, comma, EQUALS);
      if eq < comma {
        var key, val := buf[field..eq], buf[eq + 1..comma];
        assert key == piece[..eq - field] && val == piece[eq - field + 1..];
        buf[eq] := 0;
        AddField(slot, key, val);
      }
    }

    lemma TableWellFormed()
      requires Valid()
      ensures WellFormedTable(table)
    {
    }

    /** The fields of a line, in place. */
    method AddFields(slot: nat, buf: array<byte>, start: nat, e: nat)
      requires Valid() && slot < |table| && start <= e < buf.Length && buf[e] == 0 && 0 !in buf[start..e]
      modifies this`table, nodes, buf
      ensures Valid()
      ensures table == TextsAdded(old(table), old(NameAt(slot)), Split(old(buf[start..e]), COMMA))
    {
      hide *;
      ghost var text, name, before := buf[start..e], NameAt(slot), table;
      TableWellFormed();
      ghost var parts, k := Split(text, COMMA), 0;
      FirstPiece(text, COMMA);
      ReadingStarts(buf[..], start, e);
      assert buf[..][start..e] == text;
      var field := start;
      while buf[field] != 0
        invariant field < buf.Length && Reading(buf[..], start, field, e, text)
        invariant PieceAt(text, field - start, parts, k, COMMA)
        invariant Valid() && slot < |table| && NameAt(slot) == name
        invariant WellFormedTable(before) && name in before
        invariant k <= |parts| && table == TextsAdded(before, name, parts[..k])
        decreases e - field
      {
        NextReading(buf[..], start, field, e, text, parts, k);
        TextsAddedNext(before, name, parts, k);
        ghost var was := buf[..];
        field := AddPiece(slot, buf, field, e, parts[k]);
        ReadingKept(was, buf[..], start, field, e, text);
        k := k + 1;
      }
      ReadingDone(buf[..], start, field, e, text);
      AllPiecesAdded(before, name, text, parts, k);
    }

    /** A line after its prefix: node, space, and fields up to the NUL at z, beyond the line's end at e. */
    method IngestRest(buf: array<byte>, start: nat, e: nat, z: nat)
      requires Valid() && start <= e <= z < buf.Length && buf[z] == 0 && 0 !in buf[start..z]
      modifies this`table, nodes, buf
      ensures Valid()
      ensures table == Updated(old(table), WithTail(NodeAndFields(old(buf[start..e])), old(buf[e..z])))
    {
      hide Split, TextsAdded, ApplyTexts, WellFormedTable, Matches, IndexOf, Before;
      ghost var rest, tail, before := buf[start..e], buf[e..z], table;
      var sp := FindByte(buf, start, e, SPACE);
      if sp == e {
        return;
      }
      var name := buf[start..sp];
      ghost var text := buf[sp + 1..z];
      assert name == rest[..sp - start] && text == rest[sp - start + 1..] + tail;
      assert 0 !in text by { NoNulBetween(buf[..], start, sp + 1, z); }
      buf[sp] := 0;
      var slot := FindOrCreate(name);
      if slot < MAX_NODES {
        ClaimThenAdd(before, name, text);
        assert buf[sp + 1..z] == text;
        AddFields(slot, buf, sp + 1, z);
      }
    }

    /**
     * The line at start, up to a newline or the NUL at e, in a datagram that ends with the NUL at z. The fields
     * are read up to z: a line that is not the last one also gets the text behind its newline.
     */
    method IngestLine(buf: array<byte>, start: nat, e: nat, z: nat)
      requires Valid() && start <= e <= z < buf.Length && buf[z] == 0 && 0 !in buf[start..z]
      modifies this`table, nodes, buf
      ensures Valid()
      ensures table == Updated(old(table), WithTail(ParsedLine(old(buf[start..e])), old(buf[e..z])))
      ensures e == z ==> table == Ingested(old(table), old(buf[start..e]))
    {
      hide Ascii, NodeAndFields, WellFormedTable, Matches;
      ghost var line, tail, before := buf[start..e], buf[e..z], table;
      WholeLine(before, line);
      assert e == z ==> tail == [];
      var body := start + |PREFIX|;
      if body < e && buf[start..body] == PREFIX {
        assert line[..|PREFIX|] == buf[start..body] && line[|PREFIX|..] == buf[body..e];
        assert ParsedLine(line) == NodeAndFields(line[|PREFIX|..]);
        NoNulBetween(buf[..], start, body, z);
        hide ParsedLine, Updated;
        IngestRest(buf, body, e, z);
      } else {
        assert body < e ==> line[..|PREFIX|] == buf[start..body];
        assert ParsedLine(line) == Malformed;
      }
    }
  }
}
