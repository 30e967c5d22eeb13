/** The stats datagram: the sender's format, the collector's number parser, and how they fit together. */
module StatsLine {
  import opened Bytes
  import opened Bits
  import opened Text
  import opened Normalize
  import opened SortedList

  const BUCKETS: nat := 16
  const LONG_MAX: int := 0x7fff_ffff  // long is 32 bits on the device
  const LONG_MIN: int := -0x8000_0000
  const LINE_SIZE: nat := 512

  const COMMA: byte := ',' as int
  const EQUALS: byte := '=' as int
  const SPACE: byte := ' ' as int
  const SUFFIX: byte := 'i' as int

  // ---- counters -----------------------------------------------------------------------------------------

  datatype Counters = Counters(blocked: u32, forwarded: u32, timeouts: u32, latSum: u32, hist: seq<u32>)

  predicate WellFormed(c: Counters) { |c.hist| == BUCKETS }

  const ZERO: Counters := Counters(0, 0, 0, 0, [0, 0, 0, 0, 0, 0, 0, 0, 0, 0, 0, 0, 0, 0, 0, 0])

  function Add32(a: u32, b: int): u32 { (a + b) % TWO_32 }
  function Sub32(a: u32, b: u32): u32 { (a - b) % TWO_32 }

  function Minus(a: Counters, b: Counters): (d: Counters)
    requires WellFormed(a) && WellFormed(b)
    ensures WellFormed(d)
  {
    Counters(Sub32(a.blocked, b.blocked), Sub32(a.forwarded, b.forwarded), Sub32(a.timeouts, b.timeouts),
             Sub32(a.latSum, b.latSum), seq(BUCKETS, i requires 0 <= i < BUCKETS => Sub32(a.hist[i], b.hist[i])))
  }

  function Plus(a: Counters, b: Counters): (s: Counters)
    requires WellFormed(a) && WellFormed(b)
    ensures WellFormed(s)
  {
    Counters(Add32(a.blocked, b.blocked), Add32(a.forwarded, b.forwarded), Add32(a.timeouts, b.timeouts),
             Add32(a.latSum, b.latSum), seq(BUCKETS, i requires 0 <= i < BUCKETS => Add32(a.hist[i], b.hist[i])))
  }

  /** Unsigned subtraction is exact across a wrap: adding the delta back gives the counter. */
  lemma PlusMinus(a: Counters, b: Counters)
    requires WellFormed(a) && WellFormed(b)
    ensures Plus(b, Minus(a, b)) == a
  {
    AddSub(a.blocked, b.blocked);
    AddSub(a.forwarded, b.forwarded);
    AddSub(a.timeouts, b.timeouts);
    AddSub(a.latSum, b.latSum);
    hide Add32, Sub32;
    forall i | 0 <= i < BUCKETS ensures Plus(b, Minus(a, b)).hist[i] == a.hist[i] {
      AddSub(a.hist[i], b.hist[i]);
    }
    assert Plus(b, Minus(a, b)).hist == a.hist;
  }

  lemma AddSub(a: u32, b: u32)
    ensures Add32(b, Sub32(a, b)) == a
  {
  }

  // ---- latency buckets ------------------------------------------------------------------------------------

  /** 32 - clz(us | 1), less 7, clamped to 0..15. */
  function LatBucket(us: u32): (b: nat)
    ensures b < BUCKETS
  {
    var odd := if us % 2 == 0 then us + 1 else us;
    var b := BitLength(odd) - 7;
    if b < 0 then 0 else if b > 15 then 15 else b
  }

  lemma Pow2Even(n: nat)
    requires n > 0
    ensures Pow2(n) % 2 == 0
  {
  }

  /** Bucket 0 is below 128 us, bucket b covers [2^(b+6), 2^(b+7)), and the last one everything from 2^21 us. */
  lemma BucketEdges(us: u32)
    ensures var b := LatBucket(us);
            && (b > 0 ==> Pow2(b + 6) <= us)
            && b <= 15 && (b < 15 ==> us < Pow2(b + 7))
  {
    var odd := if us % 2 == 0 then us + 1 else us;
    hide BitLength, Pow2;
    BitLengthIsLog(odd);
    EdgesOfLog(us, odd, BitLength(odd), LatBucket(us));
  }

  lemma EdgesOfLog(us: nat, odd: nat, n: nat, b: nat)
    requires odd % 2 == 1 && us <= odd <= us + 1 && n > 0 && Pow2(n - 1) <= odd < Pow2(n)
    requires b == if n < 7 then 0 else if n > 22 then 15 else n - 7
    ensures b > 0 ==> Pow2(b + 6) <= us
    ensures b < 15 ==> us < Pow2(b + 7)
  {
    hide Pow2;
    Pow2Even(b + 6);
    if b > 0 {
      Pow2Monotone(b + 6, n - 1);
    }
    if b < 15 {
      Pow2Monotone(n, b + 7);
    }
  }

  // ---- numbers -----------------------------------------------------------------------------------------------

  function Digit(d: nat): byte
    requires d < 10
  {
    '0' as int + d
  }

  /** Decimal, without leading zeros. */
  function Dec(n: nat): (s: bytes)
    ensures |s| >= 1
  {
    if n < 10 then [Digit(n)] else Dec(n / 10) + [Digit(n % 10)]
  }

  /** The value of the leading digits of s, continuing from acc. */
  function DigitsValue(s: bytes, acc: nat): nat {
    if s == [] || !IsDigit(s[0]) then acc else DigitsValue(s[1..], 10 * acc + (s[0] - '0' as int))
  }

  function Clamp(v: int): int { if v > LONG_MAX then LONG_MAX else if v < LONG_MIN then LONG_MIN else v }

  /** strtol, base 10: white space, a sign, digits; saturating; 0 without digits. */
  function StrToL(s: bytes): (v: int)
    ensures LONG_MIN <= v <= LONG_MAX
  {
    var t := TrimStart(s);
    if t != [] && t[0] == '-' as int then Clamp(0 - (DigitsValue(t[1..], 0) as int))
    else if t != [] && t[0] == '+' as int then Clamp(DigitsValue(t[1..], 0))
    else Clamp(DigitsValue(t, 0))
  }

  predicate AllDigits(s: bytes) { forall i :: 0 <= i < |s| ==> IsDigit(s[i]) }

  lemma {:induction false} DigitsThenRest(s: bytes, rest: bytes, acc: nat)
    requires AllDigits(s) && (rest == [] || !IsDigit(rest[0]))
    ensures DigitsValue(s + rest, acc) == DigitsValue(s, acc)
  {
    if s != [] {
      assert (s + rest)[1..] == s[1..] + rest;
      DigitsThenRest(s[1..], rest, 10 * acc + (s[0] - '0' as int));
    } else {
      assert s + rest == rest;
    }
  }

  lemma {:induction false} DigitsSnoc(s: bytes, d: nat, acc: nat)
    requires AllDigits(s) && d < 10
    ensures DigitsValue(s + [Digit(d)], acc) == 10 * DigitsValue(s, acc) + d
  {
    if s != [] {
      assert (s + [Digit(d)])[1..] == s[1..] + [Digit(d)];
      DigitsSnoc(s[1..], d, 10 * acc + (s[0] - '0' as int));
    } else {
      assert s + [Digit(d)] == [Digit(d)] && [Digit(d)][1..] == [];
    }
  }

  lemma {:induction false} DecValue(n: nat)
    ensures AllDigits(Dec(n)) && DigitsValue(Dec(n), 0) == n
  {
    if n >= 10 {
      DecValue(n / 10);
      DigitsSnoc(Dec(n / 10), n % 10, 0);
    } else {
      assert [Digit(n)][1..] == [];
    }
  }

  /** The collector reads a printed count back exactly when it fits a 32-bit long; a larger one saturates. */
  lemma PrintedCountReadBack(n: nat, rest: bytes)
    requires rest == [] || !IsDigit(rest[0])
    ensures StrToL(Dec(n) + rest) == if n <= 0x7fff_ffff then n else 0x7fff_ffff
  {
    DecValue(n);
    var s := Dec(n) + rest;
    assert s[0] == Dec(n)[0] && IsDigit(s[0]);
    assert TrimStart(s) == s;
    DigitsThenRest(Dec(n), rest, 0);
  }

  /** A printed number. */
  lemma PrintedVector()
    ensures Dec(40961) == Ascii("40961")
  {
    assert Dec(4096) == [52, 48, 57, 54];
  }

  /** A number that is read. */
  lemma ReadVector()
    ensures StrToL(Ascii(" -12i")) == -12
  {
    var s := Ascii(" -12i");
    assert s == [32, 45, 49, 50, 105] && s[1..] == [45, 49, 50, 105] && s[1..][1..] == [49, 50, 105];
    assert TrimStart(s[1..]) == s[1..];
    assert [49, 50, 105][1..] == [50, 105] && [50, 105][1..] == [105];
    assert DigitsValue([105], 12) == 12 && DigitsValue([50, 105], 1) == 12;
  }

  lemma {:induction false} DecLength(n: nat, k: nat)
    requires k >= 1 && n < Pow10(k)
    ensures |Dec(n)| <= k
    decreases k
  {
    if n >= 10 {
      DecLength(n / 10, k - 1);
    }
  }

  function Pow10(k: nat): nat { if k == 0 then 1 else 10 * Pow10(k - 1) }

  // ---- fields --------------------------------------------------------------------------------------------

  /** Which total a field adds to. */
  datatype Target = Blocked | Forwarded | Timeouts | LatSum | Uptime | Hist(bucket: nat) | Ignored

  const PREFIX: bytes := Ascii("esphole,node=")

  /** The field name the sender prints. */
  function KeyOf(t: Target): bytes
    requires t.Hist? ==> t.bucket < BUCKETS
  {
    match t
    case Blocked => Ascii("blocked")
    case Forwarded => Ascii("forwarded")
    case Timeouts => Ascii("timeouts")
    case LatSum => Ascii("lat_sum_us")
    case Uptime => Ascii("uptime_s")
    case Hist(b) => ['h' as int] + Dec(b)
    case Ignored => []
  }

  /** What the collector makes of a field name. */
  function TargetOf(key: bytes): (t: Target)
    ensures t.Hist? ==> t.bucket < BUCKETS
  {
    if key == Ascii("blocked") then Blocked
    else if key == Ascii("forwarded") then Forwarded
    else if key == Ascii("timeouts") then Timeouts
    else if key == Ascii("lat_sum_us") then LatSum
    else if key == Ascii("uptime_s") then Uptime
    else if |key| >= 2 && key[0] == 'h' as int && IsDigit(key[1]) then
      var b := StrToL(key[1..]);
      if 0 <= b < BUCKETS then Hist(b) else Ignored
    else Ignored
  }

  predicate PlainKey(key: bytes) { EQUALS !in key && COMMA !in key && 0 !in key && 0 < |key| <= 10 }

  lemma CountKeys()
    ensures TargetOf(Ascii("blocked")) == Blocked && PlainKey(Ascii("blocked"))
    ensures TargetOf(Ascii("forwarded")) == Forwarded && PlainKey(Ascii("forwarded"))
    ensures TargetOf(Ascii("timeouts")) == Timeouts && PlainKey(Ascii("timeouts"))
  {
    assert Ascii("blocked")[0] == 'b' as int && Ascii("forwarded")[0] == 'f' as int;
    assert Ascii("timeouts")[0] == 't' as int;
  }

  lemma TimeKeys()
    ensures TargetOf(Ascii("lat_sum_us")) == LatSum && PlainKey(Ascii("lat_sum_us"))
    ensures TargetOf(Ascii("uptime_s")) == Uptime && PlainKey(Ascii("uptime_s"))
  {
    assert Ascii("blocked")[0] == 'b' as int && Ascii("forwarded")[0] == 'f' as int;
    assert Ascii("timeouts")[0] == 't' as int && Ascii("lat_sum_us")[0] == 'l' as int;
    assert Ascii("uptime_s")[0] == 'u' as int;
  }

  /** A name that starts with 'h' and a digit is none of the others. */
  lemma HistogramKey(key: bytes)
    requires |key| >= 2 && key[0] == 'h' as int && IsDigit(key[1]) && 0 <= StrToL(key[1..]) < BUCKETS
    ensures TargetOf(key) == Hist(StrToL(key[1..]))
  {
    hide StrToL;
    assert Ascii("blocked")[0] == 'b' as int && Ascii("forwarded")[0] == 'f' as int;
    assert Ascii("timeouts")[0] == 't' as int && Ascii("lat_sum_us")[0] == 'l' as int;
    assert Ascii("uptime_s")[0] == 'u' as int;
  }

  lemma HistKeyUnderstood(b: nat)
    requires b < BUCKETS
    ensures TargetOf(KeyOf(Hist(b))) == Hist(b) && PlainKey(KeyOf(Hist(b)))
  {
    var key, digits := KeyOf(Hist(b)), Dec(b);
    DecValue(b);
    assert key[0] == 'h' as int && key[1] == digits[0] && key[1..] == digits + [];
    PrintedCountReadBack(b, []);
    DecLength(b, 2);
    hide Dec, StrToL, TargetOf;
    HistogramKey(key);
    assert forall i :: 0 < i < |key| ==> key[i] == digits[i - 1];
  }

  /** Every printed name is understood: h0..h15 in their own buckets, nothing confused with anything else. */
  lemma KeysUnderstood(t: Target)
    requires !t.Ignored? && (t.Hist? ==> t.bucket < BUCKETS)
    ensures TargetOf(KeyOf(t)) == t && PlainKey(KeyOf(t))
  {
    hide TargetOf, PlainKey;
    CountKeys();
    TimeKeys();
    if t.Hist? {
      HistKeyUnderstood(t.bucket);
    }
  }

  /** And each of the five names is the only one for its total. */
  lemma NamesAreUnique(key: bytes)
    ensures TargetOf(key) == Blocked <==> key == Ascii("blocked")
    ensures TargetOf(key) == Forwarded <==> key == Ascii("forwarded")
    ensures TargetOf(key) == Timeouts <==> key == Ascii("timeouts")
    ensures TargetOf(key) == LatSum <==> key == Ascii("lat_sum_us")
    ensures TargetOf(key) == Uptime <==> key == Ascii("uptime_s")
  {
    CountKeys();
    TimeKeys();
    hide Ascii, StrToL;
  }

  datatype Field = Field(target: Target, value: nat)

  function FieldText(f: Field): bytes
    requires f.target.Hist? ==> f.target.bucket < BUCKETS
  {
    KeyOf(f.target) + [EQUALS] + Dec(f.value) + [SUFFIX]
  }

  function HistFields(hist: seq<u32>): (fs: seq<Field>)
    requires |hist| == BUCKETS
    ensures |fs| == BUCKETS
  {
    seq(BUCKETS, b requires 0 <= b < BUCKETS => Field(Hist(b), hist[b]))
  }

  /** The fields of one report, in the printed order. */
  function Fields(d: Counters, uptime: nat): (fs: seq<Field>)
    requires WellFormed(d)
    ensures |fs| == 5 + BUCKETS
  {
    [Field(Blocked, d.blocked), Field(Forwarded, d.forwarded), Field(Timeouts, d.timeouts),
     Field(LatSum, d.latSum), Field(Uptime, uptime)] + HistFields(d.hist)
  }

  predicate Printable(fs: seq<Field>) {
    forall i :: 0 <= i < |fs| ==> !fs[i].target.Ignored? && (fs[i].target.Hist? ==> fs[i].target.bucket < BUCKETS)
  }

  function FieldTexts(fs: seq<Field>): (ts: seq<bytes>)
    requires Printable(fs)
    ensures |ts| == |fs|
  {
    seq(|fs|, i requires 0 <= i < |fs| => FieldText(fs[i]))
  }

  /** The line snprintf produces. */
  function Line(node: bytes, d: Counters, uptime: nat): bytes
    requires WellFormed(d)
  {
    PREFIX + node + [SPACE] + Join(FieldTexts(Fields(d, uptime)), COMMA)
  }

  /** A field as it reads. */
  function Shown(key: string, value: nat): bytes { Ascii(key) + Dec(value) + Ascii("i") }

  /** The histogram fields as they read, h0 to h15. */
  function HistTexts(hist: seq<u32>): (ts: seq<bytes>)
    requires |hist| == 16
    ensures |ts| == 16
  {
    seq(16, b requires 0 <= b < 16 => Ascii("h") + Dec(b) + Shown("=", hist[b]))
  }

  /** A report as it reads: the report's name and node, then 21 fields with commas between them. */
  lemma LineReads(node: bytes, d: Counters, uptime: nat)
    requires WellFormed(d)
    ensures Line(node, d, uptime) == Ascii("esphole,node=") + node + Ascii(" ") +
              Join([Shown("blocked=", d.blocked), Shown("forwarded=", d.forwarded), Shown("timeouts=", d.timeouts),
                    Shown("lat_sum_us=", d.latSum), Shown("uptime_s=", uptime)] + HistTexts(d.hist), 44)
  {
    hide *;
    NamedRead(d, uptime);
    HistReads(d, uptime);
    LineJoins(node, d, uptime);
  }

  lemma LineJoins(node: bytes, d: Counters, uptime: nat)
    requires WellFormed(d)
    ensures var ts := FieldTexts(Fields(d, uptime));
            Line(node, d, uptime) == Ascii("esphole,node=") + node + Ascii(" ") + Join(ts[..5] + ts[5..], 44)
  {
    assert Ascii(" ") == [SPACE];
    hide FieldTexts, Fields, Ascii, Join;
    var ts := FieldTexts(Fields(d, uptime));
    assert ts == ts[..5] + ts[5..];
  }

  lemma NamedRead(d: Counters, uptime: nat)
    requires WellFormed(d)
    ensures FieldTexts(Fields(d, uptime))[..5] ==
              [Shown("blocked=", d.blocked), Shown("forwarded=", d.forwarded), Shown("timeouts=", d.timeouts),
               Shown("lat_sum_us=", d.latSum), Shown("uptime_s=", uptime)]
  {
    hide FieldText, Shown;
    CountsRead(d.blocked, d.forwarded, d.timeouts);
    TimesRead(d.latSum, uptime);
    var ts := FieldTexts(Fields(d, uptime));
    assert ts[..5] == [ts[0], ts[1], ts[2], ts[3], ts[4]];
  }

  lemma CountsRead(blocked: nat, forwarded: nat, timeouts: nat)
    ensures FieldText(Field(Blocked, blocked)) == Shown("blocked=", blocked)
    ensures FieldText(Field(Forwarded, forwarded)) == Shown("forwarded=", forwarded)
    ensures FieldText(Field(Timeouts, timeouts)) == Shown("timeouts=", timeouts)
  {
    hide FieldText, Shown;
    FieldReads(Field(Blocked, blocked), "blocked=");
    FieldReads(Field(Forwarded, forwarded), "forwarded=");
    FieldReads(Field(Timeouts, timeouts), "timeouts=");
  }

  lemma TimesRead(latSum: nat, uptime: nat)
    ensures FieldText(Field(LatSum, latSum)) == Shown("lat_sum_us=", latSum)
    ensures FieldText(Field(Uptime, uptime)) == Shown("uptime_s=", uptime)
  {
    hide FieldText, Shown;
    FieldReads(Field(LatSum, latSum), "lat_sum_us=");
    FieldReads(Field(Uptime, uptime), "uptime_s=");
  }

  lemma HistReads(d: Counters, uptime: nat)
    requires WellFormed(d)
    ensures FieldTexts(Fields(d, uptime))[5..] == HistTexts(d.hist)
  {
    var ts := FieldTexts(Fields(d, uptime));
    hide FieldText, Dec, Shown;
    forall b | 0 <= b < 16 ensures ts[5 + b] == HistTexts(d.hist)[b] {
      assert Fields(d, uptime)[5 + b] == HistFields(d.hist)[b];
      HistRead(b, d.hist[b]);
    }
  }

  lemma HistRead(b: nat, v: nat)
    requires b < 16
    ensures FieldText(Field(Hist(b), v)) == Ascii("h") + Dec(b) + Shown("=", v)
  {
    hide Dec;
    assert Ascii("h") == ['h' as int] && Ascii("=") == [EQUALS] && Ascii("i") == [SUFFIX];
  }

  lemma FieldReads(f: Field, key: string)
    requires !f.target.Hist? && Ascii(key) == KeyOf(f.target) + [EQUALS]
    ensures FieldText(f) == Shown(key, f.value)
  {
    hide Dec;
    assert Ascii("i") == [SUFFIX];
  }

  /** Printed texts contain no separators besides their own. */
  lemma FieldTextFree(f: Field)
    requires !f.target.Ignored? && (f.target.Hist? ==> f.target.bucket < BUCKETS)
    ensures Free(FieldText(f), COMMA) && Free(FieldText(f), 0) && FieldText(f) != []
    ensures IndexOf(FieldText(f), EQUALS) == |KeyOf(f.target)|
  {
    KeysUnderstood(f.target);
    DecValue(f.value);
    var key, digits, text := KeyOf(f.target), Dec(f.value), FieldText(f);
    hide KeyOf, Dec, TargetOf;
    assert forall i :: 0 <= i < |digits| ==> digits[i] != COMMA && digits[i] != 0;
    assert forall i :: 0 <= i < |key| ==> key[i] != EQUALS && text[i] == key[i];
    IndexOfUnique(text, EQUALS, |key|);
  }

  // ---- length ------------------------------------------------------------------------------------------------

  lemma {:induction false} JoinAppend(a: seq<bytes>, b: seq<bytes>, c: byte)
    requires |a| >= 1 && |b| >= 1
    ensures Join(a + b, c) == Join(a, c) + [c] + Join(b, c)
  {
    if |a| == 1 {
      assert (a + b)[1..] == b;
    } else {
      assert (a + b)[1..] == a[1..] + b;
      JoinAppend(a[1..], b, c);
    }
  }

  lemma {:induction false} JoinLength(ts: seq<bytes>, c: byte, k: nat)
    requires |ts| >= 1 && forall i :: 0 <= i < |ts| ==> |ts[i]| <= k
    ensures |Join(ts, c)| <= |ts| * (k + 1) - 1
  {
    if |ts| > 1 {
      JoinLength(ts[1..], c, k);
      assert |ts| * (k + 1) == (|ts| - 1) * (k + 1) + (k + 1);
    }
  }

  lemma FieldLength(f: Field, k: nat)
    requires !f.target.Ignored? && (f.target.Hist? ==> f.target.bucket < BUCKETS) && k >= 1 && f.value < Pow10(k)
    ensures |FieldText(f)| <= k + 12
    ensures f.target.Hist? ==> |FieldText(f)| <= k + 5
  {
    KeysUnderstood(f.target);
    DecLength(f.value, k);
    if f.target.Hist? {
      DecLength(f.target.bucket, 2);
    }
  }

  /** A line always fits the 512-byte buffer: a dotted quad has at most 15 characters, an uptime 13 digits. */
  lemma LineFits(node: bytes, d: Counters, uptime: nat)
    requires WellFormed(d) && |node| <= 15 && uptime < Pow10(13)
    ensures |Line(node, d, uptime)| < LINE_SIZE
  {
    var fs := Fields(d, uptime);
    var ts := FieldTexts(fs);
    assert Pow10(10) >= TWO_32;
    assert Pow10(13) >= Pow10(10);
    forall i | 0 <= i < 5 ensures |ts[i]| <= 25 {
      FieldLength(fs[i], 13);
    }
    forall i | 5 <= i < 5 + BUCKETS ensures |ts[i]| <= 15 {
      assert fs[i] == HistFields(d.hist)[i - 5];
      FieldLength(fs[i], 10);
    }
    assert ts == ts[..5] + ts[5..];
    hide FieldTexts, Fields;
    JoinAppend(ts[..5], ts[5..], COMMA);
    JoinLength(ts[..5], COMMA, 25);
    JoinLength(ts[5..], COMMA, 15);
  }
}
