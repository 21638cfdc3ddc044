/**
The strict timestamp parser, on bytes. The grammar of section 5.6 of RFC 3339 is given by a printer
of structured stamps; the parser is proved to accept exactly what that printer prints and to return
the instant the stamp denotes.
*/
module Rfc3339 {
  import opened Bytes
  import opened Calendar

  /**
  What an arithmetic step yields: a value, a rejection, or a subtraction below zero in an unsigned
  type. The last is a panic where overflow checks are on and a rejection where they are off.
  */
  datatype Checked<+T> = Value(value: T) | Absent | Underflow {
    predicate IsFailure() { !Value? }

    function PropagateFailure<U>(): Checked<U>
      requires IsFailure()
    {
      if Absent? then Absent else Underflow
    }

    function Extract(): T
      requires !IsFailure()
    {
      value
    }
  }

  /** Seconds since 1970-01-01T00:00:00Z and nanoseconds within the second. */
  datatype Instant = Instant(seconds: int, nanos: nat)

  datatype Clock = Clock(date: Date, hour: nat, minute: nat, second: nat)

  const DASH: Byte := 45
  const PLUS: Byte := 43
  const DOT: Byte := 46
  const COLON: Byte := 58
  const ZERO: Byte := 48
  const UPPER_T: Byte := 84
  const LOWER_T: Byte := 116
  const UPPER_Z: Byte := 90
  const LOWER_Z: Byte := 122

  predicate IsDigit(b: Byte) {
    48 <= b <= 57
  }

  predicate IsZulu(b: Byte) {
    b == UPPER_Z || b == LOWER_Z
  }

  predicate IsSign(b: Byte) {
    b == PLUS || b == DASH
  }

  lemma CharacterCodes()
    ensures DASH == '-' as int && PLUS == '+' as int && DOT == '.' as int && COLON == ':' as int && ZERO == '0' as int
    ensures UPPER_T == 'T' as int && LOWER_T == 't' as int && UPPER_Z == 'Z' as int && LOWER_Z == 'z' as int
  {
  }

  // -- the parser -----------------------------------------------------------------------------

  /** The digit fold. The source subtracts '0' from every byte it looks at before it tests the byte. */
  function Digits(value: seq<Byte>): Checked<nat> {
    if value == [] then Value(0) else
      var number :- Digits(value[..|value| - 1]);
      var byte := value[|value| - 1];
      if byte < ZERO then Underflow
      else if IsDigit(byte) then Value(number * 10 + (byte - ZERO))
      else Absent
  }

  predicate Separated(b: seq<Byte>) {
    && |b| >= 20
    && b[4] == DASH && b[7] == DASH
    && (b[10] == UPPER_T || b[10] == LOWER_T)
    && b[13] == COLON && b[16] == COLON
  }

  function ReadClock(b: seq<Byte>): Checked<Clock>
    requires |b| >= 20
  {
    var year :- Digits(b[0..4]);
    var month :- Digits(b[5..7]);
    var day :- Digits(b[8..10]);
    var hour :- Digits(b[11..13]);
    var minute :- Digits(b[14..16]);
    var second :- Digits(b[17..19]);
    Value(Clock(Date(year, month, day), hour, minute, second))
  }

  predicate ClockInRange(c: Clock) {
    && c.date.year != 0
    && 1 <= c.date.month <= 12
    && c.date.day != 0 && c.date.day <= DaysInMonth(c.date.year, c.date.month)
    && c.hour <= 23 && c.minute <= 59 && c.second <= 59
  }

  /** The last position of a sign, or -1. */
  function LastSign(b: seq<Byte>): (r: int)
    ensures -1 <= r < |b|
    ensures r >= 0 ==> IsSign(b[r])
    ensures forall i :: r < i < |b| ==> !IsSign(b[i])
  {
    if b == [] then -1
    else if IsSign(b[|b| - 1]) then |b| - 1
    else LastSign(b[..|b| - 1])
  }

  function ZoneStart(b: seq<Byte>): int
    requires b != []
  {
    if IsZulu(b[|b| - 1]) then |b| - 1 else LastSign(b)
  }

  function Pow10(n: nat): nat {
    if n == 0 then 1 else 10 * Pow10(n - 1)
  }

  function ReadNanos(fraction: seq<Byte>): Checked<nat> {
    if fraction == [] then Value(0)
    else if fraction[0] != DOT || |fraction| == 1 || |fraction| > 10 ||
            !(forall i :: 1 <= i < |fraction| ==> IsDigit(fraction[i]))
    then Absent
    else
      var number :- Digits(fraction[1..]);
      Value(number * Pow10(10 - |fraction|))
  }

  function ReadOffset(zone: seq<Byte>): Checked<int>
    requires zone != []
  {
    if |zone| != 6 || zone[3] != COLON then Absent else
      var hours :- Digits(zone[1..3]);
      var minutes :- Digits(zone[4..6]);
      if hours > 23 || minutes > 59 then Absent
      else if zone[0] == DASH then Value(-(hours * 3600 + minutes * 60))
      else Value(hours * 3600 + minutes * 60)
  }

  /** The fraction and the zone, which follow the nineteen bytes of the clock. */
  datatype Tail = Tail(nanos: nat, offset: int)

  function ReadTail(b: seq<Byte>): Checked<Tail>
    requires |b| >= 20
  {
    var zoneStart := ZoneStart(b);
    if zoneStart < 19 then Absent else
      var nanos :- ReadNanos(b[19..zoneStart]);
      var offset :- if IsZulu(b[|b| - 1]) then Value(0) else ReadOffset(b[zoneStart..]);
      Value(Tail(nanos, offset))
  }

  function LocalSeconds(c: Clock): int {
    DaysFromCivil(c.date) * 86_400 + c.hour * 3600 + c.minute * 60 + c.second
  }

  function Parse(b: seq<Byte>): Checked<Instant> {
    if !Separated(b) then Absent else
      var clock :- ReadClock(b);
      if !ClockInRange(clock) then Absent else
        var tail :- ReadTail(b);
        Value(Instant(LocalSeconds(clock) - tail.offset, tail.nanos))
  }

  // -- the grammar ----------------------------------------------------------------------------

  datatype Zone = Zulu(upper: bool) | Shift(negative: bool, hours: nat, minutes: nat)

  /** A date-time of section 5.6; `fraction` holds the digits after the dot, none for no fraction. */
  datatype Stamp = Stamp(clock: Clock, upperT: bool, fraction: seq<nat>, zone: Zone)

  ghost predicate ValidZone(z: Zone) {
    z.Shift? ==> z.hours <= 23 && z.minutes <= 59
  }

  ghost predicate ValidFraction(fraction: seq<nat>) {
    |fraction| <= 9 && forall i :: 0 <= i < |fraction| ==> fraction[i] <= 9
  }

  ghost predicate ValidClock(c: Clock) {
    1 <= c.date.year <= 9999 && ValidDate(c.date) && c.hour <= 23 && c.minute <= 59 && c.second <= 59
  }

  ghost predicate ValidStamp(s: Stamp) {
    ValidClock(s.clock) && ValidFraction(s.fraction) && ValidZone(s.zone)
  }

  function Two(n: nat): seq<Byte>
    requires n < 100
  {
    [ZERO + n / 10, ZERO + n % 10]
  }

  function Four(n: nat): seq<Byte>
    requires n < 10_000
  {
    Two(n / 100) + Two(n % 100)
  }

  ghost function PrintClock(c: Clock, upperT: bool): seq<Byte>
    requires ValidClock(c)
  {
    Four(c.date.year) + [DASH] + Two(c.date.month) + [DASH] + Two(c.date.day) +
    [if upperT then UPPER_T else LOWER_T] +
    Two(c.hour) + [COLON] + Two(c.minute) + [COLON] + Two(c.second)
  }

  ghost function PrintDigits(ds: seq<nat>): seq<Byte>
    requires ValidFraction(ds)
  {
    seq(|ds|, i requires 0 <= i < |ds| => ZERO + ds[i])
  }

  ghost function PrintFraction(ds: seq<nat>): seq<Byte>
    requires ValidFraction(ds)
  {
    if ds == [] then [] else [DOT] + PrintDigits(ds)
  }

  ghost function PrintZone(z: Zone): seq<Byte>
    requires ValidZone(z)
  {
    match z
    case Zulu(upper) => [if upper then UPPER_Z else LOWER_Z]
    case Shift(negative, hours, minutes) => [if negative then DASH else PLUS] + Two(hours) + [COLON] + Two(minutes)
  }

  ghost function Print(s: Stamp): seq<Byte>
    requires ValidStamp(s)
  {
    PrintClock(s.clock, s.upperT) + PrintFraction(s.fraction) + PrintZone(s.zone)
  }

  // -- what a stamp denotes -------------------------------------------------------------------

  /** Each fraction digit at its decimal weight. */
  ghost function FractionNanos(ds: seq<nat>): nat
    requires |ds| <= 9
  {
    if ds == [] then 0 else FractionNanos(ds[..|ds| - 1]) + ds[|ds| - 1] * Pow10(9 - |ds|)
  }

  ghost function ZoneSeconds(z: Zone): int {
    match z
    case Zulu(_) => 0
    case Shift(negative, hours, minutes) => (if negative then -1 else 1) * (hours * 3600 + minutes * 60)
  }

  ghost function UtcSeconds(s: Stamp): int
    requires ValidStamp(s)
  {
    CountedDays(s.clock.date) * 86_400 + s.clock.hour * 3600 + s.clock.minute * 60 + s.clock.second - ZoneSeconds(s.zone)
  }

  /** Nanoseconds since the epoch: the chronological position of a stamp. */
  ghost function Chronological(s: Stamp): int
    requires ValidStamp(s)
  {
    UtcSeconds(s) * 1_000_000_000 + FractionNanos(s.fraction)
  }

  ghost function Denoted(s: Stamp): Instant
    requires ValidStamp(s)
  {
    Instant(UtcSeconds(s), FractionNanos(s.fraction))
  }

  // -- digit fields ---------------------------------------------------------------------------

  ghost predicate AllDigits(f: seq<Byte>) {
    forall i :: 0 <= i < |f| ==> IsDigit(f[i])
  }

  /** A byte below '0' is reached after digits only. */
  ghost predicate LowByteFirst(f: seq<Byte>) {
    exists k :: 0 <= k < |f| && f[k] < ZERO && AllDigits(f[..k])
  }

  lemma {:induction false} DigitsOutcome(f: seq<Byte>)
    ensures Digits(f).Value? <==> AllDigits(f)
    ensures Digits(f).Value? ==> Digits(f).value < Pow10(|f|)
    ensures Digits(f).Underflow? <==> LowByteFirst(f)
  {
    if f != [] {
      var last := |f| - 1;
      var init := f[..last];
      DigitsOutcome(init);
      assert forall k :: 0 <= k <= last ==> init[..k] == f[..k];
      assert Pow10(|f|) == 10 * Pow10(last);
      if LowByteFirst(init) {
        var k :| 0 <= k < |init| && init[k] < ZERO && AllDigits(init[..k]);
        assert f[k] == init[k] && AllDigits(f[..k]);
        assert !AllDigits(f);
      } else if LowByteFirst(f) {
        var k :| 0 <= k < |f| && f[k] < ZERO && AllDigits(f[..k]);
        assert init[..k] == f[..k];
        assert k == last;
        assert f[..last] == init;
      } else if AllDigits(init) {
        assert f[..last] == init;
      } else {
        assert !AllDigits(f) by { var k :| 0 <= k < |init| && !IsDigit(init[k]); assert f[k] == init[k]; }
      }
    }
  }

  lemma TwoDigits(f: seq<Byte>)
    requires |f| == 2
    ensures AllDigits(f) ==> Digits(f) == Value((f[0] - ZERO) * 10 + (f[1] - ZERO)) && Two(Digits(f).value) == f
  {
    if AllDigits(f) {
      assert f[..1] == [f[0]] && [f[0]][..0] == [];
      assert Digits([]) == Value(0);
      assert Digits([f[0]]) == Value(f[0] - ZERO);
    }
  }

  lemma {:induction false} DigitsAppend(a: seq<Byte>, x: Byte, y: Byte)
    requires Digits(a).Value? && IsDigit(x) && IsDigit(y)
    ensures Digits(a + [x, y]) == Value(Digits(a).value * 100 + (x - ZERO) * 10 + (y - ZERO))
  {
    assert (a + [x, y])[..|a| + 1] == a + [x];
    assert (a + [x])[..|a|] == a;
  }

  lemma FourDigits(f: seq<Byte>)
    requires |f| == 4
    ensures AllDigits(f) ==> Digits(f).Value? && Digits(f).value < 10_000 && Four(Digits(f).value) == f
  {
    if AllDigits(f) {
      var a, b: seq<Byte> := [f[0], f[1]], [f[2], f[3]];
      TwoDigits(a);
      TwoDigits(b);
      assert f == a + b;
      DigitsAppend(a, f[2], f[3]);
      Hundreds(Digits(a).value, Digits(b).value);
    }
  }

  lemma Hundreds(hi: nat, lo: nat)
    requires hi < 100 && lo < 100
    ensures (hi * 100 + lo) / 100 == hi && (hi * 100 + lo) % 100 == lo
  {
  }

  lemma TwoReads(n: nat)
    requires n < 100
    ensures AllDigits(Two(n)) && Digits(Two(n)) == Value(n)
  {
    TwoDigits(Two(n));
  }

  lemma FourReads(n: nat)
    requires n < 10_000
    ensures AllDigits(Four(n)) && Digits(Four(n)) == Value(n)
  {
    TwoReads(n / 100);
    TwoReads(n % 100);
    DigitsAppend(Two(n / 100), Two(n % 100)[0], Two(n % 100)[1]);
    assert Four(n) == Two(n / 100) + [Two(n % 100)[0], Two(n % 100)[1]];
  }

  // -- the parts of a printed stamp -----------------------------------------------------------

  /** A printed clock, whatever follows it, is read back. */
  lemma ClockReads(c: Clock, upperT: bool, rest: seq<Byte>)
    requires ValidClock(c) && rest != []
    ensures Separated(PrintClock(c, upperT) + rest)
    ensures ReadClock(PrintClock(c, upperT) + rest) == Value(c)
    ensures ClockInRange(c)
  {
    var b := PrintClock(c, upperT) + rest;
    FourReads(c.date.year);
    TwoReads(c.date.month);
    TwoReads(c.date.day);
    TwoReads(c.hour);
    TwoReads(c.minute);
    TwoReads(c.second);
    assert b[0..4] == Four(c.date.year);
    assert b[5..7] == Two(c.date.month);
    assert b[8..10] == Two(c.date.day);
    assert b[11..13] == Two(c.hour);
    assert b[14..16] == Two(c.minute);
    assert b[17..19] == Two(c.second);
  }

  /** What is read as a clock was printed from it. */
  lemma ClockPrints(b: seq<Byte>)
    requires Separated(b) && ReadClock(b).Value? && ClockInRange(ReadClock(b).value)
    ensures ValidClock(ReadClock(b).value)
    ensures b[..19] == PrintClock(ReadClock(b).value, b[10] == UPPER_T)
  {
    var c := ReadClock(b).value;
    DigitsOutcome(b[0..4]);
    FourDigits(b[0..4]);
    PairPrints(b, 5);
    PairPrints(b, 8);
    PairPrints(b, 11);
    PairPrints(b, 14);
    PairPrints(b, 17);
    ClockPieces(b);
  }

  lemma ClockPieces(b: seq<Byte>)
    requires |b| >= 20
    ensures b[..19] == b[0..4] + [b[4]] + b[5..7] + [b[7]] + b[8..10] + [b[10]] +
                       b[11..13] + [b[13]] + b[14..16] + [b[16]] + b[17..19]
  {
  }

  lemma PairPrints(b: seq<Byte>, at: nat)
    requires at + 2 <= |b| && Digits(b[at..at + 2]).Value?
    ensures Digits(b[at..at + 2]).value < 100 && Two(Digits(b[at..at + 2]).value) == b[at..at + 2]
  {
    DigitsOutcome(b[at..at + 2]);
    TwoDigits(b[at..at + 2]);
  }

  lemma ShiftDecimal(n: nat, d: nat, k: nat)
    ensures (n * 10 + d) * Pow10(k) == n * Pow10(k + 1) + d * Pow10(k)
  {
    var w := Pow10(k);
    assert (n * 10 + d) * w == n * (10 * w) + d * w;
  }

  lemma {:induction false} DigitsOfFraction(ds: seq<nat>)
    requires ValidFraction(ds)
    ensures Digits(PrintDigits(ds)).Value?
    ensures Digits(PrintDigits(ds)).value * Pow10(9 - |ds|) == FractionNanos(ds)
  {
    if ds == [] {
    } else {
      var last := |ds| - 1;
      DigitsOfFraction(ds[..last]);
      assert PrintDigits(ds)[..last] == PrintDigits(ds[..last]);
      ShiftDecimal(Digits(PrintDigits(ds[..last])).value, ds[last], 9 - |ds|);
      assert Digits(PrintDigits(ds)) == Value(Digits(PrintDigits(ds[..last])).value * 10 + ds[last]);
    }
  }

  lemma FractionReads(ds: seq<nat>)
    requires ValidFraction(ds)
    ensures ReadNanos(PrintFraction(ds)) == Value(FractionNanos(ds))
  {
    if ds != [] {
      DigitsOfFraction(ds);
      assert PrintFraction(ds)[1..] == PrintDigits(ds);
    }
  }

  lemma FractionPrints(f: seq<Byte>) returns (ds: seq<nat>)
    requires ReadNanos(f).Value?
    ensures ValidFraction(ds) && PrintFraction(ds) == f
  {
    if f == [] {
      ds := [];
    } else {
      ds := seq(|f| - 1, i requires 0 <= i < |f| - 1 => f[i + 1] - ZERO);
      assert PrintFraction(ds) == f;
    }
  }

  lemma {:induction false} FractionBelowSecond(ds: seq<nat>)
    requires ValidFraction(ds)
    ensures FractionNanos(ds) + Pow10(9 - |ds|) <= 1_000_000_000
  {
    if ds == [] {
      assert Pow10(3) == 1000;
      assert Pow10(6) == 1_000_000;
    } else {
      FractionBelowSecond(ds[..|ds| - 1]);
      NineBelowTen(ds[|ds| - 1], 9 - |ds|);
    }
  }

  lemma NineBelowTen(d: nat, k: nat)
    requires d <= 9
    ensures d * Pow10(k) + Pow10(k) <= Pow10(k + 1)
  {
    var w := Pow10(k);
    assert d * w <= 9 * w;
  }

  lemma PowPositive(n: nat)
    ensures Pow10(n) >= 1
  {
  }

  lemma ShiftReads(z: Zone)
    requires ValidZone(z) && z.Shift?
    ensures ReadOffset(PrintZone(z)) == Value(ZoneSeconds(z))
    ensures |PrintZone(z)| == 6 && IsSign(PrintZone(z)[0]) && !IsZulu(PrintZone(z)[5])
    ensures forall i :: 1 <= i < 6 ==> !IsSign(PrintZone(z)[i])
  {
    TwoReads(z.hours);
    TwoReads(z.minutes);
    var p := PrintZone(z);
    assert p[1..3] == Two(z.hours);
    assert p[4..6] == Two(z.minutes);
    assert p[1] == Two(z.hours)[0] && p[2] == Two(z.hours)[1] && p[4] == Two(z.minutes)[0] && p[5] == Two(z.minutes)[1];
  }

  lemma ShiftPrints(zone: seq<Byte>) returns (z: Zone)
    requires zone != [] && IsSign(zone[0]) && ReadOffset(zone).Value?
    ensures ValidZone(z) && z.Shift? && PrintZone(z) == zone
  {
    PairPrints(zone, 1);
    PairPrints(zone, 4);
    z := Shift(zone[0] == DASH, Digits(zone[1..3]).value, Digits(zone[4..6]).value);
    assert zone == [zone[0]] + zone[1..3] + [zone[3]] + zone[4..6];
  }

  /** Whatever comes before a printed zone, the zone is found where it starts. */
  lemma ZoneFound(front: seq<Byte>, z: Zone)
    requires ValidZone(z)
    ensures ZoneStart(front + PrintZone(z)) == |front|
    ensures IsZulu((front + PrintZone(z))[|front + PrintZone(z)| - 1]) <==> z.Zulu?
    ensures (front + PrintZone(z))[|front|..] == PrintZone(z)
  {
    var b, zone := front + PrintZone(z), PrintZone(z);
    if z.Shift? {
      ShiftReads(z);
      assert b[|b| - 1] == zone[5] && b[|front|] == zone[0];
      assert forall i :: |front| < i < |b| ==> b[i] == zone[i - |front|];
    }
  }

  // -- the parser and the grammar -------------------------------------------------------------

  lemma TailReads(s: Stamp)
    requires ValidStamp(s)
    ensures |Print(s)| >= 20
    ensures ReadTail(Print(s)) == Value(Tail(FractionNanos(s.fraction), ZoneSeconds(s.zone)))
  {
    var clock, fraction := PrintClock(s.clock, s.upperT), PrintFraction(s.fraction);
    ZoneFound(clock + fraction, s.zone);
    assert |clock| == 19;
    MiddlePart(clock, fraction, PrintZone(s.zone));
    FractionReads(s.fraction);
    if s.zone.Shift? { ShiftReads(s.zone); }
  }

  lemma MiddlePart(a: seq<Byte>, b: seq<Byte>, c: seq<Byte>)
    ensures (a + b + c)[|a|..|a + b|] == b
  {
  }

  lemma TailParts(b: seq<Byte>)
    requires |b| >= 20 && ReadTail(b).Value?
    ensures 19 <= ZoneStart(b) < |b| && ReadNanos(b[19..ZoneStart(b)]).Value?
    ensures IsZulu(b[|b| - 1]) ==> ZoneStart(b) == |b| - 1
    ensures !IsZulu(b[|b| - 1]) ==> IsSign(b[ZoneStart(b)]) && ReadOffset(b[ZoneStart(b)..]).Value?
  {
  }

  lemma ZonePrints(zone: seq<Byte>) returns (z: Zone)
    requires (|zone| == 1 && IsZulu(zone[0])) || (zone != [] && IsSign(zone[0]) && ReadOffset(zone).Value?)
    ensures ValidZone(z) && PrintZone(z) == zone
  {
    if IsZulu(zone[0]) {
      z := Zulu(zone[0] == UPPER_Z);
    } else {
      z := ShiftPrints(zone);
    }
  }

  /** What is read as fraction and zone was printed from them. */
  lemma TailPrints(b: seq<Byte>) returns (ds: seq<nat>, zone: Zone)
    requires |b| >= 20 && ReadTail(b).Value?
    ensures ValidFraction(ds) && ValidZone(zone) && b[19..] == PrintFraction(ds) + PrintZone(zone)
  {
    TailParts(b);
    var start := ZoneStart(b);
    assert b[19..] == b[19..start] + b[start..];
    ds := FractionPrints(b[19..start]);
    zone := ZonePrints(b[start..]);
  }

  lemma Reassociate(a: seq<Byte>, b: seq<Byte>, c: seq<Byte>)
    ensures (a + b) + c == a + (b + c)
  {
  }

  lemma ClockOfPrinted(s: Stamp)
    requires ValidStamp(s)
    ensures Separated(Print(s)) && ReadClock(Print(s)) == Value(s.clock) && ClockInRange(s.clock)
  {
    var f, z := PrintFraction(s.fraction), PrintZone(s.zone);
    Reassociate(PrintClock(s.clock, s.upperT), f, z);
    ClockReads(s.clock, s.upperT, f + z);
  }

  lemma LocalIsCounted(c: Clock)
    requires ValidClock(c)
    ensures LocalSeconds(c) == CountedDays(c.date) * 86_400 + c.hour * 3600 + c.minute * 60 + c.second
  {
    CivilIsCounted(c.date);
  }

  lemma ParseParts(b: seq<Byte>, c: Clock, t: Tail, i: Instant)
    requires Separated(b) && ReadClock(b) == Value(c) && ClockInRange(c) && ReadTail(b) == Value(t)
    requires LocalSeconds(c) - t.offset == i.seconds && t.nanos == i.nanos
    ensures Parse(b) == Value(i)
  {
  }

  /** Parsing a printed stamp gives the instant it denotes. */
  lemma ParsePrinted(s: Stamp)
    requires ValidStamp(s)
    ensures Parse(Print(s)) == Value(Denoted(s))
  {
    ClockOfPrinted(s);
    TailReads(s);
    LocalIsCounted(s.clock);
    ParseParts(Print(s), s.clock, Tail(FractionNanos(s.fraction), ZoneSeconds(s.zone)), Denoted(s));
  }

  /** Whatever the parser accepts is a printed stamp. */
  lemma AcceptedIsPrinted(b: seq<Byte>) returns (s: Stamp)
    requires Parse(b).Value?
    ensures ValidStamp(s) && Print(s) == b
  {
    AcceptedParts(b);
    ClockPrints(b);
    var ds, zone := TailPrints(b);
    s := Stamp(ReadClock(b).value, b[10] == UPPER_T, ds, zone);
    Reassociate(PrintClock(s.clock, s.upperT), PrintFraction(ds), PrintZone(zone));
    SplitAt(b, 19);
  }

  lemma AcceptedParts(b: seq<Byte>)
    requires Parse(b).Value?
    ensures Separated(b) && ReadClock(b).Value? && ClockInRange(ReadClock(b).value) && ReadTail(b).Value?
  {
  }

  lemma SplitAt(b: seq<Byte>, at: nat)
    requires at <= |b|
    ensures b == b[..at] + b[at..]
  {
  }

  /** The accepted strings are exactly the strings of the grammar. */
  lemma AcceptsExactlyTheGrammar(b: seq<Byte>)
    ensures Parse(b).Value? <==> exists s :: ValidStamp(s) && Print(s) == b
  {
    if Parse(b).Value? {
      var s := AcceptedIsPrinted(b);
    }
    forall s | ValidStamp(s) && Print(s) == b ensures Parse(b).Value? {
      ParsePrinted(s);
    }
  }

  lemma NanosBelowSecond(s: Stamp)
    requires ValidStamp(s)
    ensures 0 <= FractionNanos(s.fraction) < 1_000_000_000
  {
    FractionBelowSecond(s.fraction);
    PowPositive(9 - |s.fraction|);
  }

  predicate Earlier(a: Instant, b: Instant) {
    a.seconds < b.seconds || (a.seconds == b.seconds && a.nanos < b.nanos)
  }

  /** Comparing parsed tuples compares chronological positions, whatever the offsets. */
  lemma TupleOrderIsChronological(a: Stamp, b: Stamp)
    requires ValidStamp(a) && ValidStamp(b)
    ensures Parse(Print(a)).Value? && Parse(Print(b)).Value?
    ensures Earlier(Parse(Print(a)).value, Parse(Print(b)).value) <==> Chronological(a) < Chronological(b)
    ensures Parse(Print(a)) == Parse(Print(b)) <==> Chronological(a) == Chronological(b)
  {
    ParsePrinted(a);
    ParsePrinted(b);
    NanosBelowSecond(a);
    NanosBelowSecond(b);
    PairOrder(Denoted(a), Denoted(b));
  }

  lemma PairOrder(a: Instant, b: Instant)
    requires a.nanos < 1_000_000_000 && b.nanos < 1_000_000_000
    ensures Earlier(a, b) <==> a.seconds * 1_000_000_000 + a.nanos < b.seconds * 1_000_000_000 + b.nanos
    ensures a == b <==> a.seconds * 1_000_000_000 + a.nanos == b.seconds * 1_000_000_000 + b.nanos
  {
  }

  // -- machine ranges -------------------------------------------------------------------------

  /** The accepted instants: well inside 64-bit seconds, and nanoseconds below one second. */
  lemma AcceptedInRange(b: seq<Byte>)
    requires Parse(b).Value?
    ensures -719_162 * 86_400 - 86_340 <= Parse(b).value.seconds < (2_932_896 + 1) * 86_400 + 86_340
    ensures Parse(b).value.nanos < 1_000_000_000
  {
    var s := AcceptedIsPrinted(b);
    ParsePrinted(s);
    NanosBelowSecond(s);
    DenotedInRange(s);
  }

  lemma DenotedInRange(s: Stamp)
    requires ValidStamp(s)
    ensures -719_162 * 86_400 - 86_340 <= UtcSeconds(s) < (2_932_896 + 1) * 86_400 + 86_340
  {
    DateInRange(s.clock.date);
    CivilIsCounted(s.clock.date);
    assert -86_340 <= ZoneSeconds(s.zone) <= 86_340;
  }

  lemma DateInRange(d: Date)
    requires ValidDate(d) && 1 <= d.year <= 9999
    ensures -719_162 <= DaysFromCivil(d) <= 2_932_896
  {
    assert DaysFromCivil(Date(1, 1, 1)) == -719_162;
    assert DaysFromCivil(Date(9999, 12, 31)) == 2_932_896;
    DayNumbersOrderDates(Date(1, 1, 1), d);
    DayNumbersOrderDates(d, Date(9999, 12, 31));
  }

  /** The decimal fold of a field stays below 2^32 because no field has more than nine digits. */
  lemma FieldFits32Bits(f: seq<Byte>)
    requires |f| <= 9 && Digits(f).Value?
    ensures Digits(f).value < 0x1_0000_0000
  {
    DigitsOutcome(f);
    PowMonotone(|f|, 9);
    assert Pow10(3) == 1000 && Pow10(6) == 1_000_000 && Pow10(9) == 1_000_000_000;
  }

  lemma {:induction false} PowMonotone(a: nat, b: nat)
    requires a <= b
    ensures Pow10(a) <= Pow10(b)
    decreases b
  {
    if a == b {
    } else {
      PowMonotone(a, b - 1);
    }
  }

  // -- the unsigned subtraction ---------------------------------------------------------------

  /** At the listed positions, in order, the first byte that is not a digit is below '0'. */
  ghost predicate LowByteAt(b: seq<Byte>, positions: seq<nat>)
    requires forall k :: 0 <= k < |positions| ==> positions[k] < |b|
  {
    positions != [] && (b[positions[0]] < ZERO || (IsDigit(b[positions[0]]) && LowByteAt(b, positions[1..])))
  }

  ghost predicate DigitsAt(b: seq<Byte>, positions: seq<nat>)
    requires forall k :: 0 <= k < |positions| ==> positions[k] < |b|
  {
    forall k :: 0 <= k < |positions| ==> IsDigit(b[positions[k]])
  }

  lemma {:induction false} LowByteSplit(b: seq<Byte>, p: seq<nat>, q: seq<nat>)
    requires forall k :: 0 <= k < |p| ==> p[k] < |b|
    requires forall k :: 0 <= k < |q| ==> q[k] < |b|
    ensures LowByteAt(b, p + q) <==> LowByteAt(b, p) || (DigitsAt(b, p) && LowByteAt(b, q))
    ensures DigitsAt(b, p + q) <==> DigitsAt(b, p) && DigitsAt(b, q)
  {
    if p == [] {
      assert p + q == q;
    } else {
      LowByteSplit(b, p[1..], q);
      assert (p + q)[1..] == p[1..] + q;
      assert DigitsAt(b, p) <==> IsDigit(b[p[0]]) && DigitsAt(b, p[1..]) by {
        assert forall k :: 1 <= k < |p| ==> p[k] == p[1..][k - 1];
      }
      assert forall k :: 0 <= k < |p| ==> p[k] == (p + q)[k];
      assert forall k :: 0 <= k < |q| ==> q[k] == (p + q)[|p| + k];
    }
  }

  function Span(at: nat, n: nat): seq<nat> {
    seq(n, i => at + i)
  }

  /** A field read as one slice meets its bytes in the order of their positions. */
  lemma {:induction false} FieldOutcome(b: seq<Byte>, at: nat, n: nat)
    requires at + n <= |b|
    ensures Digits(b[at..at + n]).Value? <==> DigitsAt(b, Span(at, n))
    ensures Digits(b[at..at + n]).Underflow? <==> LowByteAt(b, Span(at, n))
  {
    if n == 0 {
    } else {
      var p, last := Span(at, n - 1), at + n - 1;
      FieldOutcome(b, at, n - 1);
      assert b[at..at + n][..n - 1] == b[at..at + n - 1];
      assert Span(at, n) == p + [last];
      LowByteSplit(b, p, [last]);
      assert LowByteAt(b, [last]) <==> b[last] < ZERO;
      assert DigitsAt(b, [last]) <==> IsDigit(b[last]);
    }
  }

  ghost const CLOCK_DIGITS: seq<nat> := Span(0, 4) + (Span(5, 2) + (Span(8, 2) + (Span(11, 2) + (Span(14, 2) + Span(17, 2)))))
  ghost const ZONE_DIGITS: seq<nat> := Span(1, 2) + Span(4, 2)

  lemma ClockUnderflow(b: seq<Byte>)
    requires |b| >= 20
    ensures ReadClock(b).Underflow? <==> LowByteAt(b, CLOCK_DIGITS)
  {
    FieldOutcome(b, 0, 4);
    FieldOutcome(b, 5, 2);
    FieldOutcome(b, 8, 2);
    FieldOutcome(b, 11, 2);
    FieldOutcome(b, 14, 2);
    FieldOutcome(b, 17, 2);
    LowByteSplit(b, Span(14, 2), Span(17, 2));
    LowByteSplit(b, Span(11, 2), Span(14, 2) + Span(17, 2));
    LowByteSplit(b, Span(8, 2), Span(11, 2) + (Span(14, 2) + Span(17, 2)));
    LowByteSplit(b, Span(5, 2), Span(8, 2) + (Span(11, 2) + (Span(14, 2) + Span(17, 2))));
    LowByteSplit(b, Span(0, 4), Span(5, 2) + (Span(8, 2) + (Span(11, 2) + (Span(14, 2) + Span(17, 2)))));
  }

  lemma OffsetUnderflow(zone: seq<Byte>)
    requires zone != []
    ensures ReadOffset(zone).Underflow? <==> |zone| == 6 && zone[3] == COLON && LowByteAt(zone, ZONE_DIGITS)
  {
    if |zone| == 6 {
      FieldOutcome(zone, 1, 2);
      FieldOutcome(zone, 4, 2);
      LowByteSplit(zone, Span(1, 2), Span(4, 2));
    }
  }

  lemma NanosNeverUnderflow(f: seq<Byte>)
    ensures !ReadNanos(f).Underflow?
  {
    if f != [] && |f| > 1 && forall i :: 1 <= i < |f| ==> IsDigit(f[i]) {
      DigitsOutcome(f[1..]);
      assert AllDigits(f[1..]);
    }
  }

  /** A sound clock and fraction, then a six-byte offset zone whose digits hold a low byte first. */
  ghost predicate LowByteInZone(b: seq<Byte>)
    requires |b| >= 20
  {
    && ReadClock(b).Value? && ClockInRange(ReadClock(b).value)
    && !IsZulu(b[|b| - 1])
    && LastSign(b) >= 19 && LastSign(b) + 6 == |b| && b[LastSign(b) + 3] == COLON
    && ReadNanos(b[19..LastSign(b)]).Value?
    && LowByteAt(b[LastSign(b)..], ZONE_DIGITS)
  }

  /** Exactly when the eager subtraction of '0' goes below zero. */
  lemma UnderflowExactly(b: seq<Byte>)
    ensures Parse(b).Underflow? <==> Separated(b) && (LowByteAt(b, CLOCK_DIGITS) || LowByteInZone(b))
  {
    if Separated(b) {
      ClockUnderflow(b);
      if LastSign(b) >= 19 {
        NanosNeverUnderflow(b[19..LastSign(b)]);
        OffsetUnderflow(b[LastSign(b)..]);
      }
      if IsZulu(b[|b| - 1]) {
        NanosNeverUnderflow(b[19..|b| - 1]);
      }
    }
  }

  /** " 026-09-14T00:00:00Z": the blank in the year field is such an input. */
  lemma UnderflowHappens()
    ensures Parse([32, 48, 50, 54, 45, 48, 57, 45, 49, 52, 84, 48, 48, 58, 48, 48, 58, 48, 48, 90]).Underflow?
  {
    var b: seq<Byte> := [32, 48, 50, 54, 45, 48, 57, 45, 49, 52, 84, 48, 48, 58, 48, 48, 58, 48, 48, 90];
    assert Separated(b);
    assert CLOCK_DIGITS[0] == 0;
    UnderflowExactly(b);
  }
}
