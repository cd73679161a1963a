/** The `sequence` lookup: arithmetic sequences of 64-bit integers, given by an end or by a count. */
module Sequence {
  import opened Options

  // ---------- 64-bit arithmetic ----------

  const MIN := -0x8000_0000_0000_0000
  const MAX := 0x7fff_ffff_ffff_ffff

  const TURN := 0x1_0000_0000_0000_0000

  predicate InRange(x: int) { MIN <= x <= MAX }

  type Int64 = x: int | InRange(x)

  /** What is left of a result that does not fit. */
  function Wrap(x: int): (r: int)
    ensures InRange(r)
  {
    (x - MIN) % TURN + MIN
  }

  lemma WrapSame(x: int)
    requires InRange(x)
    ensures Wrap(x) == x
  {}

  /** A result that misses the range by less than a turn comes back in at the other end. */
  lemma WrapAround(x: int)
    ensures MAX < x <= MAX + TURN ==> Wrap(x) == x - TURN
    ensures MIN - TURN <= x < MIN ==> Wrap(x) == x + TURN
  {}

  /** Wrapping early changes nothing. */
  lemma WrapTwice(x: int, y: int)
    ensures Wrap(Wrap(x) + y) == Wrap(x + y)
  {}

  /** Division that truncates towards zero. */
  function Quotient(a: int, b: int): int
    requires b != 0
  {
    var q := (if a < 0 then -a else a) / (if b < 0 then -b else b);
    if (a < 0) == (b < 0) then q else -q
  }

  // ---------- What is asked for ----------

  /** A sequence as its arguments ask for it; -1 stands for a count or an end that is not given. */
  datatype Spec = Spec(start: Int64, count: Int64, end: Int64, stride: Int64, format: string)

  datatype Refusal = NoLimit | TwoLimits | Backwards | Forwards | BadFormat

  function Percents(s: string): nat {
    if s == "" then 0 else (if s[0] == '%' then 1 else 0) + Percents(s[1..])
  }

  predicate Contains(s: string, part: string) {
    part <= s || (s != "" && Contains(s[1..], part))
  }

  predicate GoodFormat(format: string) { Percents(format) == 1 && Contains(format, "%d") }

  /** The count turned into an end; a count of nothing turns the whole sequence into nothing. */
  function Limited(s: Spec): Spec {
    if s.count == -1 then s
    else if s.count == 0 then s.(start := 0, end := 0, stride := 0)
    else s.(end := Wrap(s.start + s.count * s.stride - 1))
  }

  function Refused(s: Spec): Option<Refusal> {
    var l := Limited(s);
    if s.count == -1 && s.end == -1 then Some(NoLimit)
    else if s.count != -1 && s.end != -1 then Some(TwoLimits)
    else if l.stride > 0 && l.end < l.start then Some(Backwards)
    else if l.stride < 0 && l.end > l.start then Some(Forwards)
    else if !GoodFormat(s.format) then Some(BadFormat)
    else None
  }

  // ---------- What is yielded ----------

  function At(start: int, stride: int, k: nat): int { start + k * stride }

  function Progression(start: int, stride: int, n: nat): (r: seq<int>)
    ensures |r| == n && forall k | 0 <= k < n :: r[k] == At(start, stride, k)
  {
    if n == 0 then [] else Progression(start, stride, n - 1) + [At(start, stride, n - 1)]
  }

  /** How many members lie between start and end. */
  function Size(start: int, end: int, stride: int): nat
    requires stride > 0 ==> start <= end
    requires stride < 0 ==> end <= start
  {
    if stride == 0 then 0 else if stride > 0 then (end - start) / stride + 1 else (start - end) / -stride + 1
  }

  /** A member has not passed the end exactly when its index is below the size. */
  lemma SizeExactly(start: int, end: int, stride: int, k: nat)
    requires stride > 0 ==> start <= end
    requires stride < 0 ==> end <= start
    ensures stride > 0 ==> (At(start, stride, k) <= end <==> k < Size(start, end, stride))
    ensures stride < 0 ==> (end <= At(start, stride, k) <==> k < Size(start, end, stride))
  {
    if stride > 0 {
      Multiples(end - start, stride, k);
    } else if stride < 0 {
      Multiples(start - end, -stride, k);
      assert k * -stride == -(k * stride);
    }
  }

  lemma Multiples(d: nat, s: nat, k: nat)
    requires s > 0
    ensures k * s <= d <==> k <= d / s
  {
    var q := d / s;
    assert q * s <= d < q * s + s;
    if k <= q {
      assert k * s <= q * s;
    } else {
      assert (k - (q + 1)) * s >= 0;
    }
  }

  /** What the lookup promises of a sequence that it accepts: these members and no others, in order. */
  lemma MembersExactly(start: int, end: int, stride: int, x: int)
    requires stride != 0
    requires stride > 0 ==> start <= end
    requires stride < 0 ==> end <= start
    ensures x in Progression(start, stride, Size(start, end, stride)) <==>
      exists k: nat :: x == At(start, stride, k) && (if stride > 0 then x <= end else end <= x)
  {
    var n := Size(start, end, stride);
    var members := Progression(start, stride, n);
    if x in members {
      var k :| 0 <= k < n && members[k] == x;
      SizeExactly(start, end, stride, k);
    }
    if k: nat :| x == At(start, stride, k) && (if stride > 0 then x <= end else end <= x) {
      SizeExactly(start, end, stride, k);
      assert members[k] == x;
    }
  }

  /** The numbers of an accepted sequence. */
  function Numbers(s: Spec): seq<int>
    requires Refused(s) == None
  {
    var l := Limited(s);
    if l.stride == 0 then [] else Progression(l.start, l.stride, Size(l.start, l.end, l.stride))
  }

  /**
   Which counts are accepted and how many members they give: a positive stride gives as many as asked for, a
   negative one gives one more, and a stride of -1 two more.
   */
  lemma CountGiven(s: Spec)
    requires s.count != -1 && s.end == -1 && GoodFormat(s.format)
    requires InRange(s.start + s.count * s.stride - 1)
    ensures Refused(s) == None <==> s.count >= 0 || s.stride == 0
    ensures Refused(s) == None ==>
      |Numbers(s)| == if s.stride == 0 || s.count == 0 then 0
        else if s.stride > 0 then s.count
        else if s.stride == -1 then s.count + 2
        else s.count + 1
  {
    hide Wrap, Size, GoodFormat;
    WrapSame(s.start + s.count * s.stride - 1);
    EndOfCount(s.start, s.count, s.stride);
  }

  /** Where the end that stands for a count lies, and how many members it leaves. */
  lemma EndOfCount(start: int, n: int, d: int)
    requires n != -1
    ensures n < 0 && d > 0 ==> start + n * d - 1 < start
    ensures n < 0 && d < 0 ==> start < start + n * d - 1
    ensures n > 0 && d > 0 ==> start <= start + n * d - 1 && Size(start, start + n * d - 1, d) == n
    ensures n > 0 && d < 0 ==> start + n * d - 1 <= start
    ensures n > 0 && d < 0 ==> Size(start, start + n * d - 1, d) == n + (if d == -1 then 2 else 1)
  {
    if n < 0 && d > 0 {
      Multiply(-n, d);
      assert n * d == -(-n * d);
    } else if n < 0 && d < 0 {
      Multiply(-n, -d);
      assert n * d == -n * -d;
    } else if n > 0 && d > 0 {
      Multiply(n, d);
      assert (n - 1) * d == n * d - d;
      Quotients(n * d - 1, d, n - 1);
    } else if n > 0 && d < 0 {
      Multiply(n, -d);
      assert n * d == -(n * -d);
      assert (n + 1) * -d == n * -d + -d;
      Quotients(n * -d + 1, -d, if d == -1 then n + 1 else n);
    }
  }

  lemma {:induction false} Multiply(a: nat, b: nat)
    requires a > 0 && b > 0
    ensures a * b >= a && a * b >= b
    decreases a
  {
    if a > 1 {
      Multiply(a - 1, b);
      assert a * b == (a - 1) * b + b;
    }
  }

  lemma Quotients(d: nat, s: nat, q: nat)
    requires s > 0 && q * s <= d < q * s + s
    ensures d / s == q
  {
    Multiples(d, s, q);
    Multiples(d, s, q + 1);
  }

  /** An explicit end is accepted exactly when the stride points towards it. */
  lemma EndGiven(s: Spec)
    requires s.count == -1 && s.end != -1 && GoodFormat(s.format)
    ensures Refused(s) == None <==> if s.stride > 0 then s.start <= s.end else s.stride < 0 ==> s.end <= s.start
    ensures Refused(s) == None && s.stride != 0 ==> Numbers(s) != [] && Numbers(s)[0] == s.start
  {
    if Refused(s) == None && s.stride != 0 { SizeExactly(s.start, s.end, s.stride, 0); }
  }

  /** An end of -1 cannot be asked for: it reads as no end at all. */
  lemma EndOfMinusOne(start: Int64, stride: Int64)
    ensures Refused(Spec(start, -1, -1, stride, "%d")) == Some(NoLimit)
  {}

  // ---------- Where 64 bits are too few ----------

  /** The limits an accepted sequence with a stride is left with. */
  predicate Ready(start: int, end: int, stride: int) {
    && InRange(start) && InRange(end) && InRange(stride)
    && stride != 0 && if stride > 0 then start <= end else end <= start
  }

  /** What the loop compares with: one past the end, which may wrap. */
  function Last(end: int, stride: int): int { Wrap(if stride < 1 then end - 1 else end + 1) }

  /** The capacity reserved in advance; a negative one crashes. */
  function Capacity(start: int, end: int, stride: int): int
    requires stride != 0
  {
    Wrap(Quotient(Wrap(Last(end, stride) - start), stride))
  }

  /** How many integers lie from start to end, both included. */
  function Span(start: int, end: int): nat { if start <= end then end - start + 1 else start - end + 1 }

  /**
   When the capacity is not negative: the span fits, or it misses a whole turn by less than a stride; and
   backwards a span of exactly half a turn is fine too, unless the stride is -1.
   */
  lemma CapacityExactly(start: int, end: int, stride: int)
    requires Ready(start, end, stride)
    ensures Capacity(start, end, stride) >= 0 <==>
      var d := Span(start, end);
      || d <= MAX
      || (stride > 0 && TURN - d < stride)
      || (stride < 0 && if d == MAX + 1 then stride != -1 else TURN - d < -stride)
  {
    if stride > 0 { CapacityForwards(start, end, stride); } else { CapacityBackwards(start, end, stride); }
  }

  lemma CapacityForwards(start: int, end: int, stride: int)
    requires Ready(start, end, stride) && stride > 0
    ensures Capacity(start, end, stride) >= 0 <==> var d := end - start + 1; d <= MAX || TURN - d < stride
  {
    hide Wrap, Quotient;
    var d := end - start + 1;
    WrapTwice(end + 1, -start);
    if d <= MAX { WrapSame(d); } else { WrapAround(d); }
    var span := Wrap(d);
    QuotientSign(span, stride);
    WrapSame(Quotient(span, stride));
  }

  lemma CapacityBackwards(start: int, end: int, stride: int)
    requires Ready(start, end, stride) && stride < 0
    ensures Capacity(start, end, stride) >= 0 <==>
      var d := start - end + 1;
      d <= MAX || if d == MAX + 1 then stride != -1 else TURN - d < -stride
  {
    hide Wrap, Quotient;
    var d := start - end + 1;
    WrapTwice(end - 1, -start);
    if d <= MAX + 1 { WrapSame(-d); } else { WrapAround(-d); }
    var span := Wrap(-d);
    QuotientSign(span, stride);
    if d == MAX + 1 && stride == -1 {
      WrapAround(MAX + 1);
    } else {
      WrapSame(Quotient(span, stride));
    }
  }

  /** The sign of a truncated quotient, and the only one of two 64-bit integers that does not fit. */
  lemma QuotientSign(a: int, b: int)
    requires InRange(a) && InRange(b) && b != 0
    ensures b > 0 ==> (Quotient(a, b) >= 0 <==> a > -b)
    ensures b < 0 ==> (Quotient(a, b) >= 0 <==> a < -b)
    ensures if a == MIN && b == -1 then Quotient(a, b) == MAX + 1 else InRange(Quotient(a, b))
  {
    SmallQuotient(if a < 0 then -a else a, if b < 0 then -b else b);
  }

  lemma SmallQuotient(m: nat, n: nat)
    requires n > 0
    ensures m / n >= 0 && (m / n == 0 <==> m < n)
    ensures if n == 1 then m / n == m else 2 * (m / n) <= m
  {
    Multiples(m, n, 1);
    Multiples(m, n, m / n);
    if n > 1 { assert (m / n) * n >= (m / n) * 2; }
  }

  /** The value of the loop variable in round `k`, wrapping as it goes. */
  function Index(start: int, stride: int, k: nat): int { Wrap(At(start, stride, k)) }

  predicate Goes(i: int, last: int, stride: int) { (stride > 0 && i < last) || (stride < 0 && i > last) }

  /** The loop ends after exactly `n` rounds. */
  ghost predicate StopsAfter(start: int, end: int, stride: int, n: nat) {
    && !Goes(Index(start, stride, n), Last(end, stride), stride)
    && forall k: nat | k < n :: Goes(Index(start, stride, k), Last(end, stride), stride)
  }

  /** The index after the last member does not leave the range: a caller can tell from the limits. */
  predicate Fits(start: int, end: int, stride: int)
    requires Ready(start, end, stride)
  {
    InRange(At(start, stride, Size(start, end, stride)))
  }

  /** Up to the largest integer, or down to the smallest, the loop compares with the opposite end. */
  predicate AtEdge(end: int, stride: int) { if stride > 0 then end == MAX else end == MIN }

  /** The loop ends after as many rounds as there are members if and only if the index after them fits. */
  lemma StopsExactly(start: int, end: int, stride: int)
    requires Ready(start, end, stride)
    ensures StopsAfter(start, end, stride, Size(start, end, stride)) <==> Fits(start, end, stride)
    ensures Fits(start, end, stride) ==> !AtEdge(end, stride)
  {
    hide Wrap, Size, At;
    var n := Size(start, end, stride);
    NextMember(start, end, stride);
    if Fits(start, end, stride) {
      InsideStops(start, end, stride);
    } else if AtEdge(end, stride) {
      EdgeStops(start, end, stride);
      assert !Goes(Index(start, stride, 0), Last(end, stride), stride);
    } else {
      WrapAround(At(start, stride, n));
      WrapSame(if stride > 0 then end + 1 else end - 1);
      assert Goes(Index(start, stride, n), Last(end, stride), stride);
    }
  }

  /** The index after the last member is past the end, by one stride at most. */
  lemma NextMember(start: int, end: int, stride: int)
    requires Ready(start, end, stride)
    ensures var n := Size(start, end, stride);
      n > 0 && if stride > 0 then end < At(start, stride, n) <= end + stride
          else end + stride <= At(start, stride, n) < end
  {
    hide Size, At;
    var n := Size(start, end, stride);
    First(start, stride);
    SizeExactly(start, end, stride, 0);
    SizeExactly(start, end, stride, n);
    SizeExactly(start, end, stride, n - 1);
    Next(start, stride, n - 1);
  }

  /** While it fits, no index wraps. */
  lemma InsideStops(start: int, end: int, stride: int)
    requires Ready(start, end, stride) && Fits(start, end, stride)
    ensures forall k: nat | k <= Size(start, end, stride) :: Index(start, stride, k) == At(start, stride, k)
    ensures StopsAfter(start, end, stride, Size(start, end, stride)) && !AtEdge(end, stride)
  {
    hide Wrap, Size, At;
    var n := Size(start, end, stride);
    NextMember(start, end, stride);
    WrapSame(if stride > 0 then end + 1 else end - 1);
    forall k: nat | k <= n
      ensures Index(start, stride, k) == At(start, stride, k)
      ensures Goes(Index(start, stride, k), Last(end, stride), stride) <==> k < n
    {
      Between(start, stride, k, n);
      WrapSame(At(start, stride, k));
      SizeExactly(start, end, stride, k);
    }
  }

  lemma Between(start: int, stride: int, k: nat, n: nat)
    requires k <= n
    ensures if stride >= 0 then start <= At(start, stride, k) <= At(start, stride, n)
      else At(start, stride, n) <= At(start, stride, k) <= start
  {
    if stride >= 0 {
      assert k * stride >= 0 && (n - k) * stride >= 0;
    } else {
      assert k * -stride >= 0 && (n - k) * -stride >= 0;
    }
  }

  /** At the edge the loop makes no round at all, although there are members. */
  lemma EdgeStops(start: int, end: int, stride: int)
    requires Ready(start, end, stride) && AtEdge(end, stride)
    ensures StopsAfter(start, end, stride, 0)
  {
    First(start, stride);
    WrapSame(start);
  }

  /**
   Counting by ones to the largest integer crashes for starts up to 0 but the smallest, and yields nothing for
   the rest.
   */
  lemma UpToTheLargest(start: int)
    requires InRange(start)
    ensures Capacity(start, MAX, 1) < 0 <==> MIN < start <= 0
    ensures StopsAfter(start, MAX, 1, 0) && Size(start, MAX, 1) > 0
  {
    hide Capacity, StopsAfter;
    CapacityExactly(start, MAX, 1);
    EdgeStops(start, MAX, 1);
  }

  /** An accepted sequence of two members with room for one, whose loop never stops. */
  lemma LoopsForEver(n: nat)
    ensures var s := Spec(0, -1, MAX - 1, 0x4000_0000_0000_0000, "%d");
      && Refused(s) == None && Size(s.start, s.end, s.stride) == 2
      && Capacity(s.start, s.end, s.stride) == 1
      && !StopsAfter(s.start, s.end, s.stride, n)
  {
    var quarter := 0x4000_0000_0000_0000;
    OneVerb();
    var i := Index(0, quarter, n);
    var q, r := n / 4, n % 4;
    assert At(0, quarter, n) == r * quarter + q * TURN;
    WholeTurns(r * quarter, q);
    assert i == Wrap(r * quarter) && i < MAX;
  }

  lemma WholeTurns(x: int, q: nat)
    ensures Wrap(x + q * TURN) == Wrap(x)
  {}

  lemma OneVerb()
    ensures GoodFormat("%d")
  {
    assert "%d"[1..] == "d" && "d"[1..] == "";
  }

  // ---------- Text ----------

  function Decimal(i: int): string
    decreases i < 0, if i < 0 then -i else i
  {
    if i < 0 then "-" + Decimal(-i)
    else if i < 10 then [(i + '0' as int) as char]
    else Decimal(i / 10) + [(i % 10 + '0' as int) as char]
  }

  /** The format with its first verb replaced. */
  function Substituted(format: string, text: string): string {
    if |format| < 2 then format
    else if format[0] == '%' then text + format[2..]
    else [format[0]] + Substituted(format[1..], text)
  }

  function Formatted(format: string, i: int): string { Substituted(format, Decimal(i)) }

  lemma {:induction false} VerbNeedsPercent(s: string)
    requires Contains(s, "%d")
    ensures Percents(s) > 0
  {
    if !("%d" <= s) { VerbNeedsPercent(s[1..]); }
  }

  lemma Shifted(format: string, q: nat, text: string)
    requires q + 3 <= |format|
    ensures format[..q + 1] + text + format[q + 3..] == [format[0]] + (format[1..][..q] + text + format[1..][q + 2..])
  {
    assert format[..q + 1] == [format[0]] + format[1..][..q];
    assert format[q + 3..] == format[1..][q + 2..];
  }

  /** Under an accepted format the number takes the place of the verb, and the text around it stays. */
  lemma {:induction false} FormattedExactly(format: string, text: string) returns (p: nat)
    requires GoodFormat(format)
    ensures p + 2 <= |format| && format[p] == '%' && format[p + 1] == 'd'
    ensures Substituted(format, text) == format[..p] + text + format[p + 2..]
  {
    if "%d" <= format {
      p := 0;
      assert format[0] == "%d"[0] && format[1] == "%d"[1];
      assert format[..0] + text == text;
    } else {
      if format[0] == '%' { VerbNeedsPercent(format[1..]); }
      var q := FormattedExactly(format[1..], text);
      p := q + 1;
      Shifted(format, q, text);
    }
  }

  /** The number that decimal digits stand for. */
  function Read(digits: string): int {
    if digits == "" then 0
    else Read(digits[..|digits| - 1]) * 10 + (digits[|digits| - 1] as int - '0' as int)
  }

  /** Decimals can be read back, sign and all. */
  lemma {:induction false} DecimalReads(i: int)
    ensures i >= 0 ==> Read(Decimal(i)) == i
    ensures i < 0 ==> Decimal(i)[0] == '-' && Read(Decimal(i)[1..]) == -i
    decreases i < 0, if i < 0 then -i else i
  {
    if i < 0 {
      DecimalReads(-i);
    } else if i >= 10 {
      DecimalReads(i / 10);
      var d := Decimal(i);
      assert d[..|d| - 1] == Decimal(i / 10);
    } else {
      assert Decimal(i)[..0] == "";
    }
  }

  function AllFormatted(format: string, numbers: seq<int>): seq<string> {
    seq(|numbers|, i requires 0 <= i < |numbers| => Formatted(format, numbers[i]))
  }

  // ---------- The lookup ----------

  class Seq {
    var start: Int64
    var count: Int64
    var end: Int64
    var stride: Int64
    var format: string

    constructor ()
      ensures Value() == Spec(1, -1, -1, 1, "%d")
    {
      start, count, end, stride, format := 1, -1, -1, 1, "%d";
    }

    function Value(): Spec
      reads this
    {
      Spec(start, count, end, stride, format)
    }

    method Reset()
      modifies this
      ensures Value() == Spec(1, -1, -1, 1, "%d")
    {
      start, count, end, stride, format := 1, -1, -1, 1, "%d";
    }

    /** Sets what the arguments of one term name. */
    method Parse(args: Spec)
      modifies this
      ensures Value() == args
    {
      start, count, end, stride, format := args.start, args.count, args.end, args.stride, args.format;
    }

    /** Turns a count into an end and refuses what cannot be generated. */
    method SanityCheck() returns (err: Option<Refusal>)
      modifies this
      ensures err == Refused(old(Value()))
      ensures err == None ==> Value() == Limited(old(Value()))
      ensures err == None && stride > 0 ==> start <= end
      ensures err == None && stride < 0 ==> end <= start
    {
      if count == -1 && end == -1 { return Some(NoLimit); }
      if count != -1 && end != -1 { return Some(TwoLimits); }
      if count != -1 {
        if count == 0 {
          start, end, stride := 0, 0, 0;
        } else {
          end := Wrap(start + count * stride - 1);
        }
      }
      if stride > 0 && end < start { return Some(Backwards); }
      if stride < 0 && end > start { return Some(Forwards); }
      if Percents(format) != 1 || !Contains(format, "%d") { return Some(BadFormat); }
      return None;
    }

    /**
     Reserves room and steps from start past the end. It crashes exactly on a negative capacity; it yields
     nothing at the edge; else it yields the members, provided that the index after them fits.
     */
    method GenerateSequence() returns (crashed: bool, numbers: seq<int>)
      requires Ready(start, end, stride)
      requires Capacity(start, end, stride) < 0 || AtEdge(end, stride) || Fits(start, end, stride)
      ensures crashed <==> Capacity(start, end, stride) < 0
      ensures !crashed ==> numbers == Yielded(start, end, stride)
    {
      hide Wrap, Size, At, Quotient, Progression;
      numbers := [];
      var last := Wrap(end + 1);
      if stride < 1 { last := Wrap(end - 1); }
      var capacity := Wrap(Quotient(Wrap(last - start), stride));
      if capacity < 0 { return true, []; }
      var i := start;
      ghost var n := if AtEdge(end, stride) then 0 else Size(start, end, stride);
      if AtEdge(end, stride) { EdgeStops(start, end, stride); } else { InsideStops(start, end, stride); }
      First(start, stride);
      WrapSame(start);
      NoMembers(start, stride);
      while (stride > 0 && i < last) || (stride < 0 && i > last)
        invariant |numbers| <= n && i == Index(start, stride, |numbers|)
        invariant StopsAfter(start, end, stride, n)
        invariant numbers == Progression(start, stride, |numbers|)
        decreases n - |numbers|
      {
        OneMember(start, stride, |numbers|);
        assert i == At(start, stride, |numbers|);
        numbers := numbers + [i];
        Next(start, stride, |numbers| - 1);
        i := Wrap(i + stride);
      }
      crashed := false;
    }
  }

  /** What the loop yields when it does not crash. */
  function Yielded(start: int, end: int, stride: int): seq<int>
    requires Ready(start, end, stride)
  {
    if AtEdge(end, stride) then [] else Progression(start, stride, Size(start, end, stride))
  }

  lemma NoMembers(start: int, stride: int)
    ensures Progression(start, stride, 0) == []
  {}

  lemma OneMember(start: int, stride: int, n: nat)
    ensures Progression(start, stride, n + 1) == Progression(start, stride, n) + [At(start, stride, n)]
  {}

  lemma First(start: int, stride: int)
    ensures At(start, stride, 0) == start
  {}

  lemma Next(start: int, stride: int, k: nat)
    ensures At(start, stride, k) + stride == At(start, stride, k + 1)
  {}

  datatype Lookup = Listed(items: seq<string>) | Failed(why: Refusal) | Crashed

  /** What one term comes to. */
  function Term(s: Spec): Lookup {
    var l := Limited(s);
    if Refused(s).Some? then Failed(Refused(s).value)
    else if l.stride == 0 then Listed([])
    else if Capacity(l.start, l.end, l.stride) < 0 then Crashed
    else Listed(AllFormatted(s.format, Yielded(l.start, l.end, l.stride)))
  }

  /** The terms one after the other; the first that is refused or crashes decides. */
  function Looked(terms: seq<Spec>): Lookup {
    if terms == [] then Listed([])
    else
      var before := Looked(terms[..|terms| - 1]);
      var last := Term(terms[|terms| - 1]);
      if before.Listed? && last.Listed? then Listed(before.items + last.items)
      else if before.Listed? then last
      else before
  }

  /** The loop for a term, if it is run at all, does not wrap past the end. */
  predicate Ends(s: Spec) {
    var l := Limited(s);
    || Refused(s).Some? || l.stride == 0
    || Capacity(l.start, l.end, l.stride) < 0 || AtEdge(l.end, l.stride) || Fits(l.start, l.end, l.stride)
  }

  /** A term yields the numbers promised if and only if the capacity is not negative and the next index fits. */
  lemma PromiseKept(s: Spec)
    requires Refused(s) == None && Ends(s)
    ensures var l := Limited(s);
      Term(s) == Listed(AllFormatted(s.format, Numbers(s))) <==>
        l.stride == 0 || (Capacity(l.start, l.end, l.stride) >= 0 && Fits(l.start, l.end, l.stride))
  {
    hide Size, Capacity, Limited, At;
    var l := Limited(s);
    if l.stride != 0 {
      StopsExactly(l.start, l.end, l.stride);
      NextMember(l.start, l.end, l.stride);
      assert |AllFormatted(s.format, Numbers(s))| == Size(l.start, l.end, l.stride) > 0;
      assert AllFormatted(s.format, []) == [];
    }
  }

  method Run(terms: seq<Spec>) returns (result: Lookup)
    requires forall t <- terms :: Ends(t)
    ensures result == Looked(terms)
  {
    hide Capacity, Yielded, Fits, AtEdge;
    var s := new Seq();
    var all: seq<string> := [];
    for i := 0 to |terms|
      invariant Looked(terms[..i]) == Listed(all)
    {
      s.Reset();
      s.Parse(terms[i]);
      var err := s.SanityCheck();
      assert terms[..i + 1][..i] == terms[..i];
      if err.Some? {
        FirstFailure(terms, i);
        return Failed(err.value);
      }
      assert terms[i] in terms;
      if s.stride != 0 {
        var crashed, numbers := s.GenerateSequence();
        if crashed {
          FirstFailure(terms, i);
          return Crashed;
        }
        all := all + AllFormatted(terms[i].format, numbers);
      } else {
        assert all + [] == all;
      }
    }
    assert terms[..|terms|] == terms;
    return Listed(all);
  }

  /** Whatever follows the first term that is refused or crashes, the lookup ends as that term does. */
  lemma {:induction false} FirstFailure(terms: seq<Spec>, i: nat)
    requires i < |terms| && !Term(terms[i]).Listed? && Looked(terms[..i]).Listed?
    ensures Looked(terms) == Term(terms[i])
    decreases |terms|
  {
    hide Term;
    var n := |terms| - 1;
    assert terms[..n][..i] == terms[..i];
    if i < n { FirstFailure(terms[..n], i); }
  }

  /** Lookups follow each other: the items of the first list come first, and its failure or crash decides. */
  lemma {:induction false} LookedConcat(a: seq<Spec>, b: seq<Spec>)
    ensures Looked(a + b) ==
            if !Looked(a).Listed? then Looked(a)
            else if !Looked(b).Listed? then Looked(b)
            else Listed(Looked(a).items + Looked(b).items)
  {
    hide Term;
    if b == [] {
      assert a + b == a;
      if Looked(a).Listed? { assert Looked(a).items + [] == Looked(a).items; }
    } else {
      var n := |b| - 1;
      LookedConcat(a, b[..n]);
      assert (a + b)[..|a + b| - 1] == a + b[..n];
    }
  }

  /** A lookup of one term is that term. */
  lemma LookedOne(t: Spec)
    ensures Looked([t]) == Term(t)
  {
    hide Term;
    assert [t][..0] == [];
    if Term(t).Listed? { assert [] + Term(t).items == Term(t).items; }
  }
}
