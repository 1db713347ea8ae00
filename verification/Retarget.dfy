/** Difficulty retargeting: one adjustment, and what holds over whole runs of adjustments. */
module Retarget {
  import opened Arith
  import opened Bits
  import opened Uint256
  import opened Division
  import opened Multiply
  import opened Compact

  datatype Params = Params(limit: U256, timespan: U64, noRetargeting: bool)

  /** Bounds of the measured timespan: a quarter and four times the target, shifted in 64 bits. */
  function MinSpan(t: U64): U64 { t / 4 }

  function MaxSpan(t: U64): U64 { 4 * t % TWO_64 }

  function Clamp(span: U64, low: U64, high: U64): U64
    requires low <= high
  {
    if span < low then low else if span > high then high else span
  }

  /** The largest target one adjustment may reach, as computed: the quadrupled target loses its top bits. */
  function Cap(prev: nat, limit: nat): nat {
    Min(Low(Shl(prev, 2), 256), limit)
  }

  /** The adjustment as computed, with the product wrapped at 256 bits. */
  function Adjusted(prev: nat, span: nat, t: nat, limit: nat): nat
    requires t > 0
  {
    Quotient(prev * span % TWO_256, t, Cap(prev, limit))
  }

  /** The adjustment as documented: the target scaled by the timespan ratio, at most quadrupled, capped. */
  function Rule(prev: nat, span: nat, t: nat, limit: nat): nat
    requires t > 0
  {
    Quotient(prev * span, t, Min(4 * prev, limit))
  }

  function Quotient(product: nat, t: nat, cap: nat): nat
    requires t > 0
  {
    DivNonneg(product, t);
    Min(product / t, cap)
  }

  /** The smaller of two targets; the first at or above the second gives way. */
  method Capped(x: U256, cap: U256) returns (r: U256)
    ensures r.Value() == Min(x.Value(), cap.Value())
  {
    LessIsLess(x, cap);
    r := if Less(x, cap) then x else cap;
  }

  /** Scales a target by `span / t` with the 256-bit operators. */
  method Scale(prev: U256, span: U64, t: U64) returns (r: U256)
    requires t > 0
    ensures r.Value() == prev.Value() * span % TWO_256 / t
  {
    var product, _ := OverflowingMul(prev, U256(0, span));
    SpanFits(span);
    SmallFactor(prev.Value(), span);
    var q, rem := DivRem(product, U256(0, t));
    DivisionIsQuotient(product.Value(), t, q.Value(), rem.Value());
    r := q;
  }

  lemma SpanFits(span: U64)
    ensures Fits(span, 192)
  {
    Fits64(span);
    FitsMore(span, 64, 192);
  }

  /** Scales the previous target and caps the result. */
  method Adjust(prev: U256, span: U64, t: U64, limit: U256) returns (r: U256)
    requires t > 0
    ensures r.Value() == Adjusted(prev.Value(), span, t, limit.Value())
  {
    var quadrupled := WrappingShl(prev, 2);
    var maximum := Capped(quadrupled, limit);
    var scaled := Scale(prev, span, t);
    r := Capped(scaled, maximum);
  }

  /** The compact target of the next period. */
  method FromNextWorkRequired(last: U32, span: U64, params: Params) returns (c: U32)
    requires params.noRetargeting || (params.timespan > 0 && MinSpan(params.timespan) <= MaxSpan(params.timespan))
    ensures params.noRetargeting ==> c == last
    ensures !params.noRetargeting ==>
              var t := params.timespan;
              var low, high := t / 4, 4 * t % TWO_64;
              var measured := if span < low then low else if high < span then high else span;
              c == CompactOf(Adjusted(TargetOf(last), measured, t, params.limit.Value()))
  {
    if params.noRetargeting {
      return last;
    }
    var actual := Clamp(span, MinSpan(params.timespan), MaxSpan(params.timespan));
    var prev := FromCompact(last);
    var retarget := Adjust(prev, actual, params.timespan, params.limit);
    c := ToCompactLossy(retarget);
  }

  /** The wrapped quotient is the true one exactly when the product does not wrap. */
  lemma WrapShows(product: nat, t: nat, modulus: nat)
    requires 0 < t <= modulus
    ensures product % modulus / t == product / t <==> product < modulus
    ensures product % modulus / t <= product / t
  {
    if product < modulus {
      SmallMod(product, modulus);
    } else {
      WrapLoses(product, modulus);
      QuotientDrops(product % modulus, product, t);
    }
  }

  lemma WrapLoses(product: nat, modulus: nat)
    requires 0 < modulus <= product
    ensures product % modulus + modulus <= product
  {
    DivBelow(product, modulus, 1);
    assert product == product / modulus * modulus + product % modulus;
    MulMono(1, product / modulus, modulus);
  }

  /** Losing at least the divisor lowers the quotient. */
  lemma QuotientDrops(w: nat, product: nat, t: nat)
    requires 0 < t && w + t <= product
    ensures w / t < product / t
  {
    DivBelow(product, t, product / t + 1);
    assert (product / t + 1) * t == product / t * t + t;
    DivBelow(w, t, product / t);
  }

  lemma Quadrupled(prev: nat)
    ensures Low(Shl(prev, 2), 256) == 4 * prev % TWO_256 <= 4 * prev
    ensures 4 * prev % TWO_256 == 4 * prev <==> 4 * prev < TWO_256
  {
    assert Shl(prev, 2) == 4 * prev by { assert Shl(prev, 1) == 2 * prev; }
    ShrIsDiv(4 * prev, 256);
    LowSmall(4 * prev, 256);
    Pow2To256();
    if 4 * prev < TWO_256 {
      SmallMod(4 * prev, TWO_256);
    }
  }

  /**
   The computed adjustment is the documented one exactly when the product fits 256 bits or even its
   wrapped quotient reaches the documented cap, and the quadrupled target fits 256 bits or is not
   what decides.
   */
  lemma AdjustedIsRuleIff(prev: nat, span: nat, t: nat, limit: nat)
    requires 0 < t <= TWO_256
    ensures Adjusted(prev, span, t, limit) == Rule(prev, span, t, limit) <==>
            && (prev * span < TWO_256 || prev * span % TWO_256 / t >= Min(4 * prev, limit))
            && (4 * prev < TWO_256 || 4 * prev % TWO_256 >= Min(prev * span / t, limit))
  {
    Quadrupled(prev);
    QuotientsAgree(prev * span, t, TWO_256, 4 * prev % TWO_256, 4 * prev, limit);
  }

  lemma QuotientsAgree(product: nat, t: nat, modulus: nat, cut: nat, full: nat, limit: nat)
    requires 0 < t <= modulus && cut <= full && (cut == full <==> full < modulus)
    ensures Quotient(product % modulus, t, Min(cut, limit)) == Quotient(product, t, Min(full, limit)) <==>
            && (product < modulus || product % modulus / t >= Min(full, limit))
            && (full < modulus || cut >= Min(product / t, limit))
  {
    WrapShows(product, t, modulus);
    DivNonneg(product % modulus, t);
    SmallerOf(product % modulus / t, product / t, cut, full, limit);
  }

  lemma SmallerOf(low: nat, high: nat, cut: nat, full: nat, limit: nat)
    requires low <= high && cut <= full
    ensures Min(low, Min(cut, limit)) == Min(high, Min(full, limit)) <==>
            && (low == high || low >= Min(full, limit))
            && (cut == full || cut >= Min(high, limit))
  {
  }

  /** The quarter that one adjustment may not go below, as far as a compact form can hold it. */
  function Floor(prev: nat): nat {
    Truncated(prev / 4)
  }

  /** A target reaches a truncated bound exactly when its own truncation does. */
  lemma TruncatedReaches(a: nat, b: nat)
    requires Fits(a, 256) && Fits(b, 256)
    ensures Truncated(a) >= Truncated(b) <==> a >= Truncated(b)
  {
    TruncatedBelow(a);
    if a >= Truncated(b) {
      TruncatedMonotone(Truncated(b), a);
      TruncatedTwice(b);
    }
  }

  lemma TruncatedTwice(b: nat)
    requires Fits(b, 256)
    ensures Truncated(Truncated(b)) == Truncated(b)
  {
    TruncatedBelow(b);
    DecodeEncode(b);
    DecodeEncode(Truncated(b));
    EncodeDecodeEncode(b);
  }

  /** What must hold of the wrapped values for one adjustment to keep a quarter of the target. */
  ghost predicate KeepsQuarter(prev: nat, span: nat, t: nat)
    requires t > 0
  {
    prev * span % TWO_256 / t >= Floor(prev) && 4 * prev % TWO_256 >= Floor(prev)
  }

  /** What one adjustment should guarantee of the decoded next target. */
  ghost predicate StepBounds(prev: nat, next: nat, limit: nat) {
    && next <= limit
    && next <= 4 * prev
    && next >= Floor(prev)
  }

  /**
   One adjustment, decoded again, never exceeds the limit nor four times its predecessor, wrapping or
   not; it keeps a quarter of it exactly when both wrapped values do.
   */
  lemma OneStep(prev: nat, span: nat, t: nat, limit: nat)
    requires 0 < t && prev <= limit && prev < TWO_256
    ensures var next := TargetOf(CompactOf(Adjusted(prev, span, t, limit)));
            && next <= limit && next <= 4 * prev
            && (StepBounds(prev, next, limit) <==> KeepsQuarter(prev, span, t))
  {
    var next := Adjusted(prev, span, t, limit);
    AdjustedParts(prev, span, t, limit);
    Fits256(next);
    Fits256(prev / 4);
    DecodeEncode(next);
    TruncatedBelow(next);
    TruncatedBelow(prev / 4);
    TruncatedReaches(next, prev / 4);
  }

  lemma AdjustedParts(prev: nat, span: nat, t: nat, limit: nat)
    requires 0 < t
    ensures var next := Adjusted(prev, span, t, limit);
            && 0 <= next < TWO_256
            && next == Min(prev * span % TWO_256 / t, Min(4 * prev % TWO_256, limit)) <= 4 * prev
  {
    Quadrupled(prev);
    DivNonneg(prev * span % TWO_256, t);
  }

  /**
   For a timespan divisible by four and a target with room to quadruple, the quarter is kept exactly
   when the product does not wrap, or even its wrapped quotient reaches the quarter.
   */
  lemma KeepsQuarterIff(prev: nat, span: nat, t: nat)
    requires 0 < t && t % 4 == 0 && t / 4 <= span && 4 * prev < TWO_256
    ensures KeepsQuarter(prev, span, t) <==>
            prev * span < TWO_256 || prev * span % TWO_256 / t >= Floor(prev)
  {
    TruncatedBelow(prev / 4);
    SmallMod(4 * prev, TWO_256);
    QuarterUnwrapped(prev * span, prev, span, t);
  }

  lemma QuarterUnwrapped(product: nat, prev: nat, span: nat, t: nat)
    requires product == prev * span && 0 < t && t % 4 == 0 && t / 4 <= span
    ensures product < TWO_256 ==> product % TWO_256 / t >= prev / 4
  {
    if product < TWO_256 {
      SmallMod(product, TWO_256);
      QuarterBelow(prev, span, t);
    }
  }

  /** Scaling by at least a quarter leaves at least a quarter. */
  lemma QuarterBelow(prev: nat, span: nat, t: nat)
    requires t > 0 && t % 4 == 0 && span >= t / 4
    ensures prev * span / t >= prev / 4
  {
    var q := t / 4;
    MulMono(q, span, prev);
    DivBelow(prev * span, t, prev / 4);
    MulMono(4 * (prev / 4), prev, q);
    assert prev / 4 * t == 4 * (prev / 4) * q;
  }

  lemma TargetFits(c: nat)
    ensures TargetOf(c) < TWO_256
  {
    var (mant, expt) := Denoted(c);
    LowSmall(Shl(mant, expt % 256), 256);
    Fits256(Low(Shl(mant, expt % 256), 256));
  }

  /** The measured timespan as it enters an adjustment. */
  function Span(span: U64, t: U64): U64
    requires MinSpan(t) <= MaxSpan(t)
  {
    Clamp(span, MinSpan(t), MaxSpan(t))
  }

  /** Spans outside the bounds count as the nearer bound. */
  lemma SpanIsClamped(span: U64, t: U64)
    requires 4 * t < TWO_64
    ensures MinSpan(t) <= MaxSpan(t)
    ensures 4 * span < t ==> Span(span, t) == t / 4
    ensures t / 4 <= span <= 4 * t ==> Span(span, t) == span
    ensures span > 4 * t ==> Span(span, t) == 4 * t
  {
    SmallMod(4 * t, TWO_64);
  }

  /** A longer span never counts as a shorter one. */
  lemma SpanMonotone(a: U64, b: U64, t: U64)
    requires a <= b && MinSpan(t) <= MaxSpan(t)
    ensures Span(a, t) <= Span(b, t)
  {
  }

  /** Where no product wraps, a longer timespan never gives a smaller next target, nor a smaller compact form. */
  lemma LongerIsEasier(prev: nat, a: U64, b: U64, t: U64, limit: nat)
    requires t > 0 && a <= b && MinSpan(t) <= MaxSpan(t)
    requires prev < TWO_256 && prev * Span(b, t) < TWO_256
    ensures var x, y := Adjusted(prev, Span(a, t), t, limit), Adjusted(prev, Span(b, t), t, limit);
            && 0 <= x <= y
            && CompactOf(x) <= CompactOf(y)
            && TargetOf(CompactOf(x)) <= TargetOf(CompactOf(y))
  {
    SpanMonotone(a, b, t);
    LongerAdjusted(prev, Span(a, t), Span(b, t), t, limit);
    CompactOrder(Adjusted(prev, Span(a, t), t, limit), Adjusted(prev, Span(b, t), t, limit));
  }

  lemma LongerAdjusted(prev: nat, a: nat, b: nat, t: nat, limit: nat)
    requires t > 0 && a <= b && prev * b < TWO_256
    ensures Adjusted(prev, a, t, limit) <= Adjusted(prev, b, t, limit) < TWO_256
  {
    MulMono(a, b, prev);
    LongerProduct(prev * a, prev * b, t, TWO_256);
    AdjustedParts(prev, a, t, limit);
    AdjustedParts(prev, b, t, limit);
  }

  /** Compact forms and what they decode to keep the order of targets. */
  lemma CompactOrder(x: nat, y: nat)
    requires x <= y < TWO_256
    ensures CompactOf(x) <= CompactOf(y) && TargetOf(CompactOf(x)) <= TargetOf(CompactOf(y))
  {
    Fits256(x);
    Fits256(y);
    CompactMonotone(x, y);
    TruncatedMonotone(x, y);
    DecodeEncode(x);
    DecodeEncode(y);
  }

  lemma LongerProduct(p: nat, q: nat, t: nat, modulus: nat)
    requires 0 < t && p <= q < modulus
    ensures p % modulus / t <= q % modulus / t
  {
    SmallMod(p, modulus);
    SmallMod(q, modulus);
    DivBelow(q, t, q / t + 1);
    DivBelow(p, t, q / t + 1);
  }

  /** The compact targets of a run of adjustments, starting from `first`. */
  function Run(first: nat, spans: seq<U64>, t: U64, limit: nat): (r: seq<nat>)
    requires t > 0 && MinSpan(t) <= MaxSpan(t)
    ensures |r| == |spans| + 1
  {
    if spans == [] then [first]
    else
      var before := Run(first, spans[..|spans| - 1], t, limit);
      before + [CompactOf(Adjusted(TargetOf(before[|spans| - 1]), Span(spans[|spans| - 1], t), t, limit))]
  }

  /** What every step of every run guarantees. */
  ghost predicate SafeStep(prev: nat, next: nat, span: nat, t: nat, limit: nat)
    requires t > 0
  {
    && next <= limit && next <= 4 * prev
    && (StepBounds(prev, next, limit) <==> KeepsQuarter(prev, span, t))
    && (t % 4 == 0 && 4 * prev < TWO_256 && prev * span < TWO_256 ==> StepBounds(prev, next, limit))
  }

  lemma OneSafeStep(prev: nat, span: nat, t: nat, limit: nat)
    requires 0 < t && t / 4 <= span && prev <= limit && prev < TWO_256
    ensures SafeStep(prev, TargetOf(CompactOf(Adjusted(prev, span, t, limit))), span, t, limit)
  {
    OneStep(prev, span, t, limit);
    if t % 4 == 0 && 4 * prev < TWO_256 {
      KeepsQuarterIff(prev, span, t);
    }
  }

  /**
   Safety over whole runs, of any network and whatever the timespans: every target stays at or below
   the limit and at most quadruples; it keeps a quarter exactly when the wrapped values do, and so
   always where nothing wraps.
   */
  lemma {:induction false} RunIsSafe(first: nat, spans: seq<U64>, t: U64, limit: nat, i: nat)
    requires t > 0 && MinSpan(t) <= MaxSpan(t) && TargetOf(first) <= limit
    requires i <= |spans|
    ensures TargetOf(Run(first, spans, t, limit)[i]) <= limit
    ensures i > 0 ==> SafeStep(TargetOf(Run(first, spans, t, limit)[i - 1]),
                               TargetOf(Run(first, spans, t, limit)[i]), Span(spans[i - 1], t), t, limit)
    decreases |spans|
  {
    if spans != [] {
      var head := spans[..|spans| - 1];
      if i < |spans| {
        RunIsSafe(first, head, t, limit, i);
      } else {
        RunIsSafe(first, head, t, limit, i - 1);
        var prev := TargetOf(Run(first, head, t, limit)[i - 1]);
        TargetFits(Run(first, head, t, limit)[i - 1]);
        OneSafeStep(prev, Span(spans[i - 1], t), t, limit);
      }
    }
  }

  /** A parameter set under which no adjustment of a target at or below the limit can wrap. */
  ghost predicate NeverWraps(limit: nat, t: nat) {
    limit * (4 * t) < TWO_256
  }

  lemma NoWrap(prev: nat, span: nat, limit: nat, t: nat)
    requires NeverWraps(limit, t) && prev <= limit && span <= 4 * t && t > 0
    ensures prev * span < TWO_256 && 4 * prev < TWO_256
  {
    MulMono(prev, limit, span);
    MulMono(span, 4 * t, limit);
    MulMono(4, 4 * t, limit);
  }

  lemma SpanBelow(span: U64, t: U64)
    requires MinSpan(t) <= MaxSpan(t)
    ensures Span(span, t) <= 4 * t
  {
    DivNonneg(4 * t, TWO_64);
    assert 4 * t == 4 * t / TWO_64 * TWO_64 + 4 * t % TWO_64;
  }

  /** Where no product can wrap, every step of every run keeps all bounds. */
  lemma RunWithoutWraps(first: nat, spans: seq<U64>, t: U64, limit: nat, i: nat)
    requires t > 0 && t % 4 == 0 && MinSpan(t) <= MaxSpan(t) && TargetOf(first) <= limit
    requires NeverWraps(limit, t) && 0 < i <= |spans|
    ensures StepBounds(TargetOf(Run(first, spans, t, limit)[i - 1]), TargetOf(Run(first, spans, t, limit)[i]), limit)
  {
    var run := Run(first, spans, t, limit);
    StepOfRun(run, first, spans, t, limit, i);
    SafeWithoutWrap(TargetOf(run[i - 1]), TargetOf(run[i]), spans[i - 1], t, limit);
  }

  lemma StepOfRun(run: seq<nat>, first: nat, spans: seq<U64>, t: U64, limit: nat, i: nat)
    requires t > 0 && MinSpan(t) <= MaxSpan(t) && TargetOf(first) <= limit
    requires run == Run(first, spans, t, limit) && 0 < i <= |spans|
    ensures TargetOf(run[i - 1]) <= limit
    ensures SafeStep(TargetOf(run[i - 1]), TargetOf(run[i]), Span(spans[i - 1], t), t, limit)
  {
    RunIsSafe(first, spans, t, limit, i - 1);
    RunIsSafe(first, spans, t, limit, i);
  }

  lemma SafeWithoutWrap(prev: nat, next: nat, span: U64, t: U64, limit: nat)
    requires t > 0 && t % 4 == 0 && MinSpan(t) <= MaxSpan(t) && NeverWraps(limit, t) && prev <= limit
    requires SafeStep(prev, next, Span(span, t), t, limit)
    ensures StepBounds(prev, next, limit)
  {
    SpanBelow(span, t);
    NoWrap(prev, Span(span, t), limit, t);
  }

  /** The main network's own limit and timespan: a limit of `0x0ffff0 * 2^216` and 302400 seconds. */
  ghost function MainnetLimit(): nat {
    0x0f_fff0 * Pow(2, 216)
  }

  /** The timespan enters the adjustment as it is. */
  predicate InSpan(span: U64, t: U64) {
    MinSpan(t) <= MaxSpan(t) && Span(span, t) == span
  }

  lemma SpanUnclamped(span: U64, t: U64)
    requires t / 4 <= span <= 4 * t < TWO_64
    ensures InSpan(span, t)
  {
    SmallMod(4 * t, TWO_64);
  }

  const MAINNET_LIMIT: U32 := 0x1e0f_fff0
  const MAINNET_TIMESPAN: U64 := 302400

  /** Compact forms with exponent 30 and a mantissa of 17 to 23 bits are exact in both directions. */
  lemma HeldExactly(c: nat, e: nat, m: nat, k: nat)
    requires 0x1_0000 <= m < 0x80_0000 && e == 30 && c == 0x100_0000 * e + m && k == Pow(2, 216)
    ensures Fits(m * k, 256) && Truncated(m * k) == m * k
    ensures CompactOf(m * k) == c && TargetOf(c) == m * k
  {
    var t := Shl(m, 216);
    ShlIsMul(m, 216);
    MantissaLength(m);
    BitLenShl(m, 216);
    BitLenFits(t, 256);
    assert LostBits(t) == 216;
    ShlAlone(m, 216);
    Pow2To24();
    ShlIsMul(e, 24);
    DecodeEncode(t);
  }

  lemma MantissaLength(m: nat)
    requires 0x1_0000 <= m < 0x80_0000
    ensures 17 <= BitLen(m) <= 23
  {
    Pow2To24();
    BitLenFits(m, 23);
    FitsIsBelow(m, 23);
    BitLenFits(m, 16);
    FitsIsBelow(m, 16);
    Pow2To8();
    PowAdd(2, 8, 8);
  }

  /**
   With the main network's own parameters the product does wrap: at the limit, after the longest
   timespan, the rule keeps the limit while the computed target and its compact form fall below it.
   */
  lemma MainnetWraps(c: U32, t: U64)
    requires c == MAINNET_LIMIT && t == MAINNET_TIMESPAN
    ensures var l := TargetOf(c);
            && l == MainnetLimit() && !NeverWraps(l, t) && InSpan(4 * t, t)
            && Rule(l, 4 * t, t, l) == l && CompactOf(Rule(l, 4 * t, t, l)) == c
            && Adjusted(l, 4 * t, t, l) < l && CompactOf(Adjusted(l, 4 * t, t, l)) != c
  {
    var k := Pow(2, 216);
    Range(k);
    HeldExactly(c, 30, 0x0f_fff0, k);
    SpanUnclamped(4 * t, t);
    FallsBelow(c, 0x0f_fff0 * k, k, 4 * t, t);
  }

  lemma FallsBelow(c: nat, l: nat, k: nat, span: nat, t: nat)
    requires TWO_256 == 1099511627776 * k && k > 0 && l == 0x0f_fff0 * k && span == 1209600 && t == 302400
    requires Fits(l, 256) && TargetOf(c) == l
    ensures l * span >= TWO_256 && Rule(l, span, t, l) == l
    ensures Adjusted(l, span, t, l) < l && CompactOf(Adjusted(l, span, t, l)) != c
  {
    WrapAtLimit(k, TWO_256, l, span, t);
    AdjustedParts(l, span, t, l);
    var a := Adjusted(l, span, t, l);
    SmallerFits(a, l);
    DecodeEncode(a);
    TruncatedBelow(a);
  }

  /** The numbers of the wrapped product, in units of `2^216`. */
  lemma WrapAtLimit(k: nat, modulus: nat, l: nat, span: nat, t: nat)
    requires k > 0 && modulus == 1099511627776 * k && l == 0x0f_fff0 * k && span == 1209600 && t == 302400
    ensures l * span >= modulus && l * span / t == 4 * l && l * span % modulus / t < l
  {
    assert l * span == 1268338176000 * k;
    DivModUnique(l * span, modulus, 1, 168826548224 * k);
    DivBelow(168826548224 * k, t, l);
    DivModUnique(l * span, t, 4 * l, 0);
  }

  /**
   How far the main network's target can fall in one adjustment: from the limit, after 1048593
   seconds, to less than a 302400th of it, although so slow a period should leave it at the limit.
   */
  lemma MainnetCollapses(l: nat, t: U64, span: U64)
    requires l == TargetOf(MAINNET_LIMIT) && t == MAINNET_TIMESPAN && span == 1048593
    ensures InSpan(span, t) && Rule(l, span, t, l) == l
    ensures TargetOf(CompactOf(Adjusted(l, span, t, l))) * 302400 < l
    ensures TargetOf(CompactOf(Adjusted(l, span, t, l))) < Floor(l) && !KeepsQuarter(l, span, t)
  {
    SpanUnclamped(span, t);
    var k := Pow(2, 216);
    Range(k);
    HeldExactly(MAINNET_LIMIT, 30, 0x0f_fff0, k);
    HeldExactly(0x1e03_fffc, 30, 262140, k);
    Collapses(l, k, span, t);
  }

  lemma Collapses(l: nat, k: nat, span: nat, t: nat)
    requires TWO_256 == 1099511627776 * k && k > 0 && l == 0x0f_fff0 * k && span == 1048593 && t == 302400
    requires Fits(l, 256) && Truncated(262140 * k) == 262140 * k
    ensures Rule(l, span, t, l) == l
    ensures TargetOf(CompactOf(Adjusted(l, span, t, l))) * 302400 < l
    ensures TargetOf(CompactOf(Adjusted(l, span, t, l))) < Floor(l) && !KeepsQuarter(l, span, t)
  {
    CollapseAtLimit(k, TWO_256, l, span, t);
    AdjustedParts(l, span, t, l);
    var a := Adjusted(l, span, t, l);
    SmallerFits(a, l);
    DecodeEncode(a);
    TruncatedBelow(a);
  }

  lemma CollapseAtLimit(k: nat, modulus: nat, l: nat, span: nat, t: nat)
    requires k > 0 && modulus == 1099511627776 * k && l == 0x0f_fff0 * k && span == 1048593 && t == 302400
    ensures l / 4 == 262140 * k && l * span / t >= l
    ensures l * span % modulus / t * 302400 < l && l * span % modulus / t < 262140 * k
  {
    assert l * span == 1099512676080 * k;
    DivModUnique(l * span, modulus, 1, 1048304 * k);
    DivBelow(1048304 * k, t, 262140 * k);
    DivBelow(l * span, t, l);
    assert 1048304 * k / t * t <= 1048304 * k;
  }

  lemma Range(k: nat)
    requires k == Pow(2, 216)
    ensures TWO_256 == 1099511627776 * k && k > 0
  {
    Pow2To256();
    PowAdd(2, 40, 216);
    Pow2To8();
    PowAdd(2, 8, 8);
    PowAdd(2, 16, 16);
    PowAdd(2, 32, 8);
  }
}
