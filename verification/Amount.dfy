/** Decimal amounts in nine denominations: a parser and a printer that undo each other. */
module Amount {
  import opened Arith
  import opened Results
  import opened Decimal

  datatype Denomination =
    | Bitcoin | CentiBitcoin | MilliBitcoin | MicroBitcoin | NanoBitcoin | PicoBitcoin | Bit | Satoshi | MilliSatoshi
  {
    /** Decimal places of the denomination beyond those of a satoshi. */
    function Precision(): int {
      match this
      case Bitcoin => -8
      case CentiBitcoin => -6
      case MilliBitcoin => -5
      case MicroBitcoin => -2
      case NanoBitcoin => 1
      case PicoBitcoin => 4
      case Bit => -2
      case Satoshi => 0
      case MilliSatoshi => 3
    }
  }

  datatype MissingDigits = Empty | OnlyMinusSign

  datatype ParseError =
    | Overflow(isNegative: bool)
    | TooPrecise(position: nat)
    | NoDigits(kind: MissingDigits)
    | InputTooLarge(len: nat)
    | InvalidCharacter(invalid: char, position: nat)

  const INPUT_STRING_LEN_LIMIT: nat := 50

  // What strings mean.

  /** The place of the decimal point, or the length. */
  function FindDot(s: string): (n: nat)
    ensures n <= |s| && (n < |s| ==> s[n] == '.')
    ensures forall i :: 0 <= i < n ==> s[i] != '.'
  {
    if s == [] || s[0] == '.' then 0 else 1 + FindDot(s[1..])
  }

  /** The first `i` characters without the decimal point. */
  function Digits(s: string, i: nat): string
    requires i <= |s|
  {
    Without(s, FindDot(s), i)
  }

  function Without(s: string, dot: nat, i: nat): string
    requires i <= |s|
  {
    if dot < i then s[..dot] + s[dot + 1..i] else s[..i]
  }

  /** How many characters follow the decimal point. */
  function Decimals(s: string): nat {
    if FindDot(s) < |s| then |s| - FindDot(s) - 1 else 0
  }

  /** Digits with at most one decimal point and at most `max` decimals. */
  ghost predicate WellFormed(s: string, max: nat) {
    AllDigits(Digits(s, |s|)) && Decimals(s) <= max
  }

  /** The decimal number a well-formed string spells, times `10^max`: an exact integer. */
  ghost function Scaled(s: string, max: nat): nat
    requires WellFormed(s, max)
  {
    TimesTen(Number(Digits(s, |s|)), max - Decimals(s))
  }

  /** A string that stands for a whole number of satoshis, `10^p` times smaller than its integer part. */
  ghost predicate WholeMultiple(s: string, p: nat) {
    && p < FindDot(s)
    && (forall k :: FindDot(s) - p <= k < FindDot(s) ==> s[k] == '0')
    && (forall k :: FindDot(s) < k < |s| ==> s[k] == '0')
  }

  /** A signed integer literal with the value zero, as the standard library reads one. */
  predicate IntegerZero(s: string) {
    OnlyZeros(if s != [] && (s[0] == '+' || s[0] == '-') then s[1..] else s)
  }

  predicate OnlyZeros(s: string) {
    s != [] && forall i :: 0 <= i < |s| ==> s[i] == '0'
  }

  /** The unsigned part of a string and what it is accepted as, in satoshis. */
  ghost predicate Means(s: string, precision: int, value: nat) {
    if precision < 0 then
      WellFormed(s, -precision) && value == Scaled(s, -precision)
    else if WholeMultiple(s, precision) then
      && AllDigits(s[..FindDot(s) - precision])
      && value == Number(s[..FindDot(s) - precision])
    else
      IntegerZero(s) && value == 0
  }

  function Unsigned(s: string): string {
    if s != [] && s[0] == '-' then s[1..] else s
  }

  /** Accepted strings and their values: a sign, and an unsigned part of a 64-bit value. */
  ghost predicate Accepts(s: string, denom: Denomination, negative: bool, value: U64) {
    && |s| <= 50 && Unsigned(s) != []
    && negative == (s[0] == '-')
    && Means(Unsigned(s), denom.Precision(), value)
  }

  // Facts about digit strings.

  lemma DigitsStep(s: string, i: nat)
    requires i < |s|
    ensures Digits(s, i + 1) == if i == FindDot(s) then Digits(s, i) else Digits(s, i) + [s[i]]
  {
    WithoutStep(s, FindDot(s), i);
  }

  lemma WithoutStep(s: string, dot: nat, i: nat)
    requires i < |s|
    ensures Without(s, dot, i + 1) == if i == dot then Without(s, dot, i) else Without(s, dot, i) + [s[i]]
  {
    if dot < i {
      assert s[dot + 1..i + 1] == s[dot + 1..i] + [s[i]];
    } else if dot > i {
      assert s[..i + 1] == s[..i] + [s[i]];
    } else {
      assert s[dot + 1..i + 1] == [];
    }
  }

  lemma {:induction false} DigitsPrefix(s: string, i: nat)
    requires i <= |s|
    ensures Digits(s, i) <= Digits(s, |s|)
    decreases |s| - i
  {
    if i < |s| {
      DigitsStep(s, i);
      DigitsPrefix(s, i + 1);
    }
  }

  /** More digits never make a number smaller. */
  lemma NumberPrefix(s: string, t: string)
    requires AllDigits(t) && s <= t
    ensures AllDigits(s) && Number(s) <= Number(t)
  {
    var rest := t[|s|..];
    assert t == s + rest;
    NumberConcat(s, rest);
    TimesTenGrows(Number(s), 0, |rest|);
  }

  /** Digits read so far that overflow 64 bits make the whole number overflow. */
  lemma TooLarge(s: string, i: nat, max: nat, v: nat)
    requires i <= |s| && WellFormed(s, max) && AllDigits(Digits(s, i)) && v == Number(Digits(s, i))
    ensures v <= Scaled(s, max)
  {
    DigitsPrefix(s, i);
    PrefixBelow(Digits(s, i), Digits(s, |s|), max - Decimals(s));
  }

  lemma PrefixBelow(pre: string, all: string, k: nat)
    requires AllDigits(pre) && AllDigits(all) && pre <= all
    ensures Number(pre) <= TimesTen(Number(all), k)
  {
    NumberPrefix(pre, all);
    TimesTenGrows(Number(all), 0, k);
  }

  lemma NotADigit(s: string, i: nat, max: nat)
    requires i < |s| && i != FindDot(s) && !IsDigit(s[i])
    ensures !WellFormed(s, max)
  {
    DigitsStep(s, i);
    DigitsPrefix(s, i + 1);
    var d := Digits(s, |s|);
    assert d[|Digits(s, i)|] == s[i];
  }

  // The parser.

  /** The value of the digits among the first `i` characters. */
  ghost predicate ReadTo(s: string, i: nat, value: nat) {
    i <= |s| && AllDigits(Digits(s, i)) && value == Number(Digits(s, i))
  }

  /** How many decimals there are among the first `i` characters, if there is a decimal point. */
  ghost predicate At(s: string, i: nat, max: nat, decimals: Option<nat>) {
    && decimals == (if FindDot(s) < i then Some(i - FindDot(s) - 1) else None)
    && (decimals.Some? ==> decimals.value <= max)
  }

  lemma PushDigit(s: string, i: nat)
    requires i < |s| && i != FindDot(s) && IsDigit(s[i]) && AllDigits(Digits(s, i))
    ensures AllDigits(Digits(s, i + 1))
    ensures Number(Digits(s, i + 1)) == 10 * Number(Digits(s, i)) + DigitValue(s[i])
  {
    DigitsStep(s, i);
    NumberPush(Digits(s, i), s[i]);
  }

  /** What an error of the unsigned part says about it; positions count the sign. */
  ghost predicate Blames(e: ParseError, s: string, isNegative: bool) {
    && (e.Overflow? ==> e.isNegative == isNegative)
    && (e.InvalidCharacter? ==>
          var at := e.position - (if isNegative then 1 else 0);
          0 <= at < |s| && s[at] == e.invalid)
  }

  /** Reads digits and at most one decimal point; the value keeps all digits. */
  method ReadDigits(s: string, max: nat, isNegative: bool)
    returns (r: Result<(U64, Option<nat>), ParseError>)
    requires max == 0 ==> FindDot(s) == |s|
    ensures r.Ok? ==> ReadTo(s, |s|, r.value.0) && At(s, |s|, max, r.value.1) && WellFormed(s, max)
    ensures r.Err? && WellFormed(s, max) ==> Scaled(s, max) >= TWO_64
    ensures r.Err? ==> Blames(r.error, s, isNegative)
  {
    var value: U64, decimals: Option<nat> := 0, None;
    for i := 0 to |s|
      invariant ReadTo(s, i, value) && At(s, i, max, decimals)
    {
      var at := i + if isNegative then 1 else 0;
      if IsDigit(s[i]) {
        var next := 10 * value + DigitValue(s[i]);
        NumberRead(s, i, value, next);
        if next >= TWO_64 {
          OverflowRead(s, i + 1, max, next);
          return Err(Overflow(isNegative));
        }
        if decimals.Some? && decimals.value >= max {
          return Err(TooPrecise(at));
        }
        value := next;
        decimals := match decimals case None => None case Some(d) => Some(d + 1);
      } else if s[i] == '.' && decimals.None? {
        PointRead(s, i, value);
        decimals := Some(0);
      } else {
        NotADigit(s, i, max);
        return Err(InvalidCharacter(s[i], at));
      }
    }
    r := Ok((value, decimals));
  }

  lemma NumberRead(s: string, i: nat, value: nat, next: nat)
    requires i < |s| && IsDigit(s[i]) && ReadTo(s, i, value) && next == 10 * value + DigitValue(s[i])
    ensures ReadTo(s, i + 1, next)
  {
    PushDigit(s, i);
  }

  lemma PointRead(s: string, i: nat, value: nat)
    requires i < |s| && i == FindDot(s) && ReadTo(s, i, value)
    ensures ReadTo(s, i + 1, value)
  {
    DigitsStep(s, i);
  }

  lemma OverflowRead(s: string, i: nat, max: nat, next: nat)
    requires ReadTo(s, i, next)
    ensures WellFormed(s, max) ==> next <= Scaled(s, max)
  {
    if WellFormed(s, max) {
      TooLarge(s, i, max, next);
    }
  }

  /** Multiplies by ten, `n` times, unless that overflows. */
  method ShiftLeft(value: U64, n: nat) returns (r: Option<U64>)
    ensures r.Some? <==> TimesTen(value, n) < TWO_64
    ensures r.Some? ==> r.value == TimesTen(value, n)
  {
    var v: U64 := value;
    for k := 0 to n
      invariant v == TimesTen(value, k)
    {
      TimesTenGrows(value, k + 1, n);
      if 10 * v >= TWO_64 {
        return None;
      }
      v := 10 * v;
    }
    r := Some(v);
  }

  /** The last character in `s[from..end]` that is not a zero digit. */
  function LastNonZero(s: string, from: nat, end: nat): (r: Option<nat>)
    requires from <= end <= |s|
    ensures r.None? <==> forall k :: from <= k < end ==> s[k] == '0'
    ensures r.Some? ==> from <= r.value < end && s[r.value] != '0'
    ensures r.Some? ==> forall k :: r.value < k < end ==> s[k] == '0'
    decreases end
  {
    if from == end then None
    else if s[end - 1] != '0' then Some(end - 1)
    else LastNonZero(s, from, end - 1)
  }

  /** The first character in `s[from..end]` that is not a zero digit. */
  function FirstNonZero(s: string, from: nat, end: nat): (r: Option<nat>)
    requires from <= end <= |s|
    ensures r.None? <==> forall k :: from <= k < end ==> s[k] == '0'
    ensures r.Some? ==> from <= r.value < end && s[r.value] != '0'
    ensures r.Some? ==> forall k :: from <= k < r.value ==> s[k] == '0'
    decreases end - from
  {
    if from == end then None
    else if s[from] != '0' then Some(from)
    else FirstNonZero(s, from + 1, end)
  }

  /** The last non-zero of the integer digits that should be zeros, else the first non-zero decimal. */
  ghost predicate Culprit(s: string, precision: nat, at: nat)
    requires precision < FindDot(s)
  {
    var dot := FindDot(s);
    && at < |s| && s[at] != '0' && dot - precision <= at != dot
    && (at < dot ==> forall k :: at < k < dot ==> s[k] == '0')
    && (at > dot ==> (forall k :: dot - precision <= k < dot ==> s[k] == '0') && forall k :: dot < k < at ==> s[k] == '0')
  }

  /** Where a string is too precise to be a whole multiple of `10^precision`, if anywhere. */
  function IsTooPrecise(s: string, precision: nat): (r: Option<nat>)
    ensures r.None? <==> WholeMultiple(s, precision)
    ensures r.Some? ==> if FindDot(s) <= precision then r.value == 0 else Culprit(s, precision, r.value)
  {
    var pos := FindDot(s);
    if precision >= pos then Some(0)
    else
      match LastNonZero(s, pos - precision, pos)
      case Some(i) => Some(i)
      case None => if pos < |s| then FirstNonZero(s, pos + 1, |s|) else None
  }

  /** The first digit that is too precise, which the reported position is documented to be. */
  function FirstTooPrecise(s: string, precision: nat): Option<nat> {
    var dot := FindDot(s);
    match FirstNonZero(s, if dot < precision then 0 else dot - precision, dot)
    case Some(i) => Some(i)
    case None => if dot < |s| then FirstNonZero(s, dot + 1, |s|) else None
  }

  ghost predicate AtMostOneNonZero(s: string, from: nat, end: nat)
    requires from <= end <= |s|
  {
    forall i, j :: from <= i < j < end ==> s[i] == '0' || s[j] == '0'
  }

  /**
   The reported position is the first digit that is too precise exactly when at most one of the
   integer digits in question is non-zero; where the string has no digit above those, the start is
   reported, which is right exactly when it is a non-zero digit.
   */
  lemma PositionIsFirstIff(s: string, precision: nat)
    requires IsTooPrecise(s, precision).Some?
    ensures precision < FindDot(s) ==>
              (IsTooPrecise(s, precision) == FirstTooPrecise(s, precision) <==>
               AtMostOneNonZero(s, FindDot(s) - precision, FindDot(s)))
    ensures FindDot(s) <= precision ==>
              (IsTooPrecise(s, precision) == FirstTooPrecise(s, precision) <==> FindDot(s) > 0 && s[0] != '0')
  {
    if precision < FindDot(s) {
      AboveTheDigits(s, precision);
    } else {
      FirstOfAll(s, precision);
    }
  }

  lemma AboveTheDigits(s: string, precision: nat)
    requires IsTooPrecise(s, precision).Some? && precision < FindDot(s)
    ensures IsTooPrecise(s, precision) == FirstTooPrecise(s, precision) <==>
            AtMostOneNonZero(s, FindDot(s) - precision, FindDot(s))
  {
    FirstIsLastIff(s, FindDot(s) - precision, FindDot(s));
  }

  lemma FirstOfAll(s: string, precision: nat)
    requires FindDot(s) <= precision
    ensures IsTooPrecise(s, precision) == Some(0)
    ensures FirstTooPrecise(s, precision) == Some(0) <==> FindDot(s) > 0 && s[0] != '0'
  {
  }

  lemma FirstIsLastIff(s: string, from: nat, end: nat)
    requires from <= end <= |s|
    ensures FirstNonZero(s, from, end) == LastNonZero(s, from, end) <==> AtMostOneNonZero(s, from, end)
    ensures FirstNonZero(s, from, end).Some? <==> LastNonZero(s, from, end).Some?
  {
  }

  /** Of the last three digits of 1110, the second is reported, although the first is too precise. */
  lemma LastIsReported()
    ensures IsTooPrecise("1110", 3) == Some(2) && FirstTooPrecise("1110", 3) == Some(1)
  {
    var s := "1110";
    NoPoint(s);
    assert LastNonZero(s, 1, 4) == LastNonZero(s, 1, 3) == Some(2);
    assert FirstNonZero(s, 1, 4) == Some(1);
  }

  lemma NoPoint(s: string)
    requires forall i :: 0 <= i < |s| ==> s[i] != '.'
    ensures FindDot(s) == |s|
  {
  }

  /** The unsigned part in a denomination coarser than a satoshi. */
  method ParseCoarse(s: string, max: nat, isNegative: bool) returns (r: Result<U64, ParseError>)
    requires max > 0
    ensures forall v: U64 :: r == Ok(v) <==> Means(s, -(max as int), v)
    ensures r.Err? ==> Blames(r.error, s, isNegative)
  {
    var read := ReadDigits(s, max, isNegative);
    if read.Err? {
      return Err(read.error);
    }
    var (value, decimals) := read.value;
    var scaled := ShiftLeft(value, max - match decimals case None => 0 case Some(d) => d);
    r := if scaled.None? then Err(Overflow(isNegative)) else Ok(scaled.value);
  }

  /** The unsigned part in satoshis or a finer denomination. */
  method ParseFine(s: string, precision: nat, isNegative: bool) returns (r: Result<U64, ParseError>)
    ensures forall v: U64 :: r == Ok(v) <==> Means(s, precision, v)
    ensures r.Err? ==> Blames(r.error, s, isNegative)
  {
    var position := IsTooPrecise(s, precision);
    if position.Some? {
      if IntegerZero(s) {
        return Ok(0);
      }
      return Err(TooPrecise(position.value + if isNegative then 1 else 0));
    }
    var whole := s[..FindDot(s) - precision];
    NoDot(s, FindDot(s) - precision);
    var read := ReadDigits(whole, 0, isNegative);
    r := if read.Err? then Err(read.error) else Ok(read.value.0);
  }

  /** Before the decimal point there is none. */
  lemma NoDot(s: string, n: nat)
    requires n <= FindDot(s)
    ensures FindDot(s[..n]) == n && Digits(s[..n], n) == s[..n] && Decimals(s[..n]) == 0
    ensures AllDigits(s[..n]) ==> WellFormed(s[..n], 0) && Scaled(s[..n], 0) == Number(s[..n])
    ensures WellFormed(s[..n], 0) ==> AllDigits(s[..n])
  {
    var t := s[..n];
    assert forall i :: 0 <= i < n ==> t[i] == s[i] != '.';
    assert t[..n] == t;
  }

  /** Accepts exactly the strings that have a meaning, and returns their exact value. */
  method ParseSignedToSatoshi(s: string, denom: Denomination) returns (r: Result<(bool, U64), ParseError>)
    ensures forall negative: bool, v: U64 :: r == Ok((negative, v)) <==> Accepts(s, denom, negative, v)
    ensures s == [] ==> r == Err(NoDigits(Empty))
    ensures |s| > 50 ==> r == Err(InputTooLarge(|s|))
    ensures s == "-" ==> r == Err(NoDigits(OnlyMinusSign))
    ensures r.Err? && r.error.Overflow? ==> s != [] && r.error.isNegative == (s[0] == '-')
    ensures r.Err? && r.error.InvalidCharacter? ==> r.error.position < |s| && s[r.error.position] == r.error.invalid
  {
    if s == [] {
      return Err(NoDigits(Empty));
    }
    if |s| > INPUT_STRING_LEN_LIMIT {
      return Err(InputTooLarge(|s|));
    }
    var isNegative := s[0] == '-';
    if isNegative && |s| == 1 {
      return Err(NoDigits(OnlyMinusSign));
    }
    var unsigned := if isNegative then s[1..] else s;
    assert unsigned == Unsigned(s);
    var precisionDiff := -denom.Precision();
    var parsed;
    if precisionDiff <= 0 {
      parsed := ParseFine(unsigned, -precisionDiff, isNegative);
    } else {
      parsed := ParseCoarse(unsigned, precisionDiff, isNegative);
    }
    assert forall v: U64 :: parsed == Ok(v) <==> Means(unsigned, denom.Precision(), v);
    r := if parsed.Err? then Err(parsed.error) else Ok((isNegative, parsed.value));
  }

  /** In a coarser denomination nothing is rounded: integer and decimal digits count in full. */
  lemma ExactCoarse(s: string, max: nat, v: nat)
    requires max > 0 && Means(s, -(max as int), v)
    ensures var dot := FindDot(s);
            var decimals := if dot < |s| then s[dot + 1..] else [];
            && AllDigits(s[..dot]) && AllDigits(decimals) && |decimals| <= max
            && v == Number(s[..dot]) * Pow(10, max) + Number(decimals) * Pow(10, max - |decimals|)
  {
    var dot := FindDot(s);
    var whole, decimals := s[..dot], if dot < |s| then s[dot + 1..] else [];
    SplitAtDot(s, dot, whole, decimals);
    BothDigits(whole, decimals);
    ScaledParts(whole, decimals, max);
    TimesTenIsPow(Number(whole), max);
    TimesTenIsPow(Number(decimals), max - |decimals|);
  }

  /** The scaled number of integer and decimal digits is the sum of both, scaled. */
  lemma ScaledParts(a: string, b: string, max: nat)
    requires AllDigits(a) && AllDigits(b) && |b| <= max
    ensures AllDigits(a + b)
    ensures TimesTen(Number(a + b), max - |b|) == TimesTen(Number(a), max) + TimesTen(Number(b), max - |b|)
  {
    NumberConcat(a, b);
    TimesTenSum(TimesTen(Number(a), |b|), Number(b), max - |b|);
    TimesTenTwice(Number(a), |b|, max - |b|);
  }

  lemma SplitAtDot(s: string, dot: nat, whole: string, decimals: string)
    requires dot == FindDot(s) && whole == s[..dot] && decimals == if dot < |s| then s[dot + 1..] else []
    ensures Digits(s, |s|) == whole + decimals && Decimals(s) == |decimals|
  {
    WithoutAll(s, dot);
  }

  lemma WithoutAll(s: string, dot: nat)
    requires dot <= |s|
    ensures Without(s, dot, |s|) == s[..dot] + (if dot < |s| then s[dot + 1..] else [])
  {
    if dot == |s| {
      assert s[..dot] == s && s + [] == s;
    }
  }

  lemma BothDigits(a: string, b: string)
    requires AllDigits(a + b)
    ensures AllDigits(a) && AllDigits(b)
  {
    assert forall i :: 0 <= i < |a| ==> a[i] == (a + b)[i];
    assert forall i :: 0 <= i < |b| ==> b[i] == (a + b)[|a| + i];
  }

  /** In a finer one the integer part is the exact multiple, and the decimals are zeros. */
  lemma ExactFine(s: string, p: nat, v: nat)
    requires Means(s, p, v) && WholeMultiple(s, p)
    ensures AllDigits(s[..FindDot(s)]) && Number(s[..FindDot(s)]) == v * Pow(10, p)
    ensures forall k :: FindDot(s) < k < |s| ==> s[k] == '0'
  {
    var dot := FindDot(s);
    var head, zeros := s[..dot - p], s[dot - p..dot];
    assert s[..dot] == head + zeros;
    assert forall i :: 0 <= i < p ==> zeros[i] == s[dot - p + i];
    NumberConcat(head, zeros);
    ZeroNumber(zeros);
    TimesTenIsPow(v, p);
  }

  /** The literals of zero, written out: an optional sign and zeros. */
  lemma ZeroForms(s: string)
    ensures IntegerZero(s) <==>
            exists n: nat :: n > 0 && (s == Repeat('0', n) || s == "+" + Repeat('0', n) || s == "-" + Repeat('0', n))
  {
    if IntegerZero(s) {
      var zeros := if s[0] == '0' then s else s[1..];
      assert zeros == Repeat('0', |zeros|);
      assert s[0] != '0' ==> s == [s[0]] + zeros;
    }
    forall n: nat | n > 0 && (s == Repeat('0', n) || s == "+" + Repeat('0', n) || s == "-" + Repeat('0', n))
      ensures IntegerZero(s)
    {
      ZerosRead(s, n);
    }
  }

  lemma ZerosRead(s: string, n: nat)
    requires n > 0 && (s == Repeat('0', n) || s == "+" + Repeat('0', n) || s == "-" + Repeat('0', n))
    ensures IntegerZero(s)
  {
    if s[0] != '0' {
      assert s[1..] == Repeat('0', n);
    }
  }

  /** What one unit of each denomination is worth in satoshis, or how many units are worth one. */
  lemma UnitValues()
    ensures Accepts("1", Bitcoin, false, 100000000)
    ensures Accepts("1", CentiBitcoin, false, 1000000)
    ensures Accepts("1", MilliBitcoin, false, 100000)
    ensures Accepts("1", MicroBitcoin, false, 100) && Accepts("1", Bit, false, 100)
    ensures Accepts("1", Satoshi, false, 1)
    ensures Accepts("10", NanoBitcoin, false, 1)
    ensures Accepts("1000", MilliSatoshi, false, 1)
    ensures Accepts("10000", PicoBitcoin, false, 1)
  {
    PowersOfTen();
    CoarseUnit("1", Bitcoin, 8, 100000000);
    CoarseUnit("1", CentiBitcoin, 6, 1000000);
    CoarseUnit("1", MilliBitcoin, 5, 100000);
    CoarseUnit("1", MicroBitcoin, 2, 100);
    CoarseUnit("1", Bit, 2, 100);
    FineUnits();
  }

  lemma PowersOfTen()
    ensures TimesTen(1, 2) == 100 && TimesTen(1, 5) == 100000 && TimesTen(1, 6) == 1000000
    ensures TimesTen(1, 8) == 100000000
  {
    TimesTenTwice(1, 2, 3);
    TimesTenTwice(1, 5, 1);
    TimesTenTwice(1, 6, 2);
  }

  lemma FineUnits()
    ensures Accepts("1", Satoshi, false, 1)
    ensures Accepts("10", NanoBitcoin, false, 1)
    ensures Accepts("1000", MilliSatoshi, false, 1)
    ensures Accepts("10000", PicoBitcoin, false, 1)
  {
    FineUnit("1", Satoshi, 0);
    FineUnit("10", NanoBitcoin, 1);
    FineUnit("1000", MilliSatoshi, 3);
    FineUnit("10000", PicoBitcoin, 4);
  }

  lemma CoarseUnit(s: string, denom: Denomination, max: nat, value: U64)
    requires s == "1" && max > 0 && denom.Precision() == -(max as int) && value == TimesTen(1, max)
    ensures Accepts(s, denom, false, value)
  {
    NumberOfNumeral(1);
    TimesTenOfZero(max);
    assert Number("") == 0;
    CoarseText("1", "", s, max);
  }

  lemma FineUnit(s: string, denom: Denomination, p: nat)
    requires denom.Precision() == p < 50 && s == "1" + Repeat('0', p)
    ensures Accepts(s, denom, false, 1)
  {
    FineText(1, p, s);
  }

  lemma {:induction false} ZeroNumber(s: string)
    requires forall i :: 0 <= i < |s| ==> s[i] == '0'
    ensures AllDigits(s) && Number(s) == 0
  {
    if s != [] {
      ZeroNumber(s[..|s| - 1]);
    }
  }

  /**
   Strings the parser takes for zero although they are no decimal numbers: a lone point, and a
   second sign in denominations finer than a satoshi. In satoshis the second sign is refused.
   */
  lemma OddZeros()
    ensures Accepts(".", Bitcoin, false, 0)
    ensures Accepts("+0", MilliSatoshi, false, 0) && Accepts("--0", MilliSatoshi, true, 0)
    ensures forall v: U64 :: !Accepts("+0", Satoshi, false, v)
  {
    LonePoint(".");
    TwoSigns("+0", 3);
    TwoSigns("-0", 3);
    assert "--0"[1..] == "-0";
    PlusInSatoshis("+0");
  }

  lemma LonePoint(s: string)
    requires s == "."
    ensures Means(s, -8, 0)
  {
    assert Digits(s, 1) == [];
    TimesTenOfZero(8);
  }

  lemma TwoSigns(s: string, p: nat)
    requires (s == "+0" || s == "-0") && p >= 2
    ensures Means(s, p, 0)
  {
    NoPoint(s);
    assert s[1..] == "0";
  }

  lemma PlusInSatoshis(s: string)
    requires s == "+0"
    ensures forall v: nat :: !Means(s, 0, v)
  {
    NoPoint(s);
    assert s[..2] == s && !AllDigits(s) by { assert !IsDigit(s[0]); }
  }

  // The printer.

  datatype Alignment = Left | Right | Center

  datatype Options = Options(fill: char, align: Option<Alignment>, width: Option<nat>, precision: Option<nat>,
                             signPlus: bool, zeroPad: bool)

  const DEFAULT: Options := Options(' ', None, None, None, false, false)

  function Repeat(c: char, n: nat): (s: string)
    ensures |s| == n && forall i :: 0 <= i < n ==> s[i] == c
  {
    seq(n, _ => c)
  }

  /** The number of decimal digits. */
  method DecWidth(num: U64) returns (width: nat)
    ensures width == |Numeral(num)|
  {
    var n: nat := num;
    width := 1;
    while true
      invariant width + |Numeral(n)| == 1 + |Numeral(num)|
      decreases n
    {
      if n / 10 == 0 {
        break;
      }
      n := n / 10;
      width := width + 1;
    }
  }

  /** A number apart: digits before the point, zeros behind them, and decimals without trailing zeros. */
  datatype Parts = Parts(before: U64, exp: nat, decimals: nat, after: U64)

  /** The parts stand for an amount: exactly, and with as few decimals as possible. */
  ghost predicate Splits(parts: Parts, satoshi: nat, precision: int) {
    if precision < 0 then
      && parts.exp == 0 && parts.decimals <= -precision && parts.after < Pow(10, parts.decimals)
      && satoshi == TimesTen(parts.before, -precision) + TimesTen(parts.after, -precision - parts.decimals)
      && (parts.decimals > 0 ==> parts.after % 10 != 0)
    else
      && parts.before == satoshi && parts.decimals == 0
      && parts.exp == (if satoshi > 0 then precision else 0)
  }

  method Normalize(satoshi: U64, precision: int) returns (parts: Parts)
    requires -8 <= precision
    ensures Splits(parts, satoshi, precision)
  {
    if precision >= 0 {
      return Parts(satoshi, if satoshi > 0 then precision else 0, 0, 0);
    }
    var p := -precision;
    var divisor := PowerOfTen(p);
    var before, after := satoshi / divisor, satoshi % divisor;
    DivNonneg(satoshi, divisor);
    assert satoshi == before * divisor + after;
    TimesTenIsPow(before, p);
    var decimals, stripped := StripZeros(after, p);
    parts := Parts(before, 0, decimals, stripped);
  }

  /** Drops trailing zeros of `p` decimals. */
  method StripZeros(all: U64, p: nat) returns (decimals: nat, after: U64)
    requires all < Pow(10, p)
    ensures decimals <= p && after < Pow(10, decimals) && all == TimesTen(after, p - decimals)
    ensures decimals > 0 ==> after % 10 != 0
  {
    if all == 0 {
      TimesTenOfZero(p);
      return 0, 0;
    }
    decimals, after := p, all;
    while after % 10 == 0
      invariant decimals <= p && 0 < after < Pow(10, decimals)
      invariant all == TimesTen(after, p - decimals)
      decreases after
    {
      StripZero(after, decimals, p);
      decimals := decimals - 1;
      after := after / 10;
    }
  }

  method PowerOfTen(p: nat) returns (r: nat)
    ensures r == Pow(10, p) > 0
  {
    r := Pow(10, p);
  }

  lemma StripZero(after: nat, decimals: nat, p: nat)
    requires decimals <= p && 0 < after < Pow(10, decimals) && after % 10 == 0
    ensures decimals > 1 && after / 10 < Pow(10, decimals - 1)
    ensures TimesTen(after, p - decimals) == TimesTen(after / 10, p - decimals + 1)
  {
    assert Pow(10, 1) == 10;
    assert TimesTen(after / 10, 1) == after;
    TimesTenTwice(after / 10, 1, p - decimals);
  }

  /** Decimals filled up with zeros on the left. */
  function Padded(n: nat, width: nat): string {
    Repeat('0', if |Numeral(n)| < width then width - |Numeral(n)| else 0) + Numeral(n)
  }

  /** The number as it is written, with `trailing` more zeros behind the decimals. */
  function Text(parts: Parts, trailing: nat): string {
    Numeral(parts.before) + Repeat('0', parts.exp) +
    (if parts.decimals + trailing > 0 then "." else "") +
    (if parts.decimals > 0 then Padded(parts.after, parts.decimals) else "") +
    Repeat('0', trailing)
  }

  lemma {:induction false} FindDotAfter(a: string, rest: string)
    requires AllDigits(a) && (rest == [] || rest[0] == '.')
    ensures FindDot(a + rest) == |a|
  {
    if a == [] {
      assert a + rest == rest;
    } else {
      FindDotAfter(a[1..], rest);
      assert (a + rest)[1..] == a[1..] + rest;
    }
  }

  /** Two strings of digits around a point mean their exact decimal value. */
  lemma CoarseText(a: string, b: string, s: string, max: nat)
    requires AllDigits(a) && AllDigits(b) && |b| <= max && max > 0
    requires s == a + (if b == [] then [] else ['.'] + b)
    ensures Means(s, -(max as int), TimesTen(Number(a), max) + TimesTen(Number(b), max - |b|))
  {
    FindDotAfter(a, if b == [] then [] else ['.'] + b);
    assert s[..|a|] == a;
    assert |a| < |s| ==> s[|a| + 1..] == b;
    SplitAtDot(s, |a|, a, b);
    ScaledParts(a, b, max);
  }

  /** A numeral followed by the right number of zeros means the numeral. */
  lemma FineText(n: nat, p: nat, s: string)
    requires s == Numeral(n) + Repeat('0', p)
    ensures Means(s, p, n)
  {
    ZeroNumber(Repeat('0', p));
    NumberConcat(Numeral(n), Repeat('0', p));
    FindDotAfter(s, []);
    assert s + [] == s;
    assert s[..|s| - p] == Numeral(n);
    NumberOfNumeral(n);
  }

  lemma PaddedNumber(n: nat, width: nat)
    requires width > 0 && n < Pow(10, width)
    ensures |Padded(n, width)| == width && AllDigits(Padded(n, width)) && Number(Padded(n, width)) == n
  {
    NumeralLength(n, width);
    ZerosThen(Repeat('0', width - |Numeral(n)|), Numeral(n));
    NumberOfNumeral(n);
  }

  lemma ZerosThen(zeros: string, s: string)
    requires AllDigits(s) && forall i :: 0 <= i < |zeros| ==> zeros[i] == '0'
    ensures AllDigits(zeros + s) && Number(zeros + s) == Number(s)
  {
    ZeroNumber(zeros);
    NumberConcat(zeros, s);
    TimesTenOfZero(|s|);
  }

  /** What is printed for the parts of an amount means that amount. */
  lemma TextMeans(parts: Parts, satoshi: nat, precision: int)
    requires Splits(parts, satoshi, precision)
    ensures Means(Text(parts, 0), precision, satoshi)
  {
    if precision < 0 {
      CoarseMeans(parts, -precision, satoshi);
    } else {
      FineMeans(parts, precision);
    }
  }

  lemma FineMeans(parts: Parts, p: nat)
    requires parts.decimals == 0 && parts.exp == if parts.before > 0 then p else 0
    ensures Means(Text(parts, 0), p, parts.before)
  {
    FineShape(parts);
    if parts.before > 0 {
      FineText(parts.before, p, Text(parts, 0));
    } else {
      ZeroText(Text(parts, 0), p);
    }
  }

  lemma ZeroText(s: string, p: nat)
    requires s == Numeral(0) + Repeat('0', 0)
    ensures Means(s, p, 0)
  {
    assert s == "0";
    assert FindDot(s) == 1;
    if p == 0 {
      assert s[..1] == s;
      assert Number(s[..0]) == 0;
    }
  }

  lemma CoarseMeans(parts: Parts, max: nat, satoshi: nat)
    requires max > 0 && parts.exp == 0 && parts.decimals <= max && parts.after < Pow(10, parts.decimals)
    requires satoshi == TimesTen(parts.before, max) + TimesTen(parts.after, max - parts.decimals)
    ensures Means(Text(parts, 0), -(max as int), satoshi)
  {
    var b := DecimalsText(parts);
    NumberOfNumeral(parts.before);
    CoarseShape(parts, b);
    CoarseText(Numeral(parts.before), b, Text(parts, 0), max);
  }

  /** The decimals as they are written. */
  ghost function DecimalsText(parts: Parts): (b: string)
    requires parts.after < Pow(10, parts.decimals)
    ensures |b| == parts.decimals && AllDigits(b) && Number(b) == parts.after
    ensures b == if parts.decimals > 0 then Padded(parts.after, parts.decimals) else ""
  {
    if parts.decimals > 0 then
      PaddedNumber(parts.after, parts.decimals);
      Padded(parts.after, parts.decimals)
    else ""
  }

  lemma CoarseShape(parts: Parts, b: string)
    requires parts.exp == 0 && b == (if parts.decimals > 0 then Padded(parts.after, parts.decimals) else "")
    requires |b| == parts.decimals
    ensures Text(parts, 0) == Numeral(parts.before) + (if b == [] then [] else ['.'] + b)
  {
  }

  lemma FineShape(parts: Parts)
    requires parts.decimals == 0
    ensures Text(parts, 0) == Numeral(parts.before) + Repeat('0', parts.exp)
  {
  }

  /** No printed amount is longer than the parser allows. */
  lemma TextLength(parts: Parts, satoshi: nat, precision: int)
    requires Splits(parts, satoshi, precision) && -8 <= precision <= 4
    ensures 0 < |Text(parts, 0)| < 34
  {
    TwentyDigits(parts.before);
    if parts.decimals > 0 {
      PaddedNumber(parts.after, parts.decimals);
    }
  }

  lemma TwentyDigits(n: U64)
    ensures |Numeral(n)| <= 20
  {
    assert Pow(10, 5) == 100000;
    PowAdd(10, 5, 5);
    PowAdd(10, 10, 10);
    NumeralLength(n, 20);
  }

  /** How many fill characters go to the left and to the right. */
  function Fill(missing: nat, zeroPad: bool, align: Alignment): (nat, nat) {
    if zeroPad then (missing, 0)
    else
      match align
      case Right => (missing, 0)
      case Left => (0, missing)
      case Center => (missing / 2, (missing + 1) / 2)
  }

  function Sign(negative: bool, signPlus: bool): string {
    if negative then "-" else if signPlus then "+" else ""
  }

  /** The printed form before it is filled up to a width. */
  function Bare(parts: Parts, trailing: nat, sign: string, suffix: string): string {
    sign + Text(parts, trailing) + suffix
  }

  /** The parts of an amount, printed: as wide as asked or as the bare text, and nothing cut. */
  ghost predicate Prints(s: string, parts: Parts, trailing: nat, negative: bool, suffix: string, options: Options) {
    var sign := if negative then "-" else if options.signPlus then "+" else "";
    var bare := Bare(parts, trailing, sign, suffix);
    var width := match options.width case None => 0 case Some(w) => w;
    var precision := match options.precision case None => 0 case Some(p) => p;
    && trailing == (if parts.decimals < precision then precision - parts.decimals else 0)
    && |s| == (if |bare| < width then width else |bare|)
    && (options.width.None? ==> s == bare)
    && (if options.zeroPad then Zeroed(s, sign, Text(parts, trailing) + suffix) else Filled(s, bare, options))
  }

  /**
   Prints an amount. The text stands for the amount exactly, and it is filled up to the width without
   ever being cut: the width computed beforehand is the width of what is written.
   */
  method FmtSatoshiIn(satoshi: U64, negative: bool, denom: Denomination, suffix: string, options: Options)
    returns (s: string)
    ensures exists parts: Parts, trailing: nat ::
              && Splits(parts, satoshi, denom.Precision())
              && Prints(s, parts, trailing, negative, suffix, options)
  {
    var parts := Normalize(satoshi, denom.Precision());
    var precision := match options.precision case None => 0 case Some(p) => p;
    var trailing: nat := if precision > parts.decimals then precision - parts.decimals else 0;
    var sign := Sign(negative, options.signPlus);
    s := Layout(parts, trailing, sign, suffix, options);
    assert Prints(s, parts, trailing, negative, suffix, options);
  }

  /** One bitcoin, printed in each denomination: a one and as many zeros as the denomination is smaller. */
  method OneBitcoin(denom: Denomination) returns (s: string)
    ensures var zeros :=
              match denom
              case Bitcoin => 0
              case CentiBitcoin => 2
              case MilliBitcoin => 3
              case MicroBitcoin => 6
              case NanoBitcoin => 9
              case PicoBitcoin => 12
              case Bit => 6
              case Satoshi => 8
              case MilliSatoshi => 11;
            s == "1" + Repeat('0', zeros)
  {
    s := FmtSatoshiIn(100000000, false, denom, "", DEFAULT);
    ghost var parts: Parts, trailing: nat :|
      && Splits(parts, 100000000, denom.Precision())
      && Prints(s, parts, trailing, false, "", DEFAULT);
    BitcoinPrinted(s, parts, trailing, denom.Precision());
  }

  lemma BitcoinPrinted(s: string, parts: Parts, trailing: nat, precision: int)
    requires -8 <= precision && Splits(parts, 100000000, precision)
    requires Prints(s, parts, trailing, false, "", DEFAULT)
    ensures s == "1" + Repeat('0', 8 + precision)
  {
    BitcoinText(parts, precision);
    assert s == "" + Text(parts, 0) + "";
  }

  /** The text of 10^8 satoshis. */
  lemma BitcoinText(parts: Parts, precision: int)
    requires -8 <= precision && Splits(parts, 100000000, precision)
    ensures Text(parts, 0) == "1" + Repeat('0', 8 + precision)
  {
    var k := if precision < 0 then 8 + precision else 8;
    assert TimesTen(1, 8) == 100000000;
    if precision < 0 {
      TimesTenTwice(1, k, -precision);
      WholeSplits(parts, TimesTen(1, k), -precision);
    }
    PowerNumeral(k);
    FineShape(parts);
  }

  /** A whole number of units has no decimals. */
  lemma WholeSplits(parts: Parts, whole: nat, p: nat)
    requires p > 0 && Splits(parts, TimesTen(whole, p), -(p as int))
    ensures parts.before == whole && parts.exp == 0 && parts.decimals == 0 && parts.after == 0
  {
    var rest := TimesTen(parts.after, p - parts.decimals);
    TimesTenIsPow(whole, p);
    TimesTenIsPow(parts.before, p);
    RestBelow(parts.after, parts.decimals, p);
    DivModUnique(TimesTen(whole, p), Pow(10, p), parts.before, rest);
    DivModUnique(TimesTen(whole, p), Pow(10, p), whole, 0);
    TimesTenGrows(parts.after, 0, p - parts.decimals);
  }

  /** Decimals are less than one unit. */
  lemma RestBelow(after: nat, decimals: nat, p: nat)
    requires decimals <= p && after < Pow(10, decimals)
    ensures TimesTen(after, p - decimals) < Pow(10, p)
  {
    TimesTenIsPow(after, p - decimals);
    PowAdd(10, decimals, p - decimals);
    MulLt(after, Pow(10, decimals), Pow(10, p - decimals));
  }

  lemma {:induction false} PowerNumeral(k: nat)
    ensures Numeral(TimesTen(1, k)) == "1" + Repeat('0', k)
  {
    if k > 0 {
      PowerNumeral(k - 1);
      TimesTenGrows(1, 0, k - 1);
      assert DigitChar(0) == '0';
    }
  }

  /** Nothing but fill characters around the bare text, on the side the alignment leaves free. */
  ghost predicate Filled(s: string, bare: string, options: Options) {
    exists left: nat, right: nat ::
      && s == Repeat(options.fill, left) + bare + Repeat(options.fill, right)
      && match options.align
         case None | Some(Right) => right == 0
         case Some(Left) => left == 0
         case Some(Center) => left <= right <= left + 1
  }

  /** Nothing but zeros between the sign and the rest. */
  ghost predicate Zeroed(s: string, sign: string, rest: string) {
    exists n: nat :: s == sign + Repeat('0', n) + rest
  }

  /** Writes sign, number and suffix with the fill characters around them, or zeros behind the sign. */
  method Layout(parts: Parts, trailing: nat, sign: string, suffix: string, options: Options) returns (s: string)
    requires parts.decimals > 0 ==> parts.after < Pow(10, parts.decimals)
    ensures var bare := Bare(parts, trailing, sign, suffix);
            var width := match options.width case None => 0 case Some(w) => w;
            |s| == if |bare| < width then width else |bare|
    ensures options.width.None? ==> s == Bare(parts, trailing, sign, suffix)
    ensures if options.zeroPad then Zeroed(s, sign, Text(parts, trailing) + suffix)
            else Filled(s, Bare(parts, trailing, sign, suffix), options)
  {
    var numWidth := NumWidth(parts, trailing, sign, suffix);
    var width := match options.width case None => 0 case Some(w) => w;
    var align := match options.align case None => Right case Some(a) => a;
    var (left, right) := if numWidth < width then Fill(width - numWidth, options.zeroPad, align) else (0, 0);
    var text := Text(parts, trailing);
    if options.zeroPad {
      s := sign + Repeat('0', left) + (text + suffix);
    } else {
      s := Repeat(options.fill, left) + (sign + text + suffix) + Repeat(options.fill, right);
    }
    assert numWidth >= width ==> s == sign + text + suffix;
  }

  /** The width computed from the parts is the length of what they print as. */
  method NumWidth(parts: Parts, trailing: nat, sign: string, suffix: string) returns (n: nat)
    requires parts.decimals > 0 ==> parts.after < Pow(10, parts.decimals)
    ensures n == |Bare(parts, trailing, sign, suffix)|
  {
    var total := parts.decimals + trailing;
    var digits := DecWidth(parts.before);
    n := (if total > 0 then 1 + total else 0) + digits + parts.exp + |sign| + |suffix|;
    if parts.decimals > 0 {
      PaddedNumber(parts.after, parts.decimals);
    }
  }

  /** Printing with the default options gives a string the parser accepts as the same amount. */
  method ToStringIn(satoshi: U64, negative: bool, denom: Denomination) returns (s: string)
    ensures Accepts(s, denom, negative, satoshi)
  {
    s := FmtSatoshiIn(satoshi, negative, denom, "", DEFAULT);
    ghost var parts: Parts, trailing: nat :|
      && Splits(parts, satoshi, denom.Precision())
      && Prints(s, parts, trailing, negative, "", DEFAULT);
    TextMeans(parts, satoshi, denom.Precision());
    TextLength(parts, satoshi, denom.Precision());
    SignedText(parts, 0, negative, s);
  }

  /** What is printed with more zeros behind the decimals, as far as the denomination has decimals. */
  lemma CoarseZeros(parts: Parts, max: nat, satoshi: nat, trailing: nat)
    requires max > 0 && Splits(parts, satoshi, -(max as int)) && parts.decimals + trailing <= max
    ensures Means(Text(parts, trailing), -(max as int), satoshi)
  {
    var b := DecimalsText(parts) + Repeat('0', trailing);
    NumberOfNumeral(parts.before);
    ZerosBehind(DecimalsText(parts), trailing);
    TrailingShape(parts, trailing, b);
    TimesTenTwice(parts.after, trailing, max - parts.decimals - trailing);
    CoarseText(Numeral(parts.before), b, Text(parts, trailing), max);
  }

  lemma ZerosBehind(s: string, n: nat)
    requires AllDigits(s)
    ensures AllDigits(s + Repeat('0', n)) && Number(s + Repeat('0', n)) == TimesTen(Number(s), n)
  {
    ZeroNumber(Repeat('0', n));
    NumberConcat(s, Repeat('0', n));
  }

  lemma TrailingShape(parts: Parts, trailing: nat, b: string)
    requires parts.exp == 0 && parts.after < Pow(10, parts.decimals)
    requires b == DecimalsText(parts) + Repeat('0', trailing)
    ensures Text(parts, trailing) == Numeral(parts.before) + (if b == [] then [] else ['.'] + b)
  {
  }

  /** More decimals than the denomination has are refused, zeros or not. */
  lemma CoarseTooMany(parts: Parts, max: nat, satoshi: nat, trailing: nat)
    requires max > 0 && Splits(parts, satoshi, -(max as int)) && parts.decimals + trailing > max
    ensures !Means(Text(parts, trailing), -(max as int), satoshi)
  {
    var a, b := Numeral(parts.before), DecimalsText(parts) + Repeat('0', trailing);
    TrailingShape(parts, trailing, b);
    FindDotAfter(a, ['.'] + b);
  }

  /** Zeros behind the point of a whole multiple do not change it. */
  lemma FineZeros(n: nat, p: nat, trailing: nat, s: string)
    requires s == Numeral(n) + Repeat('0', p) + (if trailing > 0 then "." else "") + Repeat('0', trailing)
    ensures Means(s, p, n)
  {
    var rest := (if trailing > 0 then "." else "") + Repeat('0', trailing);
    assert s == Numeral(n) + Repeat('0', p) + rest;
    MultipleThenZeros(Numeral(n), p, rest, s);
    NumberOfNumeral(n);
  }

  lemma MultipleThenZeros(head: string, p: nat, rest: string, s: string)
    requires head != [] && AllDigits(head) && s == head + Repeat('0', p) + rest
    requires rest == [] || (rest[0] == '.' && forall k :: 0 < k < |rest| ==> rest[k] == '0')
    ensures WholeMultiple(s, p) && s[..FindDot(s) - p] == head
  {
    var whole := head + Repeat('0', p);
    assert AllDigits(whole);
    FindDotAfter(whole, rest);
    assert s[..|head|] == head;
  }

  /** Zero with decimals is refused in denominations finer than a satoshi. */
  lemma FineZeroRefused(parts: Parts, p: nat, trailing: nat)
    requires p > 0 && trailing > 0 && parts.before == 0 && parts.exp == 0 && parts.decimals == 0
    ensures !Means(Text(parts, trailing), p, 0)
  {
    var s, rest := Text(parts, trailing), "." + Repeat('0', trailing);
    FineShapeZeros(parts, trailing);
    assert s == "0" + rest;
    FindDotAfter("0", rest);
    NotIntegerZero(s);
  }

  lemma NotIntegerZero(s: string)
    requires |s| > 1 && s[0] == '0' && s[1] != '0'
    ensures !IntegerZero(s)
  {
    assert !OnlyZeros(s);
  }

  /** Which printed precisions the parser takes back. */
  ghost predicate TakenBack(satoshi: nat, precision: int, asked: nat) {
    if precision < 0 then asked <= -precision else asked == 0 || satoshi > 0 || precision == 0
  }

  lemma TextMeansIff(parts: Parts, satoshi: nat, precision: int, asked: nat, trailing: nat)
    requires Splits(parts, satoshi, precision)
    requires trailing == if parts.decimals < asked then asked - parts.decimals else 0
    ensures Means(Text(parts, trailing), precision, satoshi) <==> TakenBack(satoshi, precision, asked)
  {
    if precision < 0 {
      if parts.decimals + trailing <= -precision {
        CoarseZeros(parts, -precision, satoshi, trailing);
      } else {
        CoarseTooMany(parts, -precision, satoshi, trailing);
      }
    } else if trailing == 0 {
      TextMeans(parts, satoshi, precision);
    } else if satoshi > 0 || precision == 0 {
      FineShapeZeros(parts, trailing);
      FineZeros(satoshi, precision, trailing, Text(parts, trailing));
    } else {
      FineZeroRefused(parts, precision, trailing);
    }
  }

  lemma FineShapeZeros(parts: Parts, trailing: nat)
    requires parts.decimals == 0
    ensures Text(parts, trailing) ==
            Numeral(parts.before) + Repeat('0', parts.exp) + (if trailing > 0 then "." else "") + Repeat('0', trailing)
  {
  }

  /**
   Printing with a precision: the parser takes the string back as the amount exactly when it is not
   too long and the denomination has that many decimals, or, in one without decimals, when none are
   asked for or the amount is not the zero of a finer denomination.
   */
  method ToStringWithPrecision(satoshi: U64, negative: bool, denom: Denomination, asked: nat) returns (s: string)
    ensures Accepts(s, denom, negative, satoshi) <==>
            |s| <= 50 && TakenBack(satoshi, denom.Precision(), asked)
    ensures denom.Precision() < 0 && asked <= -denom.Precision() ==> |s| <= 50
  {
    var options := DEFAULT.(precision := Some(asked));
    s := FmtSatoshiIn(satoshi, negative, denom, "", options);
    ghost var parts: Parts, trailing: nat :|
      && Splits(parts, satoshi, denom.Precision())
      && Prints(s, parts, trailing, negative, "", options);
    PrintedBack(parts, satoshi, negative, denom, asked, trailing, s);
  }

  lemma PrintedBack(parts: Parts, satoshi: U64, negative: bool, denom: Denomination, asked: nat, trailing: nat,
                    s: string)
    requires Splits(parts, satoshi, denom.Precision()) && s == Bare(parts, trailing, if negative then "-" else "", "")
    requires trailing == if parts.decimals < asked then asked - parts.decimals else 0
    ensures Accepts(s, denom, negative, satoshi) <==>
            |s| <= 50 && TakenBack(satoshi, denom.Precision(), asked)
    ensures denom.Precision() < 0 && asked <= -denom.Precision() ==> |s| <= 50
  {
    TextMeansIff(parts, satoshi, denom.Precision(), asked, trailing);
    SignedText(parts, trailing, negative, s);
    if denom.Precision() < 0 && asked <= -denom.Precision() {
      ShortEnough(parts, satoshi, denom.Precision(), trailing);
    }
    assert |s| == (if negative then 1 else 0) + |Text(parts, trailing)|;
  }

  lemma ShortEnough(parts: Parts, satoshi: nat, precision: int, trailing: nat)
    requires Splits(parts, satoshi, precision) && -8 <= precision < 0 && parts.decimals + trailing <= -precision
    ensures |Text(parts, trailing)| < 34
  {
    TwentyDigits(parts.before);
    if parts.decimals > 0 {
      PaddedNumber(parts.after, parts.decimals);
    }
  }

  lemma SignedText(parts: Parts, trailing: nat, negative: bool, s: string)
    requires s == Bare(parts, trailing, if negative then "-" else "", "")
    ensures s != [] && Unsigned(s) == Text(parts, trailing) && Unsigned(s) != [] && negative == (s[0] == '-')
  {
    var text := Text(parts, trailing);
    assert text[0] == Numeral(parts.before)[0] && IsDigit(text[0]);
    if negative {
      assert s == ['-'] + text;
    } else {
      assert s == text;
    }
  }

  // Unsigned and signed amounts.

  type I64 = x: int | -0x8000_0000_0000_0000 <= x < 0x8000_0000_0000_0000

  datatype AmountError = Parse(error: ParseError) | Negative | TooBig | TooSmall

  /** Accepts the strings without a minus sign, with their exact value. */
  method AmountFromStrIn(s: string, denom: Denomination) returns (r: Result<U64, AmountError>)
    ensures forall v: U64 :: r == Ok(v) <==> Accepts(s, denom, false, v)
    ensures (exists v: U64 :: Accepts(s, denom, true, v)) ==> r == Err(Negative)
  {
    var parsed := ParseSignedToSatoshi(s, denom);
    r := if parsed.Err? then Err(Parse(parsed.error))
         else if parsed.value.0 then Err(Negative)
         else Ok(parsed.value.1);
  }

  /** Accepts the strings whose exact value, with its sign, is a signed 64-bit number. */
  method SignedFromStrIn(s: string, denom: Denomination) returns (r: Result<I64, AmountError>)
    ensures forall v: U64 :: Accepts(s, denom, false, v) ==>
              r == if v < 0x8000_0000_0000_0000 then Ok(v) else Err(TooBig)
    ensures forall v: U64 :: Accepts(s, denom, true, v) ==>
              r == if v <= 0x8000_0000_0000_0000 then Ok(-(v as int)) else Err(TooSmall)
    ensures r.Ok? ==> exists n: bool, v: U64 :: Accepts(s, denom, n, v) && r.value == if n then -(v as int) else v
  {
    var parsed := ParseSignedToSatoshi(s, denom);
    if parsed.Err? {
      return Err(Parse(parsed.error));
    }
    var (negative, sat) := parsed.value;
    if !negative {
      r := if sat > 0x7FFF_FFFF_FFFF_FFFF then Err(TooBig) else Ok(sat);
    } else if sat == 0x8000_0000_0000_0000 {
      r := Ok(-0x8000_0000_0000_0000);
    } else if sat > 0x8000_0000_0000_0000 {
      r := Err(TooSmall);
    } else {
      r := Ok(-(sat as int));
    }
    assert Accepts(s, denom, negative, sat);
  }

  /** Printing and parsing gives every amount back, in every denomination. */
  method AmountRoundTrip(satoshi: U64, denom: Denomination) returns (r: Result<U64, AmountError>)
    ensures r == Ok(satoshi)
  {
    var s := ToStringIn(satoshi, false, denom);
    r := AmountFromStrIn(s, denom);
  }

  /** The same for signed amounts, the smallest one included. */
  method SignedRoundTrip(satoshi: I64, denom: Denomination) returns (r: Result<I64, AmountError>)
    ensures r == Ok(satoshi)
  {
    var abs: U64 := if satoshi < 0 then -(satoshi as int) else satoshi;
    var s := ToStringIn(abs, satoshi < 0, denom);
    r := SignedFromStrIn(s, denom);
  }
}
