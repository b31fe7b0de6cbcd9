/** Decimal text and raw integer units: the printers and parsers spread over the
    NEAR, Sui, EVM and LI.FI code. A bigint argument is passed as its digits. */
module DecimalText {
  import opened Outcomes
  import opened Numerals
  import opened JsText

  datatype TextError = NotDecimal | Scientific | TooManyPlaces | NotPositive | BadDecimals

  predicate IsDigits(s: string) {
    s != "" && AllDigits(s, Dec)
  }

  // ---- the shape  digits [ "." digits ] ----

  function FindDot(s: string): (i: nat)
    ensures i <= |s| && (i < |s| ==> s[i] == '.')
    ensures forall j | 0 <= j < i :: s[j] != '.'
  {
    if s == "" || s[0] == '.' then 0 else 1 + FindDot(s[1..])
  }

  function Whole(s: string): string { s[..FindDot(s)] }

  function Fraction(s: string): string {
    if FindDot(s) == |s| then "" else s[FindDot(s) + 1..]
  }

  predicate IsDecimal(s: string) {
    IsDigits(Whole(s)) && (FindDot(s) == |s| || IsDigits(Fraction(s)))
  }

  /** The test by splitting at the first dot accepts exactly what the pattern
      "digits, then perhaps a dot and digits" accepts. */
  lemma DecimalShape(s: string)
    ensures IsDecimal(s) <==>
            IsDigits(s) || exists w, f :: IsDigits(w) && IsDigits(f) && s == w + "." + f
  {
    if IsDecimal(s) {
      if FindDot(s) == |s| {
        assert s == Whole(s);
      } else {
        assert s == Whole(s) + "." + Fraction(s);
      }
    }
    if IsDigits(s) {
      SplitPlain(s);
    }
    if w, f :| IsDigits(w) && IsDigits(f) && s == w + "." + f {
      SplitAt(w, f);
    }
  }

  lemma SplitAt(w: string, f: string)
    requires AllDigits(w, Dec)
    ensures Whole(w + "." + f) == w && Fraction(w + "." + f) == f
    ensures FindDot(w + "." + f) == |w|
  {
    var s := w + "." + f;
    assert s[|w|] == '.';
    assert forall i | 0 <= i < |w| :: s[i] == w[i] && DigitVal(w[i]) < 10;
    assert FindDot(s) == |w|;
  }

  lemma SplitPlain(w: string)
    requires AllDigits(w, Dec)
    ensures FindDot(w) == |w| && Whole(w) == w && Fraction(w) == ""
  {
    assert forall i | 0 <= i < |w| :: DigitVal(w[i]) < 10;
  }

  lemma DecimalDigits(s: string)
    requires IsDecimal(s)
    ensures AllDigits(Whole(s), Dec) && AllDigits(Fraction(s), Dec)
  {
  }

  lemma DecimalTrims(s: string)
    requires IsDecimal(s)
    ensures Trim(s) == s
  {
    assert DigitVal(s[0]) < 10 by { assert s[0] == Whole(s)[0]; }
    assert DigitVal(s[|s| - 1]) < 10 by {
      if FindDot(s) == |s| {
        assert s[|s| - 1] == Whole(s)[|s| - 1];
      } else {
        assert s[|s| - 1] == Fraction(s)[|Fraction(s)| - 1];
      }
    }
    TrimNothing(s);
  }

  // ---- the parsers ----

  /** src/chains/near/runtime.ts, parseUnsignedBigInt */
  function ParseUnsigned(value: string): Result<nat, TextError> {
    var t := Trim(value);
    if IsDigits(t) then Ok(Value(t, Dec)) else Err(NotDecimal)
  }

  /** Digits as a number, where no digits at all count as zero. */
  function DigitsOrZero(s: string): (n: nat)
    requires AllDigits(s, Dec)
    ensures n == Value(s, Dec)
  {
    if s != "" then Value(s, Dec) else 0
  }

  /** whole * 10^decimals + the fraction digits padded to `decimals` */
  function ScaledUnits(whole: string, fraction: string, decimals: nat): nat
    requires AllDigits(whole, Dec) && AllDigits(fraction, Dec) && |fraction| <= decimals
  {
    PadEndValue(fraction, decimals, Dec); MulMono(0, Value(whole, Dec), Pow(Dec, decimals));
    Value(whole, Dec) * Pow(Dec, decimals) + DigitsOrZero(PadEnd(fraction, decimals))
  }

  function ParseScaledDecimal(value: string, scale: nat): Result<nat, TextError> {
    var t := Trim(value);
    if !IsDecimal(t) then Err(NotDecimal)
    else if |Fraction(t)| > scale then Err(TooManyPlaces)
    else Ok(ScaledUnits(Whole(t), Fraction(t), scale))
  }

  function DropLeadingZeros(s: string): string {
    if |s| > 1 && s[0] == '0' then DropLeadingZeros(s[1..]) else s
  }

  lemma {:induction false} DropLeadingZerosValue(s: string)
    requires IsDigits(s)
    ensures IsDigits(DropLeadingZeros(s)) && Value(DropLeadingZeros(s), Dec) == Value(s, Dec)
  {
    if |s| > 1 && s[0] == '0' {
      DropLeadingZerosValue(s[1..]);
      assert s == "0" + s[1..];
      ValueSnoc("", '0', Dec);
      assert "" + "0" == "0";
      ValueConcat("0", s[1..], Dec);
    }
  }

  /** The fraction digits kept by a truncating parser, padded to `decimals`. */
  function Clamped(fraction: string, decimals: nat): string {
    PadEnd(if |fraction| <= decimals then fraction else fraction[..decimals], decimals)
  }

  lemma ClampedDigits(fraction: string, decimals: nat)
    requires AllDigits(fraction, Dec)
    ensures AllDigits(Clamped(fraction, decimals), Dec)
  {
    PadEndValue(if |fraction| <= decimals then fraction else fraction[..decimals], decimals, Dec);
  }

  function ParseDecimalToUnits(input: string, decimals: nat): Result<nat, TextError> {
    var t := Trim(input);
    if t == "" || 'e' in t || 'E' in t then Err(Scientific)
    else if !IsDecimal(t) then Err(NotDecimal)
    else
      DropLeadingZerosValue(Whole(t)); ClampedDigits(Fraction(t), decimals);
      var units := Value(DropLeadingZeros(Whole(t)), Dec) * Pow(Dec, decimals)
                   + DigitsOrZero(Clamped(Fraction(t), decimals));
      if units <= 0 then Err(NotPositive) else Ok(units)
  }

  function HumanAmountToRaw(amount: string, decimals: nat): Result<string, TextError> {
    var t := Trim(amount);
    if !IsDecimal(t) then Err(NotDecimal)
    else
      ClampedDigits(Fraction(t), decimals);
      var raw := Value(Whole(t), Dec) * Pow(Dec, decimals) + DigitsOrZero(Clamped(Fraction(t), decimals));
      if raw <= 0 then Err(NotPositive) else Ok(Print(raw, Dec))
  }

  /** Texts of the form 0 or 0.000 */
  predicate IsPlainZero(t: string) {
    && Whole(t) == "0"
    && (FindDot(t) == |t|
        || (Fraction(t) != "" && forall i | 0 <= i < |Fraction(t)| :: Fraction(t)[i] == '0'))
  }

  function DecimalToRaw(amount: string, decimals: nat): Result<string, TextError> {
    var t := Trim(amount);
    if !IsDecimal(t) then Err(NotDecimal)
    else if IsPlainZero(t) then Err(NotPositive)
    else if |Fraction(t)| > decimals then Err(TooManyPlaces)
    else
      var raw := ScaledUnits(Whole(t), Fraction(t), decimals);
      if raw <= 0 then Err(NotPositive) else Ok(Print(raw, Dec))
  }

  // ---- what a decimal text is worth ----

  /** The text is worth Numerator / 10^|Fraction|. */
  function Numerator(t: string): nat
    requires IsDecimal(t)
  {
    ValueConcat(Whole(t), Fraction(t), Dec);
    Value(Whole(t) + Fraction(t), Dec)
  }

  /** The floor of the text's worth times 10^decimals. */
  function FloorUnits(t: string, decimals: nat): nat
    requires IsDecimal(t)
  {
    PowPositive(Dec, |Fraction(t)|); MulMono(0, Numerator(t), Pow(Dec, decimals));
    Quotient(Numerator(t) * Pow(Dec, decimals), Pow(Dec, |Fraction(t)|))
  }

  lemma ExactQuotient(n: nat, p: nat, q: nat, r: nat)
    requires p > 0 && r == p * q
    ensures Quotient(n * r, p) == n * q
  {
    assert n * r == (n * q) * p by { Distribute(n, q, 0, p); }
    DivUnique(n * r, p, n * q, 0);
  }

  lemma StrictMul(h: nat, p: nat, q: nat)
    requires q > 0 && h < p
    ensures 0 <= h * q < q * p
  {
    MulMono(h + 1, p, q);
  }

  lemma TruncatedQuotient(g: nat, h: nat, p: nat, q: nat)
    requires q > 0 && h < p
    ensures q * p > 0 && Quotient((g * p + h) * q, q * p) == g
  {
    assert (g * p + h) * q == g * (q * p) + h * q by { Distribute(g, p, h, q); }
    StrictMul(h, p, q);
    DivUnique((g * p + h) * q, q * p, g, h * q);
  }

  /** Whole part plus clamped fraction is the floor, whether digits are cut or zeros added. */
  lemma UnitsAreFloor(t: string, decimals: nat)
    requires IsDecimal(t)
    ensures AllDigits(Clamped(Fraction(t), decimals), Dec)
    ensures Value(Whole(t), Dec) * Pow(Dec, decimals) + Value(Clamped(Fraction(t), decimals), Dec)
         == FloorUnits(t, decimals)
  {
    ClampedDigits(Fraction(t), decimals);
    PowPositive(Dec, |Fraction(t)|);
    if |Fraction(t)| <= decimals {
      PaddedIsFloor(Whole(t), Fraction(t), decimals);
    } else {
      CutIsFloor(Whole(t), Fraction(t)[..decimals], Fraction(t)[decimals..]);
      assert Fraction(t) == Fraction(t)[..decimals] + Fraction(t)[decimals..];
    }
  }

  lemma PaddedIsFloor(w: string, f: string, decimals: nat)
    requires AllDigits(w, Dec) && AllDigits(f, Dec) && |f| <= decimals
    ensures AllDigits(w + f, Dec) && AllDigits(PadEnd(f, decimals), Dec) && Pow(Dec, |f|) > 0
    ensures Value(w, Dec) * Pow(Dec, decimals) + Value(PadEnd(f, decimals), Dec)
         == Quotient(Value(w + f, Dec) * Pow(Dec, decimals), Pow(Dec, |f|))
  {
    ValueConcat(w, f, Dec);
    PadEndValue(f, decimals, Dec);
    PowPositive(Dec, |f|);
    PowAdd(Dec, |f|, decimals - |f|);
    ExactQuotient(Value(w + f, Dec), Pow(Dec, |f|), Pow(Dec, decimals - |f|), Pow(Dec, decimals));
    Distribute(Value(w, Dec), Pow(Dec, |f|), Value(f, Dec), Pow(Dec, decimals - |f|));
  }

  lemma CutIsFloor(w: string, g: string, h: string)
    requires AllDigits(w, Dec) && AllDigits(g, Dec) && AllDigits(h, Dec)
    ensures AllDigits(w + (g + h), Dec) && Pow(Dec, |g + h|) > 0
    ensures Value(w, Dec) * Pow(Dec, |g|) + Value(g, Dec)
         == Quotient(Value(w + (g + h), Dec) * Pow(Dec, |g|), Pow(Dec, |g + h|))
  {
    assert w + (g + h) == (w + g) + h;
    ValueConcat(w, g, Dec);
    ValueConcat(w + g, h, Dec);
    ValueBound(h, Dec);
    PowPositive(Dec, |g|);
    PowAdd(Dec, |g|, |h|);
    TruncatedQuotient(Value(w + g, Dec), Value(h, Dec), Pow(Dec, |h|), Pow(Dec, |g|));
  }

  /** The floor is within one unit of the text's worth. */
  lemma FloorWithinOneUnit(t: string, decimals: nat)
    requires IsDecimal(t)
    ensures var u, one := FloorUnits(t, decimals), Pow(Dec, |Fraction(t)|);
            u * one <= Numerator(t) * Pow(Dec, decimals) < (u + 1) * one
  {
    hide *;
    FloorUnitsIs(t, decimals);
    FloorBounds(Numerator(t) * Pow(Dec, decimals), Pow(Dec, |Fraction(t)|));
  }

  lemma FloorUnitsIs(t: string, decimals: nat)
    requires IsDecimal(t)
    ensures Pow(Dec, |Fraction(t)|) > 0 && Numerator(t) * Pow(Dec, decimals) >= 0
    ensures FloorUnits(t, decimals) == Quotient(Numerator(t) * Pow(Dec, decimals), Pow(Dec, |Fraction(t)|))
  {
    hide Numerator, Pow, Fraction, IsDecimal;
    PowPositive(Dec, |Fraction(t)|);
    MulMono(0, Numerator(t), Pow(Dec, decimals));
  }

  lemma FloorBounds(x: nat, one: nat)
    requires one > 0
    ensures Quotient(x, one) * one <= x < (Quotient(x, one) + 1) * one
  {
    DivMod(x, one);
    Distribute(Quotient(x, one), 1, 1, one);
  }

  lemma NoExponent(t: string)
    requires IsDecimal(t)
    ensures t != "" && 'e' !in t && 'E' !in t
  {
    if FindDot(t) == |t| {
      assert t == Whole(t);
    } else {
      assert t == Whole(t) + "." + Fraction(t);
    }
    assert forall i | 0 <= i < |t| :: t[i] == '.' || DigitVal(t[i]) < 10;
  }

  lemma {:induction false} AllZeroValue(s: string)
    requires AllDigits(s, Dec)
    requires forall i | 0 <= i < |s| :: s[i] == '0'
    ensures Value(s, Dec) == 0
  {
    if s != "" {
      AllZeroValue(s[..|s| - 1]);
    }
  }

  lemma PlainZeroFloor(t: string, decimals: nat)
    requires IsDecimal(t) && IsPlainZero(t)
    ensures FloorUnits(t, decimals) == 0
  {
    AllZeroValue(Whole(t) + Fraction(t));
    PowPositive(Dec, |Fraction(t)|);
    DivUnique(0, Pow(Dec, |Fraction(t)|), 0, 0);
  }

  /** What each of the four parsers does with any text. On decimals all compute the same
      floor; the two rejecting ones refuse exactly those with too many places, and all but
      ParseScaledDecimal those whose floor is zero. Other texts all refuse as no decimals,
      only ParseDecimalToUnits first looks for an exponent. */
  lemma ParsersComputeFloor(value: string, decimals: nat)
    ensures var t := Trim(value);
      if IsDecimal(t) then
        var floor := FloorUnits(t, decimals);
        var fits := |Fraction(t)| <= decimals;
        && ParseDecimalToUnits(value, decimals) == (if floor > 0 then Ok(floor) else Err(NotPositive))
        && HumanAmountToRaw(value, decimals)
           == (if floor > 0 then Ok(Print(floor, Dec)) else Err(NotPositive))
        && ParseScaledDecimal(value, decimals) == (if fits then Ok(floor) else Err(TooManyPlaces))
        && DecimalToRaw(value, decimals)
           == (if fits && floor > 0 then Ok(Print(floor, Dec))
               else if fits || IsPlainZero(t) then Err(NotPositive) else Err(TooManyPlaces))
      else
        && ParseDecimalToUnits(value, decimals)
           == Err(if t == "" || 'e' in t || 'E' in t then Scientific else NotDecimal)
        && HumanAmountToRaw(value, decimals) == Err(NotDecimal)
        && ParseScaledDecimal(value, decimals) == Err(NotDecimal)
        && DecimalToRaw(value, decimals) == Err(NotDecimal)
  {
    var t := Trim(value);
    if IsDecimal(t) {
      ParseDecimalToUnitsFloor(value, decimals);
      HumanAmountToRawFloor(value, decimals);
      RejectingParsersFloor(value, decimals);
    }
  }

  lemma ParseDecimalToUnitsFloor(value: string, decimals: nat)
    requires IsDecimal(Trim(value))
    ensures var floor := FloorUnits(Trim(value), decimals);
      ParseDecimalToUnits(value, decimals) == if floor > 0 then Ok(floor) else Err(NotPositive)
  {
    hide Value, Pow, FloorUnits, Clamped;
    NoExponent(Trim(value));
    UnitsAreFloor(Trim(value), decimals);
    DropLeadingZerosValue(Whole(Trim(value)));
  }

  lemma HumanAmountToRawFloor(value: string, decimals: nat)
    requires IsDecimal(Trim(value))
    ensures var floor := FloorUnits(Trim(value), decimals);
      HumanAmountToRaw(value, decimals) == if floor > 0 then Ok(Print(floor, Dec)) else Err(NotPositive)
  {
    hide Value, Pow, Print, FloorUnits, Clamped;
    UnitsAreFloor(Trim(value), decimals);
  }

  lemma RejectingParsersFloor(value: string, decimals: nat)
    requires IsDecimal(Trim(value))
    ensures var t := Trim(value);
      var floor := FloorUnits(t, decimals);
      var fits := |Fraction(t)| <= decimals;
      && ParseScaledDecimal(value, decimals) == (if fits then Ok(floor) else Err(TooManyPlaces))
      && DecimalToRaw(value, decimals)
         == (if fits && floor > 0 then Ok(Print(floor, Dec))
             else if fits || IsPlainZero(t) then Err(NotPositive) else Err(TooManyPlaces))
  {
    if IsPlainZero(Trim(value)) {
      PlainZeroFloor(Trim(value), decimals);
    }
    if |Fraction(Trim(value))| <= decimals {
      ScaledIsFloor(Trim(value), decimals);
    }
    hide Value, Pow, Print, FloorUnits, ScaledUnits, IsPlainZero;
  }

  lemma ScaledIsFloor(t: string, decimals: nat)
    requires IsDecimal(t) && |Fraction(t)| <= decimals
    ensures ScaledUnits(Whole(t), Fraction(t), decimals) == FloorUnits(t, decimals)
  {
    UnitsAreFloor(t, decimals);
    hide Value, Pow, FloorUnits;
  }

  /** Whenever a rejecting parser accepts a text with a positive amount, all four agree. */
  lemma ParsersAgree(value: string, decimals: nat)
    requires DecimalToRaw(value, decimals).Ok?
          || (ParseScaledDecimal(value, decimals).Ok? && ParseScaledDecimal(value, decimals).value > 0)
    ensures ParseDecimalToUnits(value, decimals) == ParseScaledDecimal(value, decimals)
    ensures ParseScaledDecimal(value, decimals).Ok?
    ensures HumanAmountToRaw(value, decimals) == DecimalToRaw(value, decimals)
         == Ok(Print(ParseScaledDecimal(value, decimals).value, Dec))
  {
    ParsersComputeFloor(value, decimals);
  }

  // ---- the printers ----

  /** clampFractionDigits; None stands for a number that is not finite. */
  function ClampFractionDigits(value: Option<real>, max: nat): (m: nat)
    ensures m <= max
    ensures value.Some? && 0.0 <= value.value && value.value.Floor <= max ==> m == value.value.Floor
    ensures value.None? || value.value >= max as real ==> m == max
    ensures value.Some? && value.value < 0.0 ==> m == 0
  {
    if value.None? then max
    else if value.value.Floor < 0 then 0
    else if value.value.Floor > max then max
    else value.value.Floor
  }

  function FormatTokenAmount(rawAmount: string, decimals: int, maxFractionDigits: Option<real>)
    : Result<string, TextError>
  {
    var parsed := ParseUnsigned(rawAmount);
    if parsed.Err? then Err(NotDecimal)
    else if decimals < 0 || decimals > 255 then Err(BadDecimals)
    else
      PowPositive(Dec, decimals);
      Ok(JoinTruncated(Quotient(parsed.value, Pow(Dec, decimals)), Rest(parsed.value, Pow(Dec, decimals)),
                       decimals, ClampFractionDigits(maxFractionDigits, decimals)))
  }

  function JoinTruncated(whole: nat, fractionRaw: nat, decimals: nat, digits: nat): string {
    if fractionRaw == 0 then Print(whole, Dec)
    else
      var padded := PadStart(Print(fractionRaw, Dec), decimals);
      var cut := if digits < decimals && digits < |padded| then padded[..digits] else padded;
      var fraction := StripZeros(cut);
      if fraction == "" then Print(whole, Dec) else Print(whole, Dec) + "." + fraction
  }

  /** The division printer: formatCoinAmount of the Sui runtime after its digit check,
      and formatNativeAmountFromWei at 18 decimals. */
  function DivisionText(amount: nat, decimals: nat): string {
    PowPositive(Dec, decimals);
    JoinFull(Quotient(amount, Pow(Dec, decimals)), Rest(amount, Pow(Dec, decimals)), decimals)
  }

  function JoinFull(whole: nat, fractionRaw: nat, decimals: nat): string {
    if fractionRaw == 0 then Print(whole, Dec)
    else Print(whole, Dec) + "." + StripZeros(PadStart(Print(fractionRaw, Dec), decimals))
  }

  function FormatCoinAmount(rawAmount: string, decimals: nat): Result<string, TextError> {
    var t := Trim(rawAmount);
    if !IsDigits(t) then Err(NotDecimal) else Ok(DivisionText(Value(t, Dec), decimals))
  }

  function FormatNativeAmountFromWei(valueWei: nat): string {
    DivisionText(valueWei, 18)
  }

  /** The slicing printer of the Venus adapter. */
  function FormatUnits(raw: nat, decimals: nat): string {
    if raw == 0 then "0"
    else
      var str := Print(raw, Dec);
      if decimals == 0 then str
      else if |str| <= decimals then
        var padded := PadStart(str, decimals + 1);
        SliceJoin(padded, decimals)
      else SliceJoin(str, decimals)
  }

  function SliceJoin(s: string, decimals: nat): string
    requires |s| > decimals
  {
    var whole := s[..|s| - decimals];
    var frac := StripZeros(s[|s| - decimals..]);
    if frac != "" then whole + "." + frac else whole
  }

  /** The slicing printer of the LI.FI tools, on the text it is given. */
  function FormatAmount(raw: string, decimals: int): string {
    if raw == "" || decimals <= 0 then raw
    else
      var padded := PadStart(raw, decimals + 1);
      var intPart := padded[..|padded| - decimals];
      var fracPart := StripZeros(padded[|padded| - decimals..]);
      if fracPart != "" then (if intPart == "" then "0" else intPart) + "." + fracPart
      else if intPart == "" then "0" else intPart
  }

  // ---- slicing is dividing ----

  function JoinText(whole: string, fraction: string): string {
    if fraction == "" then whole else whole + "." + fraction
  }

  /** The `decimals` digits of a fraction; none when there are no decimals. */
  function FractionDigits(fraction: nat, decimals: nat): string {
    if decimals == 0 then "" else PadStart(Print(fraction, Dec), decimals)
  }

  lemma FractionDigitsValue(fraction: nat, decimals: nat)
    requires fraction < Pow(Dec, decimals)
    ensures |FractionDigits(fraction, decimals)| == decimals
    ensures LowerDigits(FractionDigits(fraction, decimals), Dec)
    ensures Value(FractionDigits(fraction, decimals), Dec) == fraction
  {
    PrintValue(fraction, Dec);
    PrintLength(fraction, decimals, Dec);
    PadStartValue(Print(fraction, Dec), decimals, Dec);
  }

  lemma JoinFullText(whole: nat, fraction: nat, decimals: nat)
    requires fraction < Pow(Dec, decimals)
    ensures JoinFull(whole, fraction, decimals)
         == JoinText(Print(whole, Dec), StripZeros(FractionDigits(fraction, decimals)))
  {
    FractionDigitsValue(fraction, decimals);
    StripEmpty(FractionDigits(fraction, decimals), Dec);
  }

  lemma ZeroPrefix(digits: string, m: nat)
    requires AllDigits(digits, Dec) && Value(digits, Dec) == 0 && m <= |digits|
    ensures StripZeros(digits[..m]) == ""
  {
    hide *;
    var g, h := digits[..m], digits[m..];
    assert digits == g + h;
    DigitsConcat(g, h, Dec);
    ValueConcat(g, h, Dec);
    PowPositive(Dec, |h|);
    PartIsZero(Value(g, Dec), Pow(Dec, |h|), Value(h, Dec));
    StripEmpty(g, Dec);
  }

  lemma LowerAreDigits(s: string)
    requires LowerDigits(s, Dec)
    ensures AllDigits(s, Dec)
  {
  }

  lemma JoinNothing(whole: nat, decimals: nat, m: nat)
    ensures JoinTruncated(whole, 0, decimals, m) == JoinText(Print(whole, Dec), "")
  {
    hide Print;
  }

  lemma JoinCut(whole: nat, fraction: nat, decimals: nat, m: nat)
    requires fraction > 0 && decimals > 0 && m <= decimals && |FractionDigits(fraction, decimals)| == decimals
    ensures JoinTruncated(whole, fraction, decimals, m)
         == JoinText(Print(whole, Dec), StripZeros(FractionDigits(fraction, decimals)[..m]))
  {
    hide Print, StripZeros, PadStart;
    var digits := FractionDigits(fraction, decimals);
    assert digits[..decimals] == digits;
  }

  lemma JoinTruncatedText(whole: nat, fraction: nat, decimals: nat, m: nat)
    requires fraction < Pow(Dec, decimals) && m <= decimals
    ensures |FractionDigits(fraction, decimals)| == decimals
    ensures JoinTruncated(whole, fraction, decimals, m)
         == JoinText(Print(whole, Dec), StripZeros(FractionDigits(fraction, decimals)[..m]))
  {
    hide *;
    FractionDigitsValue(fraction, decimals);
    if fraction == 0 {
      LowerAreDigits(FractionDigits(0, decimals));
      ZeroPrefix(FractionDigits(0, decimals), m);
      JoinNothing(whole, decimals, m);
    } else {
      FractionNeedsDigits(fraction, decimals);
      JoinCut(whole, fraction, decimals, m);
    }
  }

  lemma FractionNeedsDigits(fraction: nat, decimals: nat)
    requires 0 < fraction < Pow(Dec, decimals)
    ensures decimals > 0
  {
  }

  lemma PartIsZero(g: nat, unit: nat, h: nat)
    requires unit > 0 && g * unit + h == 0
    ensures g == 0 && h == 0
  {
    if g > 0 { MulMono(1, g, unit); }
  }

  /** An amount split into whole and fraction. */
  lemma SplitAmount(n: nat, decimals: nat)
    ensures Pow(Dec, decimals) > 0 && Rest(n, Pow(Dec, decimals)) < Pow(Dec, decimals)
    ensures n == Quotient(n, Pow(Dec, decimals)) * Pow(Dec, decimals) + Rest(n, Pow(Dec, decimals))
  {
    PowPositive(Dec, decimals);
    DivMod(n, Pow(Dec, decimals));
  }

  lemma DivisionTextIs(whole: nat, fraction: nat, decimals: nat, n: nat)
    requires fraction < Pow(Dec, decimals) && n == whole * Pow(Dec, decimals) + fraction
    ensures DivisionText(n, decimals) == JoinText(Print(whole, Dec), StripZeros(FractionDigits(fraction, decimals)))
  {
    hide Pow, Print, JoinFull, FractionDigits, StripZeros, JoinText;
    PowPositive(Dec, decimals);
    DivUnique(n, Pow(Dec, decimals), whole, fraction);
    JoinFullText(whole, fraction, decimals);
  }

  /** The division printer on the digits of a whole part and of a fraction. */
  lemma DivisionOfParts(hi: string, lo: string)
    requires Canonical(hi, Dec) && LowerDigits(lo, Dec)
    ensures AllDigits(hi + lo, Dec)
    ensures DivisionText(Value(hi + lo, Dec), |lo|) == JoinText(hi, StripZeros(lo))
  {
    assert LowerDigits(hi, Dec) && AllDigits(hi, Dec) && AllDigits(lo, Dec);
    hide *;
    ValueConcat(hi, lo, Dec);
    ValueBound(lo, Dec);
    CanonicalPrint(hi, Dec);
    FractionDigitsValue(Value(lo, Dec), |lo|);
    SameLengthUnique(lo, FractionDigits(Value(lo, Dec), |lo|), Dec);
    DivisionTextIs(Value(hi, Dec), Value(lo, Dec), |lo|, Value(hi + lo, Dec));
  }

  /** Cutting digits `decimals` from the end is division by 10^decimals. */
  lemma SliceIsDivision(s: string, decimals: nat)
    requires LowerDigits(s, Dec) && |s| > decimals && (|s| == decimals + 1 || s[0] != '0')
    ensures SliceJoin(s, decimals) == DivisionText(Value(s, Dec), decimals)
  {
    hide Value, Pow, Print, StripZeros, DivisionText, DigitVal;
    var hi, lo := s[..|s| - decimals], s[|s| - decimals..];
    assert s == hi + lo;
    assert Canonical(hi, Dec) && LowerDigits(lo, Dec);
    DivisionOfParts(hi, lo);
  }

  lemma FormatUnitsSlices(n: nat, decimals: nat)
    requires n > 0
    ensures |PadStart(Print(n, Dec), decimals + 1)| > decimals
    ensures FormatUnits(n, decimals) == SliceJoin(PadStart(Print(n, Dec), decimals + 1), decimals)
  {
    PrintValue(n, Dec);
    hide Print, Value, DigitVal;
    var str := Print(n, Dec);
    if decimals == 0 {
      assert str[..|str|] == str && str[|str|..] == "";
    }
  }

  lemma PaddedPrint(n: nat, k: nat)
    requires n > 0
    ensures var s := PadStart(Print(n, Dec), k + 1);
      LowerDigits(s, Dec) && Value(s, Dec) == n && (|s| == k + 1 || s[0] != '0') && |s| > k
  {
    PrintValue(n, Dec);
    PadStartValue(Print(n, Dec), k + 1, Dec);
    hide Print, Value, DigitVal;
  }

  /** The Venus printer is the division printer. */
  lemma FormatUnitsDivides(n: nat, decimals: nat)
    ensures FormatUnits(n, decimals) == DivisionText(n, decimals)
  {
    if n == 0 {
      ZeroText(decimals);
    } else {
      hide *;
      FormatUnitsSlices(n, decimals);
      PaddedPrint(n, decimals);
      SliceIsDivision(PadStart(Print(n, Dec), decimals + 1), decimals);
    }
  }

  lemma ZeroText(decimals: nat)
    ensures DivisionText(0, decimals) == "0"
  {
    PowPositive(Dec, decimals);
    DivUnique(0, Pow(Dec, decimals), 0, 0);
  }

  /** Off canonical digits the LI.FI printer agrees with the others exactly when no
      superfluous zero is left in front of the whole part. */
  lemma FormatAmountExactly(raw: string, decimals: nat)
    requires IsDigits(raw)
    ensures FormatAmount(raw, decimals) == DivisionText(Value(raw, Dec), decimals)
       <==> |raw| <= decimals + 1 || raw[0] != '0'
  {
    hide Value, Pow, SliceJoin, DivisionText, FormatAmount;
    FormatAmountSlices(raw, decimals);
    if |raw| <= decimals + 1 || raw[0] != '0' {
      PadStartValue(raw, decimals + 1, Dec);
      SliceIsDivision(PadStart(raw, decimals + 1), decimals);
    } else {
      DivisionTextHead(Value(raw, Dec), decimals);
      SlicedHead(raw, decimals);
    }
  }

  lemma SlicedHead(raw: string, decimals: nat)
    requires IsDigits(raw) && |raw| > decimals + 1
    ensures var u := SliceJoin(raw, decimals); |u| >= 2 && u[0] == raw[0] && u[1] == raw[1] != '.'
  {
    assert DigitVal(raw[1]) < 10;
  }

  lemma FormatAmountSlices(raw: string, decimals: nat)
    requires IsDigits(raw)
    ensures |PadStart(raw, decimals + 1)| > decimals
    ensures FormatAmount(raw, decimals) == SliceJoin(PadStart(raw, decimals + 1), decimals)
  {
    var s := PadStart(raw, decimals + 1);
    assert decimals == 0 ==> s[..|s|] == s;
  }

  /** A leading zero of the division printer's text is its whole whole part. */
  lemma DivisionTextHead(n: nat, decimals: nat)
    ensures var t := DivisionText(n, decimals);
            t != "" && (t[0] == '0' ==> |t| == 1 || t[1] == '.')
  {
    SplitAmount(n, decimals);
    HeadOfJoin(Quotient(n, Pow(Dec, decimals)), Rest(n, Pow(Dec, decimals)), decimals);
  }

  lemma HeadOfJoin(whole: nat, fraction: nat, decimals: nat)
    ensures var t := JoinFull(whole, fraction, decimals);
            t != "" && (t[0] == '0' ==> |t| == 1 || t[1] == '.')
  {
    PrintValue(whole, Dec);
  }

  lemma DigitsTrim(s: string)
    requires IsDigits(s)
    ensures Trim(s) == s
  {
    SplitPlain(s);
    DecimalTrims(s);
  }

  /** All printers give the same text, for every amount and every number of decimals. */
  lemma PrintersAgree(n: nat, decimals: nat)
    ensures FormatUnits(n, decimals) == DivisionText(n, decimals)
    ensures FormatAmount(Print(n, Dec), decimals) == DivisionText(n, decimals)
    ensures FormatCoinAmount(Print(n, Dec), decimals) == Ok(DivisionText(n, decimals))
    ensures decimals == 18 ==> FormatNativeAmountFromWei(n) == FormatUnits(n, decimals)
    ensures decimals <= 255 ==>
      FormatTokenAmount(Print(n, Dec), decimals, Some(decimals as real)) == Ok(DivisionText(n, decimals))
  {
    PrintValue(n, Dec);
    DigitsTrim(Print(n, Dec));
    FormatUnitsDivides(n, decimals);
    FormatAmountExactly(Print(n, Dec), decimals);
    SplitAmount(n, decimals);
    var whole, fraction := Quotient(n, Pow(Dec, decimals)), Rest(n, Pow(Dec, decimals));
    JoinFullText(whole, fraction, decimals);
    JoinTruncatedText(whole, fraction, decimals, decimals);
    assert FractionDigits(fraction, decimals)[..decimals] == FractionDigits(fraction, decimals);
  }

  // ---- print, then parse ----

  /** Parsing what FormatTokenAmount printed with m fraction digits gives the amount
      rounded down to a multiple of 10^(decimals - m). */
  lemma FormatThenParse(n: nat, decimals: nat, maxFractionDigits: Option<real>)
    requires decimals <= 255
    ensures var unit := Pow(Dec, decimals - ClampFractionDigits(maxFractionDigits, decimals));
      var printed := FormatTokenAmount(Print(n, Dec), decimals, maxFractionDigits);
      && printed.Ok? && unit > 0
      && ParseScaledDecimal(printed.value, decimals) == Ok(RoundTo(n, unit))
      && RoundTo(n, unit) <= n < RoundTo(n, unit) + unit
  {
    hide *;
    var whole, g := PrintedForm(n, decimals, maxFractionDigits);
    ParsePrinted(whole, g, decimals);
  }

  /** With all fraction digits, print then parse is the identity. */
  lemma FormatThenParseExact(n: nat, decimals: nat)
    requires decimals <= 255
    ensures var printed := FormatTokenAmount(Print(n, Dec), decimals, Some(decimals as real));
      printed.Ok? && ParseScaledDecimal(printed.value, decimals) == Ok(n)
  {
    hide *;
    ClampAll(decimals);
    FormatThenParse(n, decimals, Some(decimals as real));
    RoundToUnit(n);
  }

  lemma ClampAll(decimals: nat)
    ensures ClampFractionDigits(Some(decimals as real), decimals) == decimals && Pow(Dec, 0) == 1
  {
  }

  lemma RoundToUnit(n: nat)
    ensures RoundTo(n, 1) == n
  {
  }

  /** The printed text is a decimal with at most m fraction digits that ends neither
      in a dot nor in a fraction zero. */
  lemma FormatShape(n: nat, decimals: nat, maxFractionDigits: Option<real>)
    requires decimals <= 255
    ensures var printed := FormatTokenAmount(Print(n, Dec), decimals, maxFractionDigits);
      && printed.Ok? && CanonicalDecimal(printed.value)
      && |Fraction(printed.value)| <= ClampFractionDigits(maxFractionDigits, decimals)
  {
    var whole, g := PrintedForm(n, decimals, maxFractionDigits);
    StripPad(g);
    PrintedShape(whole, StripZeros(g));
    PrintValue(whole, Dec);
  }

  lemma PrintedForm(n: nat, decimals: nat, maxFractionDigits: Option<real>)
    returns (whole: nat, g: string)
    requires decimals <= 255
    ensures LowerDigits(g, Dec) && |g| == ClampFractionDigits(maxFractionDigits, decimals)
    ensures FormatTokenAmount(Print(n, Dec), decimals, maxFractionDigits)
         == Ok(JoinText(Print(whole, Dec), StripZeros(g)))
    ensures Pow(Dec, decimals - |g|) > 0
    ensures RoundTo(n, Pow(Dec, decimals - |g|))
         == whole * Pow(Dec, decimals) + Value(g, Dec) * Pow(Dec, decimals - |g|)
    ensures RoundTo(n, Pow(Dec, decimals - |g|)) <= n
          < RoundTo(n, Pow(Dec, decimals - |g|)) + Pow(Dec, decimals - |g|)
  {
    var digits;
    whole, digits := PrintedParts(n, decimals, maxFractionDigits);
    g := digits[..ClampFractionDigits(maxFractionDigits, decimals)];
    RoundedDown(n, whole, digits, |g|);
  }

  lemma PrintedParts(n: nat, decimals: nat, maxFractionDigits: Option<real>)
    returns (whole: nat, digits: string)
    requires decimals <= 255
    ensures LowerDigits(digits, Dec) && |digits| == decimals
    ensures n == whole * Pow(Dec, decimals) + Value(digits, Dec)
    ensures FormatTokenAmount(Print(n, Dec), decimals, maxFractionDigits)
         == Ok(JoinText(Print(whole, Dec),
                        StripZeros(digits[..ClampFractionDigits(maxFractionDigits, decimals)])))
  {
    PrintValue(n, Dec);
    DigitsTrim(Print(n, Dec));
    SplitAmount(n, decimals);
    whole := Quotient(n, Pow(Dec, decimals));
    var fraction := Rest(n, Pow(Dec, decimals));
    digits := FractionDigits(fraction, decimals);
    FractionDigitsValue(fraction, decimals);
    JoinTruncatedText(whole, fraction, decimals, ClampFractionDigits(maxFractionDigits, decimals));
  }

  function RoundTo(n: nat, unit: nat): nat
    requires unit > 0
  {
    Quotient(n, unit) * unit
  }

  /** Cutting the fraction to m digits rounds down to a multiple of 10^(|digits| - m). */
  lemma RoundedDown(n: nat, whole: nat, digits: string, m: nat)
    requires LowerDigits(digits, Dec) && m <= |digits|
    requires n == whole * Pow(Dec, |digits|) + Value(digits, Dec)
    ensures Pow(Dec, |digits| - m) > 0
    ensures whole * Pow(Dec, |digits|) + Value(digits[..m], Dec) * Pow(Dec, |digits| - m)
         == RoundTo(n, Pow(Dec, |digits| - m))
    ensures RoundTo(n, Pow(Dec, |digits| - m)) <= n < RoundTo(n, Pow(Dec, |digits| - m)) + Pow(Dec, |digits| - m)
  {
    hide Value, Pow, DigitVal, RoundTo;
    var g, h := digits[..m], digits[m..];
    assert digits == g + h;
    ValueConcat(g, h, Dec);
    ValueBound(h, Dec);
    PowPositive(Dec, |h|);
    PowAdd(Dec, m, |h|);
    RoundDown(n, whole, Pow(Dec, m), Pow(Dec, |h|), Value(g, Dec), Value(h, Dec));
  }

  lemma RoundDown(n: nat, whole: nat, p: nat, unit: nat, g: nat, h: nat)
    requires unit > 0 && n == whole * (p * unit) + (g * unit + h) && h < unit
    ensures RoundTo(n, unit) == whole * (p * unit) + g * unit
    ensures RoundTo(n, unit) <= n < RoundTo(n, unit) + unit
  {
    Distribute(whole, p, g, unit);
    DivUnique(n, unit, whole * p + g, h);
  }

  lemma PrintedShape(whole: nat, s: string)
    requires AllDigits(s, Dec)
    ensures var text := JoinText(Print(whole, Dec), s);
            IsDecimal(text) && Whole(text) == Print(whole, Dec) && Fraction(text) == s
  {
    PrintValue(whole, Dec);
    if s == "" {
      SplitPlain(Print(whole, Dec));
    } else {
      SplitAt(Print(whole, Dec), s);
    }
  }

  /** Reading back a printed whole part and the fraction digits g with zeros stripped. */
  lemma ParsePrinted(whole: nat, g: string, decimals: nat)
    requires LowerDigits(g, Dec) && |g| <= decimals
    ensures ParseScaledDecimal(JoinText(Print(whole, Dec), StripZeros(g)), decimals)
         == Ok(whole * Pow(Dec, decimals) + Value(g, Dec) * Pow(Dec, decimals - |g|))
  {
    hide Value, Pow, Print, ParseScaledDecimal, JoinText, StripZeros, PadEnd, DigitVal;
    StripPad(g);
    ParseJoined(whole, StripZeros(g), decimals);
    PadEndTwice(StripZeros(g), g, decimals);
    PadEndValue(g, decimals, Dec);
  }

  lemma ParseJoined(whole: nat, s: string, decimals: nat)
    requires AllDigits(s, Dec) && |s| <= decimals
    ensures AllDigits(PadEnd(s, decimals), Dec)
    ensures ParseScaledDecimal(JoinText(Print(whole, Dec), s), decimals)
         == Ok(whole * Pow(Dec, decimals) + Value(PadEnd(s, decimals), Dec))
  {
    PrintedShape(whole, s);
    ParseParts(JoinText(Print(whole, Dec), s), decimals);
    PrintValue(whole, Dec);
  }

  lemma PadEndTwice(s: string, g: string, decimals: nat)
    requires |s| <= |g| <= decimals && PadEnd(s, |g|) == g
    ensures PadEnd(s, decimals) == PadEnd(g, decimals)
  {
    assert PadEnd(s, decimals) == s + Zeros(decimals - |s|);
    assert g == s + Zeros(|g| - |s|);
    assert PadEnd(g, decimals) == g + Zeros(decimals - |g|);
  }

  lemma ParseParts(t: string, decimals: nat)
    requires IsDecimal(t) && |Fraction(t)| <= decimals
    ensures AllDigits(PadEnd(Fraction(t), decimals), Dec)
    ensures ParseScaledDecimal(t, decimals)
         == Ok(Value(Whole(t), Dec) * Pow(Dec, decimals) + Value(PadEnd(Fraction(t), decimals), Dec))
  {
    hide Value, Pow, ScaledUnits, PadEnd, Trim, Fraction, Whole, AllDigits, IsDecimal;
    DecimalTrims(t);
    DecimalDigits(t);
    PadEndValue(Fraction(t), decimals, Dec);
    ScaledDigits(Whole(t), Fraction(t), decimals);
  }

  lemma ScaledDigits(w: string, f: string, decimals: nat)
    requires AllDigits(w, Dec) && AllDigits(f, Dec) && |f| <= decimals
    ensures AllDigits(PadEnd(f, decimals), Dec)
    ensures ScaledUnits(w, f, decimals)
         == Value(w, Dec) * Pow(Dec, decimals) + Value(PadEnd(f, decimals), Dec)
  {
    PadEndValue(f, decimals, Dec);
  }

  /** Texts as the printers write them: no leading zero, no trailing fraction zero. */
  predicate CanonicalDecimal(t: string) {
    && IsDecimal(t) && Canonical(Whole(t), Dec)
    && (Fraction(t) != "" ==> Fraction(t)[|Fraction(t)| - 1] != '0')
  }

  /** Parse, then print: the same text comes back exactly for canonical texts. */
  lemma ParseThenFormat(t: string, decimals: nat)
    requires decimals <= 255 && IsDecimal(t) && |Fraction(t)| <= decimals
    ensures ParseScaledDecimal(t, decimals).Ok?
    ensures FormatTokenAmount(Print(ParseScaledDecimal(t, decimals).value, Dec), decimals, None) == Ok(t)
       <==> CanonicalDecimal(t)
  {
    hide *;
    DecimalDigits(t);
    var n, padded := ParsedParts(t, decimals);
    var text := FormatOfParts(Value(Whole(t), Dec), padded, n);
    if CanonicalDecimal(t) {
      CanonicalParts(t);
      CanonicalPrint(Whole(t), Dec);
      StripPadded(Fraction(t), decimals);
    } else {
      FormatOfPartsCanonical(Value(Whole(t), Dec), padded);
    }
  }

  lemma CanonicalParts(t: string)
    requires CanonicalDecimal(t)
    ensures Canonical(Whole(t), Dec) && (Fraction(t) != "" ==> Fraction(t)[|Fraction(t)| - 1] != '0')
    ensures t == JoinText(Whole(t), Fraction(t))
  {
  }

  lemma {:induction false} StripDigits(s: string)
    requires AllDigits(s, Dec)
    ensures AllDigits(StripZeros(s), Dec)
  {
    hide StripZeros, PadEnd, DigitVal;
    StripPad(s);
  }

  lemma PrintIsCanonical(n: nat)
    ensures Canonical(Print(n, Dec), Dec)
  {
    PrintValue(n, Dec);
  }

  lemma MakeCanonical(t: string)
    requires IsDecimal(t) && Canonical(Whole(t), Dec)
    requires Fraction(t) != "" ==> Fraction(t)[|Fraction(t)| - 1] != '0'
    ensures CanonicalDecimal(t)
  {
  }

  lemma FormatOfPartsCanonical(whole: nat, padded: string)
    requires LowerDigits(padded, Dec)
    ensures CanonicalDecimal(JoinText(Print(whole, Dec), StripZeros(padded)))
  {
    hide *;
    LowerAreDigits(padded);
    StripPad(padded);
    StripDigits(padded);
    PrintedShape(whole, StripZeros(padded));
    PrintIsCanonical(whole);
    MakeCanonical(JoinText(Print(whole, Dec), StripZeros(padded)));
  }

  lemma ParsedParts(t: string, decimals: nat) returns (n: nat, padded: string)
    requires IsDecimal(t) && |Fraction(t)| <= decimals
    ensures padded == PadEnd(Fraction(t), decimals) && LowerDigits(padded, Dec) && |padded| == decimals
    ensures n == Value(Whole(t), Dec) * Pow(Dec, decimals) + Value(padded, Dec)
    ensures ParseScaledDecimal(t, decimals) == Ok(n)
  {
    padded := PadEnd(Fraction(t), decimals);
    PadEndValue(Fraction(t), decimals, Dec);
    ParseParts(t, decimals);
    n := ParseScaledDecimal(t, decimals).value;
  }

  lemma FormatOfParts(whole: nat, padded: string, n: nat) returns (text: string)
    requires LowerDigits(padded, Dec) && |padded| <= 255
    requires n == whole * Pow(Dec, |padded|) + Value(padded, Dec)
    ensures text == JoinText(Print(whole, Dec), StripZeros(padded))
    ensures FormatTokenAmount(Print(n, Dec), |padded|, None) == Ok(text)
  {
    var w, digits := PrintedParts(n, |padded|, None);
    SameSplit(whole, padded, w, digits);
    assert digits[..|padded|] == padded;
    text := JoinText(Print(whole, Dec), StripZeros(padded));
  }

  lemma SameSplit(v: nat, s: string, w: nat, t: string)
    requires LowerDigits(s, Dec) && LowerDigits(t, Dec) && |s| == |t|
    requires v * Pow(Dec, |s|) + Value(s, Dec) == w * Pow(Dec, |t|) + Value(t, Dec)
    ensures v == w && s == t
  {
    hide Value, Pow, DigitVal;
    ValueBound(s, Dec);
    ValueBound(t, Dec);
    SplitUnique(Pow(Dec, |s|), v, Value(s, Dec), w, Value(t, Dec));
    SameLengthUnique(s, t, Dec);
  }

  lemma SameClampSameText(raw: string, decimals: nat, v: Option<real>, w: Option<real>)
    requires ClampFractionDigits(v, decimals) == ClampFractionDigits(w, decimals)
    ensures FormatTokenAmount(raw, decimals, v) == FormatTokenAmount(raw, decimals, w)
  {
    hide ParseUnsigned, JoinTruncated, Pow, ClampFractionDigits;
  }

  lemma FormatWhole(n: nat, decimals: nat, v: Option<real>)
    requires decimals <= 255 && ClampFractionDigits(v, decimals) == 0
    ensures Pow(Dec, decimals) > 0
    ensures FormatTokenAmount(Print(n, Dec), decimals, v) == Ok(Print(Quotient(n, Pow(Dec, decimals)), Dec))
  {
    hide *;
    FormatIsJoin(n, decimals, v);
    var whole, fraction := Quotient(n, Pow(Dec, decimals)), Rest(n, Pow(Dec, decimals));
    JoinTruncatedText(whole, fraction, decimals, 0);
    assert FractionDigits(fraction, decimals)[..0] == "";
    NothingJoined(whole);
  }

  lemma NothingJoined(whole: nat)
    ensures JoinText(Print(whole, Dec), StripZeros("")) == Print(whole, Dec)
  {
    hide Print;
  }

  lemma FormatIsJoin(n: nat, decimals: nat, v: Option<real>)
    requires decimals <= 255
    ensures Pow(Dec, decimals) > 0 && Rest(n, Pow(Dec, decimals)) < Pow(Dec, decimals)
    ensures FormatTokenAmount(Print(n, Dec), decimals, v)
         == Ok(JoinTruncated(Quotient(n, Pow(Dec, decimals)), Rest(n, Pow(Dec, decimals)), decimals,
                             ClampFractionDigits(v, decimals)))
  {
    PrintValue(n, Dec);
    DigitsTrim(Print(n, Dec));
    SplitAmount(n, decimals);
    hide JoinTruncated, ClampFractionDigits, Print, Pow, Trim, Value, Quotient, Rest;
  }

  /** Asked for as many fraction digits as there are or more, or for no finite number: the
      full text is printed, and it reads back as the amount. */
  lemma FormatAllDigits(n: nat, decimals: nat, v: Option<real>)
    requires decimals <= 255 && (v.None? || v.value >= decimals as real)
    ensures FormatTokenAmount(Print(n, Dec), decimals, v) == Ok(DivisionText(n, decimals))
    ensures ParseScaledDecimal(DivisionText(n, decimals), decimals) == Ok(n)
  {
    var full := Some(decimals as real);
    assert ClampFractionDigits(full, decimals) == ClampFractionDigits(v, decimals) == decimals;
    hide *;
    SameClampSameText(Print(n, Dec), decimals, v, full);
    PrintersAgree(n, decimals);
    FormatThenParseExact(n, decimals);
  }

  /** Asked for fewer than none: only the whole part is printed. */
  lemma FormatNoDigits(n: nat, decimals: nat, v: Option<real>)
    requires decimals <= 255 && v.Some? && v.value < 0.0
    ensures Pow(Dec, decimals) > 0
    ensures FormatTokenAmount(Print(n, Dec), decimals, v) == Ok(Print(Quotient(n, Pow(Dec, decimals)), Dec))
  {
    assert ClampFractionDigits(v, decimals) == 0;
    hide *;
    FormatWhole(n, decimals, v);
  }

  lemma ClampIsFloor(v: real, m: nat, decimals: nat)
    requires m as real <= v < m as real + 1.0 && m < decimals
    ensures ClampFractionDigits(Some(v), decimals) == m
  {
  }

  /** Between, with m the whole number just below: the amount is rounded down to m digits and
      written without superfluous zeros, which together determine the text. */
  lemma FormatSomeDigits(n: nat, decimals: nat, v: real, m: nat)
    requires decimals <= 255 && m as real <= v < m as real + 1.0 && m < decimals
    ensures Pow(Dec, decimals - m) > 0
    ensures var printed := FormatTokenAmount(Print(n, Dec), decimals, Some(v));
      && printed.Ok? && CanonicalDecimal(printed.value) && |Fraction(printed.value)| <= m
      && ParseScaledDecimal(printed.value, decimals) == Ok(RoundTo(n, Pow(Dec, decimals - m)))
  {
    hide *;
    ClampIsFloor(v, m, decimals);
    FormatThenParse(n, decimals, Some(v));
    FormatShape(n, decimals, Some(v));
  }

  /** Printing accepts exactly digits, with white space around them, at 0 to 255 decimals, and
      depends on their value alone. */
  lemma FormatAccepts(raw: string, decimals: int, v: Option<real>)
    ensures FormatTokenAmount(raw, decimals, v).Ok? <==> IsDigits(Trim(raw)) && 0 <= decimals <= 255
    ensures FormatTokenAmount(raw, decimals, v) == Err(NotDecimal) <==> !IsDigits(Trim(raw))
    ensures IsDigits(Trim(raw)) ==>
      FormatTokenAmount(raw, decimals, v) == FormatTokenAmount(Print(Value(Trim(raw), Dec), Dec), decimals, v)
  {
    if IsDigits(Trim(raw)) {
      PrintValue(Value(Trim(raw), Dec), Dec);
      DigitsTrim(Print(Value(Trim(raw), Dec), Dec));
    }
    hide Trim, Value, Print, JoinTruncated, ClampFractionDigits, Pow;
  }

  const NEAR_DECIMALS := 24

  function FormatNearAmount(yoctoNear: string, maxFractionDigits: Option<real>): Result<string, TextError> {
    FormatTokenAmount(yoctoNear, NEAR_DECIMALS, Some(ClampFractionDigits(maxFractionDigits, NEAR_DECIMALS) as real))
  }

  /** toYoctoNear on a text. */
  function ToYoctoNear(amountNear: string): Result<nat, TextError> {
    ParseScaledDecimal(amountNear, NEAR_DECIMALS)
  }

  lemma NearFullDigits(yoctoNear: string)
    ensures FormatNearAmount(yoctoNear, Some(24.0)) == FormatTokenAmount(yoctoNear, NEAR_DECIMALS, None)
    ensures FormatNearAmount(yoctoNear, Some(24.0))
         == FormatTokenAmount(yoctoNear, NEAR_DECIMALS, Some(NEAR_DECIMALS as real))
  {
    hide ParseUnsigned, JoinTruncated, Pow;
  }

  lemma ParsesTrimmed(value: string, scale: nat)
    ensures IsDecimal(Trim(value)) ==> ParseScaledDecimal(value, scale) == ParseScaledDecimal(Trim(value), scale)
    ensures ParseScaledDecimal(value, scale).Ok? ==>
              IsDecimal(Trim(value)) && |Fraction(Trim(value))| <= scale
  {
    if IsDecimal(Trim(value)) {
      DecimalTrims(Trim(value));
    }
    hide Trim, IsDecimal, ScaledUnits;
  }

  /** formatNearAmount at 24 digits and toYoctoNear on texts undo each other: an amount
      printed and read is the amount, and a text read and printed is the text, but for the
      white space around it, exactly when it has no superfluous zeros. */
  lemma NearRoundTrip(n: nat, value: string)
    ensures var printed := FormatNearAmount(Print(n, Dec), Some(24.0));
      printed.Ok? && ToYoctoNear(printed.value) == Ok(n)
    ensures ToYoctoNear(value).Ok? ==>
      (FormatNearAmount(Print(ToYoctoNear(value).value, Dec), Some(24.0)) == Ok(Trim(value))
       <==> CanonicalDecimal(Trim(value)))
  {
    hide FormatNearAmount, FormatTokenAmount, ParseScaledDecimal, CanonicalDecimal, IsDecimal, Print, Trim, Fraction;
    NearFullDigits(Print(n, Dec));
    FormatThenParseExact(n, NEAR_DECIMALS);
    if ToYoctoNear(value).Ok? {
      NearFullDigits(Print(ToYoctoNear(value).value, Dec));
      ParsesTrimmed(value, NEAR_DECIMALS);
      ParseThenFormat(Trim(value), NEAR_DECIMALS);
    }
  }
}
