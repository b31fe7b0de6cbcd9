/** Decimal and hexadecimal numerals as JavaScript prints and reads them:
    `BigInt.prototype.toString(radix)`, `BigInt(text)`, `padStart`, `padEnd` and
    the stripping of trailing zeros. */
module Numerals {

  /** The radixes in use. Scaling by either is multiplication by a literal. */
  datatype Radix = Dec | Hex {
    const size: nat := if Dec? then 10 else 16

    function Times(x: nat): nat {
      if Dec? then 10 * x else 16 * x
    }
  }

  function Pow(b: Radix, e: nat): nat {
    if e == 0 then 1 else b.Times(Pow(b, e - 1))
  }

  function DigitChar(d: nat): char
    requires d < 16
  {
    "0123456789abcdef"[d]
  }

  /** 16 stands for "not a digit". */
  function DigitVal(c: char): nat {
    if '0' <= c <= '9' then c as nat - '0' as nat
    else if 'a' <= c <= 'f' then c as nat - 'a' as nat + 10
    else if 'A' <= c <= 'F' then c as nat - 'A' as nat + 10
    else 16
  }

  predicate AllDigits(s: string, b: Radix) {
    forall i | 0 <= i < |s| :: DigitVal(s[i]) < b.size
  }

  /** No digit is an upper-case letter. */
  predicate LowerDigits(s: string, b: Radix) {
    AllDigits(s, b) && forall i | 0 <= i < |s| :: !('A' <= s[i] <= 'F')
  }

  function Value(s: string, b: Radix): nat
    requires AllDigits(s, b)
  {
    if s == "" then 0 else b.Times(Value(s[..|s| - 1], b)) + DigitVal(s[|s| - 1])
  }

  function Print(n: nat, b: Radix): string {
    if n < b.size then [DigitChar(n)]
    else if b.Dec? then Print(n / 10, b) + [DigitChar(n % 10)]
    else Print(n / 16, b) + [DigitChar(n % 16)]
  }

  function Zeros(k: nat): (s: string)
    ensures |s| == k && forall i | 0 <= i < k :: s[i] == '0'
  {
    seq(k, _ => '0')
  }

  function PadStart(s: string, n: nat): string {
    if |s| >= n then s else Zeros(n - |s|) + s
  }

  function PadEnd(s: string, n: nat): string {
    if |s| >= n then s else s + Zeros(n - |s|)
  }

  function StripZeros(s: string): string {
    if s != "" && s[|s| - 1] == '0' then StripZeros(s[..|s| - 1]) else s
  }

  /** Canonical digits: not empty, and no leading zero unless the text is "0". */
  predicate Canonical(s: string, b: Radix) {
    s != "" && LowerDigits(s, b) && (|s| == 1 || s[0] != '0')
  }

  // ---- powers, products and quotients ----

  lemma {:induction false} PowPositive(b: Radix, e: nat)
    ensures Pow(b, e) > 0
  {
    if e > 0 {
      PowPositive(b, e - 1);
    }
  }

  lemma TimesProduct(b: Radix, x: nat, y: nat)
    ensures b.Times(x) * y == b.Times(x * y) == x * b.Times(y)
  {
  }

  lemma {:induction false} PowAdd(b: Radix, e: nat, f: nat)
    ensures Pow(b, e + f) == Pow(b, e) * Pow(b, f)
  {
    if e > 0 {
      PowAdd(b, e - 1, f);
      TimesProduct(b, Pow(b, e - 1), Pow(b, f));
    }
  }

  lemma {:induction false} PowMono(b: Radix, e: nat, f: nat)
    requires e <= f
    ensures Pow(b, e) <= Pow(b, f)
  {
    if e < f {
      PowMono(b, e, f - 1);
    }
  }

  lemma MulMono(x: int, y: int, k: nat)
    requires x <= y
    ensures x * k <= y * k
  {
  }

  lemma Distribute(v: int, p: int, w: int, q: int)
    ensures (v * p + w) * q == v * (p * q) + w * q
  {
  }

  /** The quotient and the rest, named so that proofs can speak of them
      without unfolding the division. */
  function Quotient(n: nat, m: nat): nat
    requires m > 0
  {
    n / m
  }

  function Rest(n: nat, m: nat): nat
    requires m > 0
  {
    n % m
  }

  lemma DivMod(n: nat, m: nat)
    requires m > 0
    ensures Rest(n, m) < m && n == Quotient(n, m) * m + Rest(n, m)
  {
  }

  lemma DivUnique(n: nat, m: nat, q: nat, r: nat)
    requires m > 0 && n == q * m + r && r < m
    ensures Quotient(n, m) == q && Rest(n, m) == r
  {
    DivMod(n, m);
    SplitUnique(m, Quotient(n, m), Rest(n, m), q, r);
  }

  lemma SplitUnique(m: nat, q: nat, r: nat, q': nat, r': nat)
    requires q * m + r == q' * m + r' && r < m && r' < m
    ensures q == q' && r == r'
  {
    if q' > q {
      MulMono(q + 1, q', m);
    } else if q' < q {
      MulMono(q' + 1, q, m);
    }
  }

  // ---- values of concatenations and paddings ----

  lemma ValueSnoc(s: string, c: char, b: Radix)
    requires AllDigits(s, b) && DigitVal(c) < b.size
    ensures AllDigits(s + [c], b) && Value(s + [c], b) == b.Times(Value(s, b)) + DigitVal(c)
  {
    var t := s + [c];
    assert t[..|t| - 1] == s;
  }

  lemma DigitsConcat(s: string, t: string, b: Radix)
    ensures AllDigits(s, b) && AllDigits(t, b) <==> AllDigits(s + t, b)
  {
    hide DigitVal;
    if AllDigits(s + t, b) {
      assert forall i | 0 <= i < |s| :: s[i] == (s + t)[i];
      assert forall i | 0 <= i < |t| :: t[i] == (s + t)[|s| + i];
    }
  }

  /** Taking one digit off the end. */
  lemma ValueLast(s: string, b: Radix)
    requires AllDigits(s, b) && s != ""
    ensures AllDigits(s[..|s| - 1], b) && DigitVal(s[|s| - 1]) < b.size
    ensures Value(s, b) == b.Times(Value(s[..|s| - 1], b)) + DigitVal(s[|s| - 1])
  {
    hide DigitVal;
  }

  lemma ValueEmpty(b: Radix)
    ensures AllDigits("", b) && Value("", b) == 0 && Pow(b, 0) == 1
  {
  }

  lemma {:induction false} ValueConcat(s: string, t: string, b: Radix)
    requires AllDigits(s, b) && AllDigits(t, b)
    ensures AllDigits(s + t, b)
    ensures Value(s + t, b) == Value(s, b) * Pow(b, |t|) + Value(t, b)
    decreases |t|
  {
    hide *;
    DigitsConcat(s, t, b);
    if t == "" {
      ValueEmpty(b);
      assert s + t == s;
    } else {
      var t', c := t[..|t| - 1], t[|t| - 1];
      ValueLast(t, b);
      ValueConcat(s, t', b);
      ConcatStep(s, t', c, b);
      assert t == t' + [c] && s + t == s + t' + [c];
    }
  }

  lemma ConcatStep(s: string, t: string, c: char, b: Radix)
    requires AllDigits(s, b) && AllDigits(t, b) && AllDigits(s + t, b) && DigitVal(c) < b.size
    requires Value(s + t, b) == Value(s, b) * Pow(b, |t|) + Value(t, b)
    ensures AllDigits(t + [c], b) && AllDigits(s + t + [c], b)
    ensures Value(s + t + [c], b) == Value(s, b) * Pow(b, |t| + 1) + Value(t + [c], b)
  {
    hide *;
    PowNext(b, |t|);
    ValueSnoc(s + t, c, b);
    ValueSnoc(t, c, b);
    TimesProduct(b, Value(s, b), Pow(b, |t|));
    MulMono(0, Value(s, b), Pow(b, |t|));
    TimesSum(b, Value(s, b) * Pow(b, |t|), Value(t, b));
  }

  lemma PowNext(b: Radix, e: nat)
    ensures Pow(b, e + 1) == b.Times(Pow(b, e))
  {
  }

  lemma TimesSum(b: Radix, x: nat, y: nat)
    ensures b.Times(x + y) == b.Times(x) + b.Times(y)
  {
  }

  lemma {:induction false} ValueZeros(k: nat, b: Radix)
    ensures AllDigits(Zeros(k), b) && Value(Zeros(k), b) == 0
  {
    if k > 0 {
      ValueZeros(k - 1, b);
      assert Zeros(k)[..k - 1] == Zeros(k - 1);
    }
  }

  lemma {:induction false} ValueBound(s: string, b: Radix)
    requires AllDigits(s, b)
    ensures Value(s, b) < Pow(b, |s|)
  {
    if s != "" {
      ValueBound(s[..|s| - 1], b);
    }
  }

  lemma NonzeroDigit(c: char)
    requires c != '0'
    ensures DigitVal(c) > 0
  {
  }

  lemma {:induction false} LeadingValue(s: string, b: Radix)
    requires AllDigits(s, b) && s != "" && s[0] != '0'
    ensures Value(s, b) >= Pow(b, |s| - 1) > 0
  {
    hide DigitVal;
    NonzeroDigit(s[0]);
    PowPositive(b, |s| - 1);
    if |s| > 1 {
      LeadingValue(s[..|s| - 1], b);
    }
  }

  lemma PadStartValue(s: string, n: nat, b: Radix)
    requires AllDigits(s, b)
    ensures AllDigits(PadStart(s, n), b) && Value(PadStart(s, n), b) == Value(s, b)
    ensures |PadStart(s, n)| == if |s| >= n then |s| else n
  {
    if |s| < n {
      ValueZeros(n - |s|, b);
      ValueConcat(Zeros(n - |s|), s, b);
    }
  }

  lemma PadEndValue(s: string, n: nat, b: Radix)
    requires AllDigits(s, b) && |s| <= n
    ensures AllDigits(PadEnd(s, n), b) && |PadEnd(s, n)| == n
    ensures Value(PadEnd(s, n), b) == Value(s, b) * Pow(b, n - |s|)
  {
    if |s| < n {
      ValueZeros(n - |s|, b);
      ValueConcat(s, Zeros(n - |s|), b);
    }
  }

  // ---- printing ----

  lemma DigitCharVal(d: nat)
    requires d < 16
    ensures DigitVal(DigitChar(d)) == d && !('A' <= DigitChar(d) <= 'F')
    ensures DigitChar(d) == '0' <==> d == 0
  {
  }

  /** The digit of value d is written in two ways at most. */
  lemma DigitValExactly(c: char, d: nat)
    requires d < 16
    ensures DigitVal(c) == d <==> c == "0123456789abcdef"[d] || c == "0123456789ABCDEF"[d]
  {
  }

  /** Reading undoes printing, and what is printed is canonical. */
  lemma {:induction false} PrintValue(n: nat, b: Radix)
    ensures Canonical(Print(n, b), b)
    ensures Value(Print(n, b), b) == n
    ensures Print(n, b)[0] == '0' <==> n == 0
    decreases n
  {
    if n < b.size {
      OneDigit(n, b);
    } else {
      var q, r := LastDigit(n, b);
      PrintValue(q, b);
      hide Value, Print;
      DigitCharVal(r);
      ValueSnoc(Print(q, b), DigitChar(r), b);
    }
  }

  lemma OneDigit(n: nat, b: Radix)
    requires n < b.size
    ensures Print(n, b) == [DigitChar(n)] && Canonical(Print(n, b), b)
    ensures Value(Print(n, b), b) == n && (DigitChar(n) == '0' <==> n == 0)
  {
    DigitCharVal(n);
    ValueSnoc("", DigitChar(n), b);
    assert Print(n, b) == "" + [DigitChar(n)];
  }

  lemma LastDigit(n: nat, b: Radix) returns (q: nat, r: nat)
    requires n >= b.size
    ensures 0 < q < n && r < b.size && n == b.Times(q) + r
    ensures Print(n, b) == Print(q, b) + [DigitChar(r)]
  {
    q, r := if b.Dec? then n / 10 else n / 16, if b.Dec? then n % 10 else n % 16;
  }

  lemma {:induction false} PrintLength(n: nat, k: nat, b: Radix)
    ensures k > 0 && n < Pow(b, k) ==> |Print(n, b)| <= k
    ensures n >= Pow(b, k) ==> |Print(n, b)| > k
  {
    hide Print, Value, Pow, DigitVal;
    PrintValue(n, b);
    var s := Print(n, b);
    ValueBound(s, b);
    if |s| <= k {
      PowMono(b, |s|, k);
    } else if k > 0 {
      LeadingValue(s, b);
      PowMono(b, k, |s| - 1);
    }
  }

  lemma DigitInjective(c: char, d: char)
    requires DigitVal(c) == DigitVal(d) < 16 && !('A' <= c <= 'F') && !('A' <= d <= 'F')
    ensures c == d
  {
  }

  /** Two numerals of the same length and value are the same text. */
  lemma {:induction false} SameLengthUnique(s: string, t: string, b: Radix)
    requires LowerDigits(s, b) && LowerDigits(t, b) && |s| == |t|
    requires Value(s, b) == Value(t, b)
    ensures s == t
  {
    if s != "" {
      SameLastDigit(s, t, b);
      SameLengthUnique(s[..|s| - 1], t[..|t| - 1], b);
      assert s == s[..|s| - 1] + [s[|s| - 1]] && t == t[..|t| - 1] + [t[|t| - 1]];
    }
  }

  lemma SameLastDigit(s: string, t: string, b: Radix)
    requires LowerDigits(s, b) && LowerDigits(t, b) && |s| == |t| > 0
    requires Value(s, b) == Value(t, b)
    ensures s[|s| - 1] == t[|t| - 1] && Value(s[..|s| - 1], b) == Value(t[..|t| - 1], b)
  {
    var v, w := Value(s[..|s| - 1], b), Value(t[..|t| - 1], b);
    var c, d := DigitVal(s[|s| - 1]), DigitVal(t[|t| - 1]);
    assert b.Times(v) + c == b.Times(w) + d && c < b.size && d < b.size;
    assert v == w && c == d by { hide Value, DigitVal, Pow; }
    DigitInjective(s[|s| - 1], t[|t| - 1]);
  }

  /** Printing undoes reading on canonical texts. */
  lemma CanonicalPrint(s: string, b: Radix)
    requires Canonical(s, b)
    ensures Print(Value(s, b), b) == s
  {
    PrintValue(Value(s, b), b);
    ValueBound(s, b);
    PrintLength(Value(s, b), |s|, b);
    if |s| > 1 {
      LeadingValue(s, b);
      PrintLength(Value(s, b), |s| - 1, b);
    }
    SameLengthUnique(s, Print(Value(s, b), b), b);
  }

  // ---- stripping trailing zeros ----

  lemma {:induction false} StripPad(s: string)
    ensures |StripZeros(s)| <= |s| && StripZeros(s) <= s
    ensures PadEnd(StripZeros(s), |s|) == s
    ensures StripZeros(s) != "" ==> StripZeros(s)[|StripZeros(s)| - 1] != '0'
  {
    if s != "" && s[|s| - 1] == '0' {
      var s' := s[..|s| - 1];
      StripPad(s');
      assert s == s' + "0";
      var t := StripZeros(s);
      assert PadEnd(t, |s|) == t + Zeros(|s| - |t|);
      assert Zeros(|s| - |t|) == Zeros(|s'| - |t|) + "0";
    }
  }

  /** Stripping leaves nothing exactly when the value is zero. */
  lemma {:induction false} StripEmpty(s: string, b: Radix)
    requires AllDigits(s, b)
    ensures StripZeros(s) == "" <==> Value(s, b) == 0
  {
    if s != "" && s[|s| - 1] == '0' {
      StripEmpty(s[..|s| - 1], b);
    }
  }

  /** Padding with zeros and stripping gives back digits that end in no zero. */
  lemma {:induction false} StripPadded(f: string, n: nat)
    requires |f| <= n && (f != "" ==> f[|f| - 1] != '0')
    ensures StripZeros(PadEnd(f, n)) == f
    decreases n
  {
    hide *;
    if |f| < n {
      StripPadded(f, n - 1);
      PadOneMore(f, n);
      StripOne(PadEnd(f, n - 1));
    } else {
      NothingToStrip(f);
    }
  }

  lemma PadOneMore(f: string, n: nat)
    requires |f| < n
    ensures PadEnd(f, n) == PadEnd(f, n - 1) + "0"
  {
    assert Zeros(n - |f|) == Zeros(n - 1 - |f|) + "0";
  }

  lemma NothingToStrip(f: string)
    requires f != "" ==> f[|f| - 1] != '0'
    ensures StripZeros(PadEnd(f, |f|)) == f
  {
  }

  lemma StripOne(s: string)
    ensures StripZeros(s + "0") == StripZeros(s)
  {
    var t := s + "0";
    assert t[..|t| - 1] == s;
  }
}
