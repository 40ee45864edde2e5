/** Numbers as text: parse_number, the `%d` branch of print_number, and RFC 8259 section 6. */
module NumberText {
  import opened Json

  predicate Digit(c: char) { '0' <= c <= '9' }

  ghost predicate Digits(ds: string) { forall i | 0 <= i < |ds| :: Digit(ds[i]) }

  function DigitValue(c: char): nat
    requires Digit(c)
  {
    c as int - '0' as int
  }

  /** Whether the text starts with a digit. */
  predicate AtDigit(s: string) { s != [] && Digit(s[0]) }

  predicate AtChar(s: string, c: char) { s != [] && s[0] == c }

  /** x * 10^k, for any integer k. Only constant factors occur, which keeps the arithmetic linear. */
  function Scale(x: real, k: int): real
    decreases if k < 0 then -k else k
  {
    if k == 0 then x else if k > 0 then 10.0 * Scale(x, k - 1) else Scale(x, k + 1) / 10.0
  }

  function Signed(negative: bool, x: real): real { if negative then -x else x }

  // ---- parse_number as a function of the text ----

  /** `while digit: n = n * 10 + digit`, and the text left. */
  function Accumulate(n: int, s: string): (r: (int, string))
    ensures |r.1| <= |s| && !AtDigit(r.1)
    decreases s
  {
    if AtDigit(s) then Accumulate(n * 10 + DigitValue(s[0]), s[1..]) else (n, s)
  }

  /** One optional leading zero, then the digits of the whole part, unless they start with zero. */
  function ParseWhole(s: string): (r: (int, string))
    ensures |r.1| <= |s| && !(AtDigit(r.1) && r.1[0] != '0')
  {
    var t := if AtChar(s, '0') then s[1..] else s;
    if AtDigit(t) && t[0] != '0' then Accumulate(0, t) else (0, t)
  }

  /** The byte behind a `.` is taken for a digit whatever it is: `*num++ - '0'` is definite for ASCII. At
      the end of the text the pointer would leave it, and the sign of any other `char` is open. */
  predicate AtFractionByte(s: string) { s != "" && '\0' < s[0] < '\U{80}' }

  /** `.`, one byte, and the digits after it: the digits so far, the (negative) scale, and the text left. */
  function ParseFraction(n: int, s: string): (r: (int, int, string))
    requires AtChar(s, '.') ==> AtFractionByte(s[1..])
    ensures |r.2| <= |s|
  {
    if AtChar(s, '.') then
      var (m, rest) := Accumulate(n * 10 + (s[1] as int - '0' as int), s[2..]);
      (m, |rest| - |s| + 1, rest)
    else (n, 0, s)
  }

  /** A number as it is read: its sign, all its digits as one integer, and the power of ten. */
  datatype Parts = Parts(negative: bool, digits: int, power: int)

  function ReadNumber(s: string): (r: Parsed<Parts>)
    ensures r.Done? && (AtChar(s, '-') || AtDigit(s)) ==> |r.rest| < |s|
  {
    var negative := AtChar(s, '-');
    var (n, t) := ParseWhole(if negative then s[1..] else s);
    if AtChar(t, '.') && !AtFractionByte(t[1..]) then Malformed else
    var (m, scale, u) := ParseFraction(n, t);
    var (e, rest) := ParseExponent(u);
    Done(Parts(negative, m, scale + e), rest)
  }

  function PartsValue(p: Parts): real { Signed(p.negative, Scale(p.digits as real, p.power)) }

  function ParseNumber(s: string): (r: Parsed<Value>)
    ensures r.Done? && (AtChar(s, '-') || AtDigit(s)) ==> |r.rest| < |s|
  {
    var (parts, rest) :- ReadNumber(s);
    Done(Number(PartsValue(parts)), rest)
  }

  /** The exponent part: `e`, an optional sign, and any number of digits. */
  function ParseExponent(s: string): (r: (int, string))
    ensures |r.1| <= |s|
  {
    if AtChar(s, 'e') || AtChar(s, 'E') then ParseSubscale(s[1..]) else (0, s)
  }

  function ParseSubscale(s: string): (r: (int, string))
    ensures |r.1| <= |s|
  {
    var (n, rest) := Accumulate(0, if AtChar(s, '+') || AtChar(s, '-') then s[1..] else s);
    (if AtChar(s, '-') then -n else n, rest)
  }

  // ---- RFC 8259 section 6 ----

  datatype ExpSign = Unsigned | Plus | Minus

  datatype Exponent = NoExp | Exp(upper: bool, sign: ExpSign, digits: string)

  /** number = [ minus ] int [ frac ] [ exp ] */
  datatype NumberLiteral = NumberLiteral(minus: bool, whole: string, frac: string, exp: Exponent)

  ghost predicate WellFormedNumber(l: NumberLiteral) {
    && Digits(l.whole) && l.whole != "" && (l.whole[0] == '0' ==> |l.whole| == 1)
    && Digits(l.frac)
    && WellFormedExponent(l.exp)
  }

  ghost predicate WellFormedExponent(x: Exponent) {
    x.Exp? ==> Digits(x.digits) && x.digits != ""
  }

  function SignText(sign: ExpSign): string {
    match sign case Unsigned => "" case Plus => "+" case Minus => "-"
  }

  function ExponentText(x: Exponent): string {
    match x
    case NoExp => ""
    case Exp(upper, sign, digits) => [if upper then 'E' else 'e'] + (SignText(sign) + digits)
  }

  /** An empty fraction means that there is no `.`. */
  function FracText(frac: string): string { if frac == "" then "" else "." + frac }

  function NumberLiteralText(l: NumberLiteral): string {
    (if l.minus then "-" else "") + (l.whole + (FracText(l.frac) + ExponentText(l.exp)))
  }

  /** The natural number a digit string denotes, read from its last digit. */
  function NatValue(ds: string): nat
    requires Digits(ds)
  {
    if ds == "" then 0 else 10 * NatValue(ds[..|ds| - 1]) + DigitValue(ds[|ds| - 1])
  }

  function ExponentValue(x: Exponent): int
    requires WellFormedExponent(x)
  {
    match x
    case NoExp => 0
    case Exp(_, sign, digits) => if sign.Minus? then -(NatValue(digits) as int) else NatValue(digits)
  }

  /** What the literal denotes: the whole part plus the fraction, scaled by the exponent. */
  function NumberValue(l: NumberLiteral): real
    requires WellFormedNumber(l)
  {
    var plain := NatValue(l.whole) as real + Scale(NatValue(l.frac) as real, -|l.frac|);
    Signed(l.minus, Scale(plain, ExponentValue(l.exp)))
  }

  /** The text after a number must not go on as a number. */
  predicate EndsNumber(rest: string) {
    rest != [] ==> !Digit(rest[0]) && rest[0] != '.' && rest[0] != 'e' && rest[0] != 'E'
  }

  // ---- scaling and digit strings ----

  lemma {:induction false} ScaleAdds(x: real, y: real, k: int)
    ensures Scale(x + y, k) == Scale(x, k) + Scale(y, k)
    decreases if k < 0 then -k else k
  {
    if k > 0 {
      ScaleAdds(x, y, k - 1);
    } else if k < 0 {
      ScaleAdds(x, y, k + 1);
    }
  }

  lemma {:induction false} ScaleTwice(x: real, a: int, b: int)
    ensures Scale(Scale(x, a), b) == Scale(x, a + b)
    decreases if b < 0 then -b else b
  {
    if b > 0 {
      ScaleTwice(x, a, b - 1);
    } else if b < 0 {
      ScaleTwice(x, a, b + 1);
    }
  }

  lemma {:induction false} NatValueAppend(a: string, b: string)
    requires Digits(a) && Digits(b)
    ensures Digits(a + b)
    ensures NatValue(a + b) as real == Scale(NatValue(a) as real, |b|) + NatValue(b) as real
  {
    if b == "" {
      assert a + b == a;
    } else {
      var b', d := b[..|b| - 1], b[|b| - 1];
      assert (a + b)[..|a + b| - 1] == a + b';
      NatValueAppend(a, b');
    }
  }

  /** The accumulating loop, run from the front, computes the number read from the back. */
  lemma {:induction false} AccumulateDigits(n: int, prior: string, ds: string, rest: string)
    requires Digits(prior) && Digits(ds) && n == NatValue(prior) && !AtDigit(rest)
    ensures Digits(prior + ds)
    ensures Accumulate(n, ds + rest) == (NatValue(prior + ds), rest)
    decreases ds
  {
    if ds == "" {
      assert prior + ds == prior && ds + rest == rest;
    } else {
      var next := prior + [ds[0]];
      assert next[..|next| - 1] == prior;
      assert (ds + rest)[1..] == ds[1..] + rest;
      AccumulateDigits(n * 10 + DigitValue(ds[0]), next, ds[1..], rest);
      assert next + ds[1..] == prior + ds;
    }
  }

  // ---- parse_number conforms to RFC 8259 section 6 ----

  lemma SubscaleDigits(digits: string, rest: string)
    requires Digits(digits) && digits != "" && !AtDigit(rest)
    ensures Accumulate(0, digits + rest) == (NatValue(digits), rest)
    ensures AtDigit(digits + rest)
  {
    AccumulateDigits(0, "", digits, rest);
    assert "" + digits == digits;
    assert (digits + rest)[0] == digits[0];
  }

  lemma SubscaleSign(c: char, body: string)
    requires c == '+' || c == '-'
    ensures ParseSubscale([c] + body)
        == ((if c == '-' then -Accumulate(0, body).0 else Accumulate(0, body).0), Accumulate(0, body).1)
  {
    assert ([c] + body)[1..] == body;
  }

  lemma SubscaleUnsigned(body: string)
    requires AtDigit(body)
    ensures ParseSubscale(body) == Accumulate(0, body)
  {
  }

  lemma ParseSubscaleComplete(sign: ExpSign, digits: string, rest: string)
    requires Digits(digits) && digits != "" && !AtDigit(rest)
    ensures ParseSubscale(SignText(sign) + (digits + rest))
         == (if sign.Minus? then -(NatValue(digits) as int) else NatValue(digits), rest)
  {
    SubscaleDigits(digits, rest);
    match sign
    case Unsigned =>
      assert SignText(sign) + (digits + rest) == digits + rest;
      SubscaleUnsigned(digits + rest);
    case Plus => SubscaleSign('+', digits + rest);
    case Minus => SubscaleSign('-', digits + rest);
  }

  lemma ExponentSplit(c: char, sign: string, digits: string, rest: string)
    ensures [c] + (sign + digits) + rest == [c] + (sign + (digits + rest))
  {
  }

  lemma ExponentLetter(c: char, t: string)
    requires c == 'e' || c == 'E'
    ensures ParseExponent([c] + t) == ParseSubscale(t)
  {
    assert ([c] + t)[1..] == t;
  }

  lemma ParseExponentComplete(x: Exponent, rest: string)
    requires WellFormedExponent(x) && EndsNumber(rest)
    ensures ParseExponent(ExponentText(x) + rest) == (ExponentValue(x), rest)
  {
    if x.NoExp? {
      assert ExponentText(x) + rest == rest;
    } else {
      var c := if x.upper then 'E' else 'e';
      ExponentSplit(c, SignText(x.sign), x.digits, rest);
      ExponentLetter(c, SignText(x.sign) + (x.digits + rest));
      ParseSubscaleComplete(x.sign, x.digits, rest);
    }
  }

  lemma WholeIsZero(whole: string, rest: string)
    requires whole == "0" && !AtDigit(rest)
    ensures Digits(whole) && ParseWhole(whole + rest) == (0, rest) && NatValue(whole) == 0
  {
    assert (whole + rest)[1..] == rest;
    assert whole[..0] == "";
  }

  lemma WholeIsDigits(s: string)
    requires AtDigit(s) && s[0] != '0'
    ensures ParseWhole(s) == Accumulate(0, s)
  {
  }

  /** The leading-zero test and the first loop read exactly the grammar's `int`. */
  lemma ParseWholeComplete(whole: string, rest: string)
    requires Digits(whole) && whole != "" && (whole[0] == '0' ==> |whole| == 1) && !AtDigit(rest)
    ensures ParseWhole(whole + rest) == (NatValue(whole), rest)
  {
    if whole[0] == '0' {
      WholeIsZero(whole, rest);
    } else {
      AccumulateDigits(0, "", whole, rest);
      assert "" + whole == whole;
      WholeIsDigits(whole + rest);
    }
  }

  lemma FracAhead(frac: string, tail: string)
    requires frac != ""
    ensures var s := FracText(frac) + tail;
            AtChar(s, '.') && s[1..] == frac + tail && s[1..][0] == frac[0] && s[2..] == frac[1..] + tail
  {
  }

  lemma FractionIsDigits(n: int, s: string)
    requires AtChar(s, '.') && AtDigit(s[1..])
    ensures ParseFraction(n, s)
        == (Accumulate(n, s[1..]).0, |Accumulate(n, s[1..]).1| - |s| + 1, Accumulate(n, s[1..]).1)
  {
  }

  /** The `.` test and the second loop read exactly the grammar's optional `frac`. */
  lemma ParseFractionComplete(whole: string, frac: string, tail: string)
    requires Digits(whole) && Digits(frac) && !AtDigit(tail) && !AtChar(tail, '.')
    ensures Digits(whole + frac)
    ensures var s := FracText(frac) + tail;
            && (AtChar(s, '.') ==> AtFractionByte(s[1..])) && !AtDigit(s)
            && ParseFraction(NatValue(whole), s) == (NatValue(whole + frac), -|frac|, tail)
  {
    var s := FracText(frac) + tail;
    if frac == "" {
      assert s == tail && whole + frac == whole;
    } else {
      FracAhead(frac, tail);
      FractionIsDigits(NatValue(whole), s);
      AccumulateDigits(NatValue(whole), whole, frac, tail);
    }
  }

  /** Scaling the digits of whole and fraction together is what the grammar's value says. */
  lemma ScaledValue(whole: string, frac: string, e: int)
    requires Digits(whole) && Digits(frac)
    ensures Digits(whole + frac)
    ensures Scale(NatValue(whole + frac) as real, -|frac| + e)
         == Scale(NatValue(whole) as real + Scale(NatValue(frac) as real, -|frac|), e)
  {
    var w, f, k := NatValue(whole) as real, NatValue(frac) as real, |frac|;
    NatValueAppend(whole, frac);
    ScaleAdds(Scale(w, k), f, -k);
    ScaleTwice(w, k, -k);
    ScaleTwice(NatValue(whole + frac) as real, -k, e);
  }

  lemma SignComplete(minus: bool, whole: string, t: string)
    requires Digits(whole) && whole != ""
    ensures var s := (if minus then "-" else "") + (whole + t);
            AtChar(s, '-') == minus && (if minus then s[1..] else s) == whole + t
  {
    assert (whole + t)[0] == whole[0];
    assert "" + (whole + t) == whole + t;
  }

  lemma ReadNumberComplete(l: NumberLiteral, rest: string, tail: string, t: string, s: string)
    requires WellFormedNumber(l) && EndsNumber(rest)
    requires tail == ExponentText(l.exp) + rest && t == FracText(l.frac) + tail
    requires s == (if l.minus then "-" else "") + (l.whole + t)
    ensures Digits(l.whole + l.frac)
    ensures var r := ReadNumber(s);
            && r.Done? && r.rest == rest && r.value.negative == l.minus
            && r.value.digits == NatValue(l.whole + l.frac)
            && r.value.power == -|l.frac| + ExponentValue(l.exp)
  {
    SignComplete(l.minus, l.whole, t);
    ParseFractionComplete(l.whole, l.frac, tail);
    ParseWholeComplete(l.whole, t);
    ParseExponentComplete(l.exp, rest);
    ReadParts(s, l.minus, NatValue(l.whole), t, NatValue(l.whole + l.frac), -|l.frac|, tail, ExponentValue(l.exp),
        rest);
  }

  lemma ReadParts(s: string, minus: bool, n: int, t: string, m: int, scale: int, u: string, e: int, rest: string)
    requires AtChar(s, '-') == minus && ParseWhole(if minus then s[1..] else s) == (n, t)
    requires (AtChar(t, '.') ==> AtFractionByte(t[1..])) && ParseFraction(n, t) == (m, scale, u)
    requires ParseExponent(u) == (e, rest)
    ensures ReadNumber(s) == Done(Parts(minus, m, scale + e), rest)
  {
  }

  lemma SplitNumberText(l: NumberLiteral, rest: string)
    ensures NumberLiteralText(l) + rest
         == (if l.minus then "-" else "") + (l.whole + (FracText(l.frac) + (ExponentText(l.exp) + rest)))
  {
  }

  /** The parts of a literal, put together. */
  lemma PartsOfLiteral(l: NumberLiteral, p: Parts)
    requires WellFormedNumber(l) && Digits(l.whole + l.frac) && p.negative == l.minus
    requires p.digits == NatValue(l.whole + l.frac) && p.power == -|l.frac| + ExponentValue(l.exp)
    ensures PartsValue(p) == NumberValue(l)
  {
    ScaledValue(l.whole, l.frac, ExponentValue(l.exp));
  }

  lemma NumberOfParts(s: string, rest: string, d: real)
    requires ReadNumber(s).Done? && ReadNumber(s).rest == rest && PartsValue(ReadNumber(s).value) == d
    ensures Reads(ParseNumber(s), Number(d), rest)
  {
  }

  /** Every number of the RFC grammar is read in full, to exactly its value. */
  lemma ParseNumberComplete(l: NumberLiteral, rest: string)
    requires WellFormedNumber(l) && EndsNumber(rest)
    ensures Reads(ParseNumber(NumberLiteralText(l) + rest), Number(NumberValue(l)), rest)
  {
    var s, tail := NumberLiteralText(l) + rest, ExponentText(l.exp) + rest;
    SplitNumberText(l, rest);
    ReadNumberComplete(l, rest, tail, FracText(l.frac) + tail, s);
    PartsOfLiteral(l, ReadNumber(s).value);
    NumberOfParts(s, rest, NumberValue(l));
  }

  // ---- print_number, `%d` branch ----

  function DigitChar(d: nat): char
    requires d < 10
  {
    (d + '0' as int) as char
  }

  function NatText(n: nat): string {
    if n < 10 then [DigitChar(n)] else NatText(n / 10) + [DigitChar(n % 10)]
  }

  function IntText(n: int): string { if n < 0 then "-" + NatText(-n) else NatText(n) }

  /** `(int)d`: conversion truncates toward zero. */
  function Truncate(d: real): int { if d < 0.0 then -((-d).Floor) else d.Floor }

  predicate Int32(n: int) { -0x8000_0000 <= n < 0x8000_0000 }

  /** The numbers print_number prints with `%d`. */
  predicate Int32Number(d: real) { d.Floor as real == d && Int32(d.Floor) }

  function PrintNumber(d: real): string
    requires Int32Number(d)
  {
    IntText(Truncate(d))
  }

  lemma {:induction false} NatTextValue(n: nat)
    ensures var t := NatText(n); Digits(t) && t != "" && (t[0] == '0' ==> |t| == 1) && NatValue(t) == n
    ensures n > 0 ==> NatText(n)[0] != '0'
  {
    var t := NatText(n);
    if n < 10 {
      assert t[..|t| - 1] == "";
    } else {
      NatTextValue(n / 10);
      assert t[..|t| - 1] == NatText(n / 10);
    }
  }

  ghost function PrintedNumber(d: real): NumberLiteral {
    var n := Truncate(d);
    NumberLiteral(n < 0, NatText(if n < 0 then -n else n), "", NoExp)
  }

  lemma PlainNumberText(minus: bool, whole: string)
    ensures NumberLiteralText(NumberLiteral(minus, whole, "", NoExp)) == if minus then "-" + whole else whole
  {
    assert whole + ("" + "") == whole;
    assert "" + whole == whole;
  }

  lemma PlainNumberValue(l: NumberLiteral)
    requires WellFormedNumber(l) && l.frac == "" && l.exp == NoExp
    ensures NumberValue(l) == Signed(l.minus, NatValue(l.whole) as real)
  {
  }

  /** A printed integer is a number of the RFC grammar that denotes the integer. */
  lemma PrintedNumberLiteral(d: real)
    requires Int32Number(d)
    ensures var l := PrintedNumber(d);
            WellFormedNumber(l) && NumberLiteralText(l) == PrintNumber(d) && NumberValue(l) == d
  {
    var n, l := Truncate(d), PrintedNumber(d);
    assert n as real == d;
    NatTextValue(if n < 0 then -n else n);
    PlainNumberText(l.minus, l.whole);
    PlainNumberValue(l);
  }
}
