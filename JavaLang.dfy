/**
 * The few java.lang behaviours the split action relies on: null references,
 * exceptions, 32-bit int range, Integer.toString / Integer.parseInt and
 * String.indexOf / String.contains.
 */
module JavaLang {

  /** A Java reference that may be null. */
  datatype Option<+T> = None | Some(value: T)

  /** A computation that either returns normally or throws. */
  datatype Result<+T, +E> = Ok(value: T) | Err(error: E)

  /** The exceptions the modelled code can raise. */
  datatype Exception =
    | NullPointerException
    | NumberFormatException(input: string)

  const IntMin: int := -0x8000_0000
  const IntMax: int := 0x7fff_ffff

  /** n fits in a Java int. */
  predicate IsInt(n: int) {
    IntMin <= n <= IntMax
  }

  /** String concatenation (`"" + ref`) renders a null reference as "null". */
  function ConcatOperand(s: Option<string>): (r: string)
    ensures s.None? ==> r == "null"
    ensures s.Some? ==> r == s.value
  {
    match s
    case None => "null"
    case Some(v) => v
  }

  // ---------------------------------------------------------------------
  // Decimal digits

  predicate IsDigit(c: char) {
    '0' <= c <= '9'
  }

  predicate AllDigits(s: string) {
    forall i | 0 <= i < |s| :: IsDigit(s[i])
  }

  function DigitChar(d: nat): (c: char)
    requires d < 10
    ensures IsDigit(c)
    ensures (c == '0') == (d == 0)
  {
    ('0' as int + d) as char
  }

  function DigitValue(c: char): (d: nat)
    requires IsDigit(c)
    ensures d < 10
  {
    c as int - '0' as int
  }

  /** The value of a string of decimal digits, most significant first. */
  function DigitsValue(s: string): nat
    requires AllDigits(s)
  {
    if s == [] then 0 else 10 * DigitsValue(s[..|s| - 1]) + DigitValue(s[|s| - 1])
  }

  /** Decimal rendering of a natural number, as Integer.toString prints it. */
  function NatToString(n: nat): (s: string)
    ensures |s| >= 1 && AllDigits(s)
    ensures (s[0] == '0') == (n == 0)
    ensures n == 0 ==> s == "0"
  {
    if n < 10 then [DigitChar(n)] else NatToString(n / 10) + [DigitChar(n % 10)]
  }

  /** Integer.toString(n), which is also what `"" + n` produces. */
  function IntToString(n: int): (s: string)
    ensures |s| >= 1
    ensures (s[0] == '-') == (n < 0)
    ensures n >= 0 ==> AllDigits(s)
  {
    if n < 0 then "-" + NatToString(-n) else NatToString(n)
  }

  lemma {:induction false} NatToStringRoundTrip(n: nat)
    ensures DigitsValue(NatToString(n)) == n
  {
    var s := NatToString(n);
    if n < 10 {
      assert s[..0] == [];
    } else {
      NatToStringRoundTrip(n / 10);
      assert s[..|s| - 1] == NatToString(n / 10);
    }
  }

  /** A digit string of value at least 1 when it has no leading zero. */
  lemma {:induction false} DigitsValuePositive(s: string)
    requires |s| >= 1 && AllDigits(s) && s[0] != '0'
    ensures DigitsValue(s) >= 1
  {
    if |s| > 1 {
      var p := s[..|s| - 1];
      assert p[0] == s[0];
      DigitsValuePositive(p);
    }
  }

  /** Rendering the value of a digit string without leading zeros gives the string back. */
  lemma {:induction false} DigitsValueRoundTrip(s: string)
    requires |s| >= 1 && AllDigits(s) && (s[0] != '0' || s == "0")
    ensures NatToString(DigitsValue(s)) == s
  {
    var p := s[..|s| - 1];
    var c := s[|s| - 1];
    if |s| == 1 {
      assert p == [];
      assert [c] == s;
    } else {
      assert p[0] == s[0];
      DigitsValuePositive(p);
      DigitsValueRoundTrip(p);
      var n := DigitsValue(s);
      assert n / 10 == DigitsValue(p) && n % 10 == DigitValue(c);
      assert p + [c] == s;
    }
  }

  lemma NatToStringInjective(a: nat, b: nat)
    requires NatToString(a) == NatToString(b)
    ensures a == b
  {
    NatToStringRoundTrip(a);
    NatToStringRoundTrip(b);
  }

  lemma IntToStringInjective(a: int, b: int)
    requires IntToString(a) == IntToString(b)
    ensures a == b
  {
    if a < 0 {
      assert IntToString(a)[1..] == NatToString(-a);
      assert IntToString(b)[1..] == NatToString(-b);
      NatToStringInjective(-a, -b);
    } else {
      NatToStringInjective(a, b);
    }
  }

  // ---------------------------------------------------------------------
  // Integer.parseInt(s, 10)

  /** The optional sign of an int literal: '-' or '+'. */
  predicate HasSign(s: string) {
    |s| > 0 && (s[0] == '-' || s[0] == '+')
  }

  /** The digits of an int literal, after an optional sign. */
  function Magnitude(s: string): (m: string)
    ensures m == s || (HasSign(s) && s == [s[0]] + m)
  {
    if HasSign(s) then s[1..] else s
  }

  /**
   * Integer.parseInt(s) (and `new Integer(s)`): an optional '-' or '+',
   * then one or more decimal digits whose value fits in an int; any other
   * text throws NumberFormatException.
   */
  function ParseInt(s: string): (r: Result<int, Exception>)
    ensures r.Ok? ==> IsInt(r.value)
    ensures r.Ok? ==> |Magnitude(s)| >= 1 && AllDigits(Magnitude(s))
    ensures r.Ok? ==> r.value < 0 ==> s[0] == '-'
    ensures r.Err? ==> r.error == NumberFormatException(s)
  {
    var m := Magnitude(s);
    if |m| == 0 || !AllDigits(m) then Err(NumberFormatException(s))
    else
      var v: int := if |s| > 0 && s[0] == '-' then -(DigitsValue(m) as int) else DigitsValue(m);
      if IsInt(v) then Ok(v) else Err(NumberFormatException(s))
  }

  /** The way Integer.toString writes an int: no '+', no leading zero, no "-0". */
  predicate IsCanonicalInt(s: string) {
    var m := if |s| > 0 && s[0] == '-' then s[1..] else s;
    |m| >= 1 && AllDigits(m) && (m[0] != '0' || s == "0")
  }

  /** Parsing what Integer.toString prints gives the same int back. */
  lemma ParseIntRoundTrip(n: int)
    requires IsInt(n)
    ensures IsCanonicalInt(IntToString(n))
    ensures ParseInt(IntToString(n)) == Ok(n)
  {
    var s := IntToString(n);
    if n < 0 {
      assert s[1..] == NatToString(-n);
      NatToStringRoundTrip(-n);
    } else {
      NatToStringRoundTrip(n);
    }
  }

  /** Conversely, a canonical literal that parses is what Integer.toString prints. */
  lemma ParseIntCanonical(s: string)
    requires IsCanonicalInt(s) && ParseInt(s).Ok?
    ensures IntToString(ParseInt(s).value) == s
  {
    var m := Magnitude(s);
    DigitsValueRoundTrip(if s[0] == '-' then s[1..] else s);
    if s[0] == '-' {
      DigitsValuePositive(m);
      assert s == "-" + m;
    }
  }

  /** k zero digits. */
  function Zeros(k: nat): (z: string)
    ensures |z| == k && AllDigits(z)
    ensures forall i | 0 <= i < k :: z[i] == '0'
  {
    if k == 0 then "" else "0" + Zeros(k - 1)
  }

  /** A leading zero does not change the value of a digit string. */
  lemma {:induction false} DigitsValueLeadingZero(t: string)
    requires AllDigits(t)
    ensures AllDigits("0" + t) && DigitsValue("0" + t) == DigitsValue(t)
  {
    var s := "0" + t;
    if t == [] {
      assert s[..0] == [];
    } else {
      DigitsValueLeadingZero(t[..|t| - 1]);
      assert s[..|s| - 1] == "0" + t[..|t| - 1];
    }
  }

  lemma {:induction false} DigitsValueLeadingZeros(k: nat, t: string)
    requires AllDigits(t)
    ensures AllDigits(Zeros(k) + t) && DigitsValue(Zeros(k) + t) == DigitsValue(t)
  {
    if k > 0 {
      var u := Zeros(k - 1) + t;
      assert AllDigits(u) && DigitsValue(u) == DigitsValue(t) by {
        DigitsValueLeadingZeros(k - 1, t);
      }
      assert Zeros(k) + t == "0" + u;
      DigitsValueLeadingZero(u);
    } else {
      assert Zeros(k) + t == t;
    }
  }

  /** The sign Integer.parseInt accepts before the digits: none, '+' or '-'. */
  datatype Sign = Unsigned | Plus | Minus

  function SignText(sign: Sign): (t: string)
    ensures |t| <= 1
    ensures |t| == 1 ==> (t[0] == '-') == (sign == Minus) && (t[0] == '-' || t[0] == '+')
  {
    match sign
    case Unsigned => ""
    case Plus => "+"
    case Minus => "-"
  }

  /** The int a sign and a magnitude denote. */
  function Signed(sign: Sign, n: nat): (v: int)
    ensures v == n || v == -(n as int)
    ensures v < 0 ==> sign == Minus
  {
    if sign == Minus then -(n as int) else n
  }

  /** The magnitude of a signed digit string is the digit string. */
  lemma SignedMagnitude(sign: Sign, d: string)
    requires |d| >= 1 && AllDigits(d)
    ensures Magnitude(SignText(sign) + d) == d
    ensures ((SignText(sign) + d)[0] == '-') == (sign == Minus)
  {
    var s := SignText(sign) + d;
    if sign == Unsigned {
      assert s == d;
    } else {
      assert s[1..] == d;
    }
  }

  /** Integer.parseInt on a text whose magnitude is a digit string. */
  lemma ParseIntDigits(s: string, sign: Sign)
    requires |Magnitude(s)| >= 1 && AllDigits(Magnitude(s))
    requires (s[0] == '-') == (sign == Minus)
    ensures IsInt(Signed(sign, DigitsValue(Magnitude(s)))) ==>
      ParseInt(s) == Ok(Signed(sign, DigitsValue(Magnitude(s))))
    ensures !IsInt(Signed(sign, DigitsValue(Magnitude(s)))) ==>
      ParseInt(s) == Err(NumberFormatException(s))
  {
  }

  /** A sign followed by a digit string is read as the value of the digits, with that sign. */
  lemma ParseIntSignedDigits(sign: Sign, d: string)
    requires |d| >= 1 && AllDigits(d)
    ensures IsInt(Signed(sign, DigitsValue(d))) ==>
      ParseInt(SignText(sign) + d) == Ok(Signed(sign, DigitsValue(d)))
    ensures !IsInt(Signed(sign, DigitsValue(d))) ==>
      ParseInt(SignText(sign) + d) == Err(NumberFormatException(SignText(sign) + d))
  {
    SignedMagnitude(sign, d);
    ParseIntDigits(SignText(sign) + d, sign);
  }

  /**
   * Any sign, any number of leading zeros, then the digits of n: the text is
   * read as n with that sign exactly when that value fits in an int.
   * So "+5", "007" and "-0" give 5, 7 and 0.
   */
  lemma ParseIntAccepts(sign: Sign, k: nat, n: nat)
    ensures IsInt(Signed(sign, n)) ==>
      ParseInt(SignText(sign) + (Zeros(k) + NatToString(n))) == Ok(Signed(sign, n))
    ensures !IsInt(Signed(sign, n)) ==>
      ParseInt(SignText(sign) + (Zeros(k) + NatToString(n))).Err?
  {
    var d := Zeros(k) + NatToString(n);
    assert |d| >= 1 && AllDigits(d) && DigitsValue(d) == n by {
      DigitsValueLeadingZeros(k, NatToString(n));
      NatToStringRoundTrip(n);
    }
    ParseIntSignedDigits(sign, d);
  }

  /** The number of leading zeros of a digit string, keeping at least one digit. */
  function LeadingZeroCount(m: string): nat {
    if |m| > 1 && m[0] == '0' then 1 + LeadingZeroCount(m[1..]) else 0
  }

  lemma {:induction false} ZerosThenDigits(m: string)
    requires |m| >= 1 && AllDigits(m)
    ensures LeadingZeroCount(m) < |m|
    ensures m == Zeros(LeadingZeroCount(m)) + m[LeadingZeroCount(m)..]
    ensures m[LeadingZeroCount(m)] != '0' || LeadingZeroCount(m) == |m| - 1
  {
    if |m| > 1 && m[0] == '0' {
      ZerosThenDigits(m[1..]);
      var k := LeadingZeroCount(m[1..]);
      assert m[1..][k..] == m[k + 1..];
      assert m == "0" + m[1..];
    }
  }

  /** Conversely, every text Integer.parseInt accepts is a sign, leading zeros and the digits of n. */
  lemma ParseIntAcceptedForm(s: string) returns (sign: Sign, k: nat, n: nat)
    requires ParseInt(s).Ok?
    ensures s == SignText(sign) + (Zeros(k) + NatToString(n))
    ensures ParseInt(s).value == Signed(sign, n)
  {
    var m := Magnitude(s);
    sign := if !HasSign(s) then Unsigned else if s[0] == '-' then Minus else Plus;
    assert s == SignText(sign) + m;
    ZerosThenDigits(m);
    k := LeadingZeroCount(m);
    var rest := m[k..];
    n := DigitsValue(rest);
    assert NatToString(n) == rest by {
      DigitsValueRoundTrip(rest);
    }
    assert DigitsValue(m) == n by {
      DigitsValueLeadingZeros(k, rest);
    }
    ParseIntSignedDigits(sign, m);
  }

  // ---------------------------------------------------------------------
  // String.indexOf / String.contains

  /** sub occurs in s starting at index i. */
  predicate OccursAt(s: string, sub: string, i: int) {
    0 <= i && i + |sub| <= |s| && s[i..i + |sub|] == sub
  }

  /** s.indexOf(sub, from): the first index at or after from where sub occurs, or -1. */
  function IndexOfFrom(s: string, sub: string, from: nat): (r: int)
    ensures r == -1 || (from <= r && OccursAt(s, sub, r))
    ensures r >= 0 ==> forall j | from <= j < r :: !OccursAt(s, sub, j)
    ensures r == -1 ==> forall j | from <= j :: !OccursAt(s, sub, j)
    decreases |s| - from
  {
    if from + |sub| > |s| then -1
    else if s[from..from + |sub|] == sub then from
    else IndexOfFrom(s, sub, from + 1)
  }

  /** s.indexOf(sub). */
  function IndexOf(s: string, sub: string): (r: int)
    ensures r == -1 || OccursAt(s, sub, r)
    ensures forall j | 0 <= j && (r == -1 || j < r) :: !OccursAt(s, sub, j)
  {
    IndexOfFrom(s, sub, 0)
  }

  /** s.contains(sub), which Java defines as indexOf(sub) > -1. */
  predicate Contains(s: string, sub: string)
    ensures Contains(s, sub) <==> exists i :: OccursAt(s, sub, i)
  {
    IndexOf(s, sub) > -1
  }
}
