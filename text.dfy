/** Text primitives the cell types and the date codec are built from:
    Python's whitespace class, str.strip, str() of a non-negative integer,
    int() of a decimal digit string, and the plain decimal literals that
    int() and float() accept. */
module Text {
  import opened Outcomes
  import opened Doubles

  /** The characters Python's str.isspace accepts: those str.strip(),
      int() and float() skip, and those the regular expression class \s
      matches in a str pattern. */
  const Whitespace: set<char> := {
    '\t', '\n', '\U{B}', '\U{C}', '\r', '\U{1C}', '\U{1D}', '\U{1E}', '\U{1F}', ' ',
    '\U{85}', '\U{A0}', '\U{1680}',
    '\U{2000}', '\U{2001}', '\U{2002}', '\U{2003}', '\U{2004}', '\U{2005}',
    '\U{2006}', '\U{2007}', '\U{2008}', '\U{2009}', '\U{200A}',
    '\U{2028}', '\U{2029}', '\U{202F}', '\U{205F}', '\U{3000}'
  }

  predicate IsDigit(c: char) { '0' <= c <= '9' }

  predicate AllDigits(s: string) { forall i :: 0 <= i < |s| ==> IsDigit(s[i]) }

  predicate NoneIn(s: string, cs: set<char>) { forall i :: 0 <= i < |s| ==> s[i] !in cs }

  function DigitValue(c: char): (d: nat)
    requires IsDigit(c)
    ensures d < 10
  {
    c as int - '0' as int
  }

  function DigitChar(d: nat): (c: char)
    requires d < 10
    ensures IsDigit(c) && DigitValue(c) == d
  {
    ('0' as int + d) as char
  }

  function Pow10(k: nat): (p: nat)
    ensures p >= 1
  {
    if k == 0 then 1 else 10 * Pow10(k - 1)
  }

  // ---------------------------------------------------------------- stripping

  /** Drops the leading characters that belong to cs (Python's lstrip(cs)). */
  function TrimLeft(s: string, cs: set<char>): (r: string)
    ensures |r| <= |s| && (|r| == |s| ==> r == s)
    ensures forall i :: |r| < |s| && 0 <= i < |r| ==> r[i] == s[|s| - |r| + i]
    ensures r == [] || r[0] !in cs
    ensures forall i :: 0 <= i < |s| - |r| ==> s[i] in cs
  {
    if s != [] && s[0] in cs then TrimLeft(s[1..], cs) else s
  }

  /** Drops the trailing characters that belong to cs (Python's rstrip(cs)). */
  function TrimRight(s: string, cs: set<char>): (r: string)
    ensures |r| <= |s| && forall i :: 0 <= i < |r| ==> r[i] == s[i]
    ensures r == [] || r[|r| - 1] !in cs
    ensures forall i :: |r| <= i < |s| ==> s[i] in cs
  {
    if s != [] && s[|s| - 1] in cs then TrimRight(s[..|s| - 1], cs) else s
  }

  /** Python's strip(cs): the longest infix of s that neither starts nor ends
      with a character of cs, obtained by removing only characters of cs. */
  function Trim(s: string, cs: set<char>): (r: string)
    ensures |r| <= |s|
    ensures r == [] || (r[0] !in cs && r[|r| - 1] !in cs)
  {
    var l := TrimLeft(s, cs);
    var r := TrimRight(l, cs);
    assert r != [] ==> r[0] == l[0];
    r
  }

  /** Python's str.strip() with no argument. */
  function Strip(s: string): (r: string)
    ensures |r| <= |s|
    ensures r == [] || (r[0] !in Whitespace && r[|r| - 1] !in Whitespace)
  {
    Trim(s, Whitespace)
  }

  predicate IsBlank(s: string) { Strip(s) == "" }

  /** Trim keeps an infix of s: what it drops in front and behind belongs
      to cs. */
  lemma {:induction false} TrimInfix(s: string, cs: set<char>) returns (a: nat)
    ensures a + |Trim(s, cs)| <= |s|
    ensures forall i :: 0 <= i < |Trim(s, cs)| ==> Trim(s, cs)[i] == s[a + i]
    ensures forall i :: 0 <= i < a ==> s[i] in cs
    ensures forall i :: a + |Trim(s, cs)| <= i < |s| ==> s[i] in cs
  {
    var l := TrimLeft(s, cs);
    var r := TrimRight(l, cs);
    assert Trim(s, cs) == r;
    a := InfixParts(s, l, r, cs);
  }

  /** A suffix l of s whose dropped front is in cs, and a prefix r of l
      whose dropped back is in cs, make r an infix of s framed by cs. */
  lemma InfixParts(s: string, l: string, r: string, cs: set<char>) returns (a: nat)
    requires |l| <= |s| && forall i :: 0 <= i < |l| ==> l[i] == s[|s| - |l| + i]
    requires forall i :: 0 <= i < |s| - |l| ==> s[i] in cs
    requires |r| <= |l| && forall i :: 0 <= i < |r| ==> r[i] == l[i]
    requires forall i :: |r| <= i < |l| ==> l[i] in cs
    ensures a + |r| <= |s|
    ensures forall i :: 0 <= i < |r| ==> r[i] == s[a + i]
    ensures forall i :: 0 <= i < a ==> s[i] in cs
    ensures forall i :: a + |r| <= i < |s| ==> s[i] in cs
  {
    a := |s| - |l|;
    forall i | a + |r| <= i < |s|
      ensures s[i] in cs
    {
      assert s[i] == l[i - a];
    }
  }

  /** Trimming leaves a string alone when its ends are already outside cs. */
  lemma TrimKeeps(s: string, cs: set<char>)
    requires s == [] || (s[0] !in cs && s[|s| - 1] !in cs)
    ensures Trim(s, cs) == s
  {
  }

  /** A blank string is made of whitespace only. */
  lemma BlankIsAllSpace(s: string)
    ensures IsBlank(s) <==> (forall i :: 0 <= i < |s| ==> s[i] in Whitespace)
  {
  }

  // --------------------------------------------------------------- integers

  /** str(n) for a non-negative integer: its decimal digits, no leading zero. */
  function Show(n: nat): (s: string)
    ensures |s| >= 1 && AllDigits(s)
    ensures s[0] != '0' || n == 0
    ensures n == 0 ==> s == "0"
  {
    if n < 10 then [DigitChar(n)] else Show(n / 10) + [DigitChar(n % 10)]
  }

  /** int(s) of a string of decimal digits. */
  function ParseDigits(s: string): nat
    requires AllDigits(s)
  {
    if s == [] then 0 else ParseDigits(s[..|s| - 1]) * 10 + DigitValue(s[|s| - 1])
  }

  /** str() of any integer. */
  function IntToStr(i: int): (s: string)
    ensures |s| >= 1
  {
    if i < 0 then "-" + Show(-i) else Show(i)
  }

  /** Reading back the digits str() prints gives the number. */
  lemma {:induction false} ParseShow(n: nat)
    ensures ParseDigits(Show(n)) == n
  {
    if n >= 10 {
      var s := Show(n);
      assert s[..|s| - 1] == Show(n / 10);
      ParseShow(n / 10);
    }
  }

  /** Digits concatenate as place values. */
  lemma {:induction false} ParseAppend(a: string, b: string)
    requires AllDigits(a) && AllDigits(b)
    ensures AllDigits(a + b)
    ensures ParseDigits(a + b) == ParseDigits(a) * Pow10(|b|) + ParseDigits(b)
  {
    if b == [] {
      assert a + b == a;
    } else {
      var b' := b[..|b| - 1];
      assert (a + b)[..|a + b| - 1] == a + b';
      assert (a + b)[|a + b| - 1] == b[|b| - 1];
      ParseAppend(a, b');
      ShiftDigit(ParseDigits(a), Pow10(|b'|), ParseDigits(b'), DigitValue(b[|b| - 1]));
    }
  }

  lemma ShiftDigit(x: int, p: int, y: int, d: int)
    ensures (x * p + y) * 10 + d == x * (10 * p) + (y * 10 + d)
  {
  }

  /** A digit string below Pow10(|s|). */
  lemma {:induction false} ParseBound(s: string)
    requires AllDigits(s)
    ensures ParseDigits(s) < Pow10(|s|)
  {
    if s != [] {
      ParseBound(s[..|s| - 1]);
    }
  }

  /** A digit string without a leading zero is positive. */
  lemma {:induction false} ParsePositive(s: string)
    requires AllDigits(s) && |s| >= 1 && s[0] != '0'
    ensures ParseDigits(s) >= 1
  {
    if |s| > 1 {
      ParsePositive(s[..|s| - 1]);
    }
  }

  /** Printing the value of a canonical digit string gives the string back. */
  lemma {:induction false} ShowParse(s: string)
    requires AllDigits(s) && |s| >= 1 && (s[0] != '0' || |s| == 1)
    ensures Show(ParseDigits(s)) == s
  {
    var p := s[..|s| - 1];
    var c := s[|s| - 1];
    if |s| == 1 {
      assert s == [c];
      assert DigitChar(DigitValue(c)) == c;
    } else {
      ParsePositive(p);
      ShowParse(p);
      var n := ParseDigits(s);
      assert n / 10 == ParseDigits(p) && n % 10 == DigitValue(c);
      assert DigitChar(DigitValue(c)) == c;
      assert s == p + [c];
    }
  }

  /** The number of digits str() prints. */
  lemma {:induction false} ShowLength(n: nat, k: nat)
    requires k >= 1 && Pow10(k - 1) <= n < Pow10(k)
    ensures |Show(n)| == k
  {
    if k > 1 {
      ShowLength(n / 10, k - 1);
    }
  }

  // -------------------------------------------------------- numeric literals

  function IndexOf(s: string, c: char): (k: nat)
    ensures k <= |s|
    ensures k < |s| ==> s[k] == c
    ensures forall i :: 0 <= i < k ==> s[i] != c
  {
    if s == [] then 0 else if s[0] == c then 0 else 1 + IndexOf(s[1..], c)
  }

  /** Splits an optional leading '+' or '-' off a stripped literal. */
  function SignOf(t: string): (r: (int, string))
    ensures r.0 == 1 || r.0 == -1
    ensures |r.1| <= |t|
  {
    if |t| > 0 && t[0] == '-' then (-1, t[1..])
    else if |t| > 0 && t[0] == '+' then (1, t[1..])
    else (1, t)
  }

  /** int(s): surrounding whitespace, an optional sign, then decimal digits. */
  function PyInt(s: string): Option<int>
  {
    var (sign, body) := SignOf(Strip(s));
    if body != [] && AllDigits(body) then Some(sign * ParseDigits(body)) else None
  }

  /** The mantissa float() accepts: digits with at most one '.', and at least
      one digit on either side of it. */
  predicate IsDecimalBody(b: string)
  {
    var k := IndexOf(b, '.');
    AllDigits(b[..k]) && (k == |b| || AllDigits(b[k + 1..])) && (k >= 1 || |b| >= k + 2)
  }

  /** float(s) succeeds on s. */
  predicate IsDecimalLiteral(s: string)
  {
    IsDecimalBody(SignOf(Strip(s)).1)
  }

  /** The digits of a mantissa before its point. */
  function WholePart(b: string): string
  {
    b[..IndexOf(b, '.')]
  }

  /** The digits of a mantissa after its point ("" without a point). */
  function FractionPart(b: string): string
  {
    var k := IndexOf(b, '.');
    if k == |b| then "" else b[k + 1..]
  }

  /** The exact value of a literal float() accepts, truncated toward zero. */
  function TruncatedValue(s: string): int
    requires IsDecimalLiteral(s)
  {
    var (sign, body) := SignOf(Strip(s));
    sign * ParseDigits(WholePart(body))
  }

  /** The exact value of a mantissa as the fraction n / 10^|fraction|, n
      being its digits read without the point. */
  function Numerator(b: string): nat
    requires IsDecimalBody(b)
  {
    DigitsJoin(WholePart(b), FractionPart(b));
    ParseDigits(WholePart(b) + FractionPart(b))
  }

  /** int(float(s)) for a literal float() accepts: float() rounds the exact
      value to the nearest double and int() truncates that toward zero.
      None where the double is infinite and int() raises OverflowError.
      Rounding to nearest is symmetric about zero, so the sign is applied
      after rounding the magnitude. */
  function IntOfFloat(s: string): Option<int>
    requires IsDecimalLiteral(s)
  {
    var (sign, body) := SignOf(Strip(s));
    match TruncDouble(Numerator(body), Pow10(|FractionPart(body)|))
    case None => None
    case Some(v) => Some(sign * v)
  }

  lemma DigitsJoin(a: string, b: string)
    requires AllDigits(a) && AllDigits(b)
    ensures AllDigits(a + b)
  {
    assert forall i :: 0 <= i < |a + b| ==> (a + b)[i] == if i < |a| then a[i] else b[i - |a|];
  }

  /** The fraction n / 10^|fraction| of a mantissa lies in [w, w + 1) for w
      its whole digits' value. */
  lemma MantissaValue(b: string)
    requires IsDecimalBody(b)
    ensures var d := Pow10(|FractionPart(b)|);
      d * ParseDigits(WholePart(b)) <= Numerator(b) < d * ParseDigits(WholePart(b)) + d
  {
    var w, f := WholePart(b), FractionPart(b);
    ParseAppend(w, f);
    ParseBound(f);
    var d := Pow10(|f|);
    assert ParseDigits(w) * d == d * ParseDigits(w);
  }

  /** Where the truncated value is below 2^53 in magnitude, int(float(s))
      is the truncation or, for a literal within half a unit in the last
      place below the next integer, that next integer away from zero. */
  lemma IntOfFloatNear(s: string)
    requires IsDecimalLiteral(s)
    requires -(TwoTo53 as int) < TruncatedValue(s) < TwoTo53
    ensures var sign := SignOf(Strip(s)).0;
      IntOfFloat(s) == Some(TruncatedValue(s)) || IntOfFloat(s) == Some(TruncatedValue(s) + sign)
  {
    var body := SignOf(Strip(s)).1;
    SignedMagnitude(s);
    MantissaNear(body);
  }

  /** The truncated value is the sign times the whole digits' value. */
  lemma SignedMagnitude(s: string)
    requires IsDecimalLiteral(s)
    ensures var (sign, body) := SignOf(Strip(s));
      TruncatedValue(s) == sign * ParseDigits(WholePart(body)) &&
      (sign == 1 ==> TruncatedValue(s) == ParseDigits(WholePart(body))) &&
      (sign == -1 ==> TruncatedValue(s) + ParseDigits(WholePart(body)) == 0)
  {
  }

  /** Below 2^53 the double nearest a mantissa's value truncates to its
      whole part or to the next integer. */
  lemma MantissaNear(b: string)
    requires IsDecimalBody(b) && ParseDigits(WholePart(b)) < TwoTo53
    ensures var w := ParseDigits(WholePart(b));
      var t := TruncDouble(Numerator(b), Pow10(|FractionPart(b)|));
      t == Some(w) || t == Some(w + 1)
  {
    var w := ParseDigits(WholePart(b));
    var n, d := Numerator(b), Pow10(|FractionPart(b)|);
    MantissaValue(b);
    DivChar(n, d, w);
    BelowProduct(n, d, w, TwoTo53);
    NearTruncation(n, d);
  }

  lemma BelowProduct(n: nat, d: nat, w: nat, k: nat)
    requires n < d * w + d && w < k
    ensures n < d * k
  {
    MulMonotone(d, w + 1, k);
    assert d * (w + 1) == d * w + d;
  }

  /** A literal without a fractional part and at most 2^53 in magnitude is
      read exactly. */
  lemma IntOfFloatWhole(s: string)
    requires IsDecimalLiteral(s) && FractionPart(SignOf(Strip(s)).1) == ""
    requires -(TwoTo53 as int) <= TruncatedValue(s) <= TwoTo53
    ensures IntOfFloat(s) == Some(TruncatedValue(s))
  {
    var body := SignOf(Strip(s)).1;
    SignedMagnitude(s);
    assert WholePart(body) + "" == WholePart(body);
    ExactUpTo53(ParseDigits(WholePart(body)));
  }

  /** A literal whose truncated value reaches 2^1024 in magnitude (its
      highest set bit at MaxExponent or above) makes int(float(s)) raise
      OverflowError. */
  lemma IntOfFloatOverflow(s: string)
    requires IsDecimalLiteral(s)
    requires var w := ParseDigits(WholePart(SignOf(Strip(s)).1)); w >= 1 && Log2(w) >= MaxExponent
    ensures IntOfFloat(s) == None
  {
    var body := SignOf(Strip(s)).1;
    var w := ParseDigits(WholePart(body));
    var n, d := Numerator(body), Pow10(|FractionPart(body)|);
    MantissaValue(body);
    DivChar(n, d, w);
    Overflow(n, d);
  }

  /** s.replace(",", "."). */
  function ReplaceComma(s: string): (r: string)
    ensures |r| == |s|
    ensures ',' !in r
  {
    seq(|s|, i requires 0 <= i < |s| => if s[i] == ',' then '.' else s[i])
  }

  /** "%0Nd" % n for n >= 0 (and str(n).zfill(N)): the digits of n, padded
      on the left with zeros up to width w. */
  function PadZeros(n: nat, w: nat): (s: string)
    ensures AllDigits(s)
    ensures |s| == if |Show(n)| >= w then |Show(n)| else w
  {
    var d := Show(n);
    if |d| >= w then d else seq(w - |d|, _ => '0') + d
  }

  /** A number below 10^w prints in at most w digits. */
  lemma {:induction false} ShowShort(n: nat, w: nat)
    requires w >= 1 && n < Pow10(w)
    ensures |Show(n)| <= w
  {
    if n >= 10 {
      ShowShort(n / 10, w - 1);
    }
  }

  /** "%0Nd" of a number below 10^N is exactly N characters wide. */
  lemma PadWidth(n: nat, w: nat)
    requires w >= 1 && n < Pow10(w)
    ensures |PadZeros(n, w)| == w
  {
    ShowShort(n, w);
  }

  /** int() of a non-empty digit string is its value; of the empty string
      it raises. */
  lemma PyIntDigits(s: string)
    requires AllDigits(s)
    ensures s == [] ==> PyInt(s) == None
    ensures s != [] ==> PyInt(s) == Some(ParseDigits(s))
  {
    if s != [] {
      assert s[0] !in Whitespace && s[|s| - 1] !in Whitespace;
      TrimKeeps(s, Whitespace);
      assert SignOf(s) == (1, s);
    } else {
      assert Strip(s) == [];
    }
  }

  /** Zero padding does not change the value that the digits denote. */
  lemma {:induction false} ParsePadZeros(n: nat, w: nat)
    ensures ParseDigits(PadZeros(n, w)) == n
  {
    var d := Show(n);
    ParseShow(n);
    if |d| < w {
      var z := seq(w - |d|, _ => '0');
      assert PadZeros(n, w) == z + d;
      ZerosParse(z);
      ParseAppend(z, d);
      var zero := ParseDigits(z);
      assert zero == 0;
      assert zero * Pow10(|d|) == 0;
    }
  }

  lemma {:induction false} ZerosParse(z: string)
    requires forall i :: 0 <= i < |z| ==> z[i] == '0'
    ensures AllDigits(z) && ParseDigits(z) == 0
  {
    if z != [] {
      ZerosParse(z[..|z| - 1]);
    }
  }

  /** A stripped string whose mantissa float() accepts is a literal. */
  lemma PlainLiteral(s: string)
    requires Strip(s) == s && IsDecimalBody(SignOf(s).1)
    ensures IsDecimalLiteral(s)
  {
  }

  /** Stripping twice is stripping once. */
  lemma {:induction false} StripIdempotent(s: string)
    ensures Strip(Strip(s)) == Strip(s)
  {
    TrimKeeps(Strip(s), Whitespace);
  }

  /** The stripped text of a literal is itself a literal, already stripped
      and not blank. */
  lemma StrippedLiteral(s: string)
    requires IsDecimalLiteral(s)
    ensures var t := Strip(s); IsDecimalLiteral(t) && Strip(t) == t && !IsBlank(t)
  {
    var t := Strip(s);
    StripIdempotent(s);
    PlainLiteral(t);
    LiteralNotBlank(t);
  }

  /** A non-empty digit string is a mantissa without a point. */
  lemma DigitsBody(b: string)
    requires AllDigits(b) && |b| >= 1
    ensures IndexOf(b, '.') == |b| && b[..IndexOf(b, '.')] == b
    ensures IsDecimalBody(b)
  {
    assert b[..|b|] == b;
  }

  /** A literal float() accepts is not blank. */
  lemma LiteralNotBlank(s: string)
    requires IsDecimalLiteral(s)
    ensures Strip(s) != [] && !IsBlank(s)
  {
  }

  /** Each character of s is stripped whitespace or kept by Strip, at
      position j of the stripped text. */
  lemma StripParts(s: string, i: int) returns (j: int)
    requires 0 <= i < |s|
    ensures s[i] in Whitespace || (0 <= j < |Strip(s)| && Strip(s)[j] == s[i])
  {
    var l := TrimLeft(s, Whitespace);
    var r := TrimRight(l, Whitespace);
    assert Strip(s) == r;
    j := i - (|s| - |l|);
    if j >= 0 {
      assert l[j] == s[i];
      if j < |r| {
        assert r[j] == l[j];
      }
    }
  }

  /** A mantissa holds only digits and the point. */
  lemma BodyChars(b: string, j: int)
    requires IsDecimalBody(b) && 0 <= j < |b|
    ensures IsDigit(b[j]) || b[j] == '.'
  {
    var k := IndexOf(b, '.');
    if j < k {
      assert b[..k][j] == b[j];
    } else if j > k {
      assert b[k + 1..][j - k - 1] == b[j];
    }
  }

  /** A literal float() accepts contains no comma. */
  lemma LiteralHasNoComma(s: string)
    requires IsDecimalLiteral(s)
    ensures ',' !in s
  {
    if ',' in s {
      var i :| 0 <= i < |s| && s[i] == ',';
      var j := StripParts(s, i);
      assert ',' !in Whitespace;
      var t := Strip(s);
      assert t[j] == ',';
      var b := SignOf(t).1;
      if t[0] == '-' || t[0] == '+' {
        assert j >= 1 && b[j - 1] == t[j];
        BodyChars(b, j - 1);
      } else {
        assert b == t;
        BodyChars(b, j);
      }
    }
  }

  /** Replacing commas in text without one changes nothing. */
  lemma ReplaceCommaKeeps(s: string)
    requires ',' !in s
    ensures ReplaceComma(s) == s
  {
    assert forall i :: 0 <= i < |s| ==> ReplaceComma(s)[i] == s[i];
  }

  /** A printed integer contains no whitespace and no list separator. */
  lemma {:induction false} IntToStrChars(i: int)
    ensures forall k :: 0 <= k < |IntToStr(i)| ==> IsDigit(IntToStr(i)[k]) || IntToStr(i)[k] == '-'
  {
  }
}
