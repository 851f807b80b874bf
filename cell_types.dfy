/** The per-column value types of the grid (StringCellType, FloatCellType,
    NumberCellType) and the Column schema entry. A cell holds text; a type
    says which texts are valid (TestRepr), how text parses to a value
    (FromString) and how a value prints (ToString). */
module CellTypes {
  import opened Outcomes
  import opened Text
  import opened Doubles

  /** The precision of FloatType and the multiline flag of StringType only
      affect rendering and editing widgets. */
  datatype CellType = StringType(multiline: bool) | FloatType(prec: int) | NumberType

  /** The Python values a cell parses to: None, a str, a float (kept as the
      accepted literal text, comma read as dot), an int. */
  datatype Value = Null | Str(s: string) | Float(literal: string) | Int(i: int)

  /** The exceptions from_string lets through: float() refusing the text,
      and int() refusing the infinity float() rounded the text to. */
  datatype ParseError = ValueError(input: string) | OverflowError(input: string)

  /** Cell-type equality: the concrete class only, parameters ignored. */
  predicate SameCellType(a: CellType, b: CellType)
  {
    (a.StringType? && b.StringType?) || (a.FloatType? && b.FloatType?) || (a.NumberType? && b.NumberType?)
  }

  /** test_repr: may the text be stored in a cell of this type? */
  predicate TestRepr(t: CellType, s: string)
    ensures !t.StringType? && TestRepr(t, s) ==> !IsBlank(s)
  {
    BlankRefused(s);
    match t
    case StringType(_) => true
    case FloatType(_) => IsDecimalLiteral(s) || IsDecimalLiteral(ReplaceComma(s))
    case NumberType => PyInt(s).Some? || IsDecimalLiteral(ReplaceComma(s))
  }

  /** Blank text is no literal for float() and no integer for int(). */
  lemma BlankRefused(s: string)
    ensures IsBlank(s) ==> !IsDecimalLiteral(s) && !IsDecimalLiteral(ReplaceComma(s)) && PyInt(s).None?
  {
    if IsBlank(s) {
      BlankIsAllSpace(s);
      assert ',' !in s by {
        assert ',' !in Whitespace;
      }
      ReplaceCommaKeeps(s);
    }
  }

  /** The values to_string is called with for each type. */
  predicate Fits(t: CellType, v: Value)
  {
    match t
    case StringType(_) => v.Str?
    case FloatType(_) => v.Null? || v.Float?
    case NumberType => v.Null? || v.Int?
  }

  /** to_string. */
  function ToString(t: CellType, v: Value): (r: string)
    requires Fits(t, v)
    ensures t.NumberType? ==> r != ""
    ensures t.StringType? ==> (r == "" <==> IsBlank(v.s))
  {
    match t
    case StringType(_) => if IsBlank(v.s) then "" else v.s
    case FloatType(_) => if v.Null? then "" else v.literal
    case NumberType => if v.Null? then "0" else IntToStr(v.i)
  }

  /** from_string; Err stands for the exception raised. The number type
      converts with int(float(s)) and, unlike test_repr, does not first
      replace a decimal comma. */
  function FromString(t: CellType, s: string): (r: Result<Value, ParseError>)
    ensures r.Ok? ==> Fits(t, r.value)
  {
    match t
    case StringType(_) => Ok(Str(s))
    case FloatType(_) =>
      if IsBlank(s) then Ok(Null)
      else if IsDecimalLiteral(s) then Ok(Float(Strip(s)))
      else if IsDecimalLiteral(ReplaceComma(s)) then Ok(Float(Strip(ReplaceComma(s))))
      else Err(ValueError(s))
    case NumberType =>
      if IsBlank(s) then Ok(Null)
      else if IsDecimalLiteral(s) then
        match IntOfFloat(s)
        case Some(i) => Ok(Int(i))
        case None => Err(OverflowError(s))
      else Err(ValueError(s))
  }

  /** Blank text parses to null in the float and number types, and null
      prints as "" for floats but as "0" for numbers. */
  lemma NullHandling(s: string, prec: int)
    ensures IsBlank(s) ==> FromString(FloatType(prec), s) == Ok(Null)
    ensures IsBlank(s) ==> FromString(NumberType, s) == Ok(Null)
    ensures ToString(FloatType(prec), Null) == ""
    ensures ToString(NumberType, Null) == "0"
  {
  }

  /** A literal the number type parses becomes int(float(s)): when the
      truncation is below 2^53 in magnitude, the result is the truncation
      or the next integer away from zero (which of the two is not stated
      here); from 2^1024 on, int() raises OverflowError. */
  lemma NumberParses(s: string)
    requires IsDecimalLiteral(s)
    ensures -(TwoTo53 as int) < TruncatedValue(s) < TwoTo53 ==>
      var sign := SignOf(Strip(s)).0;
      FromString(NumberType, s) == Ok(Int(TruncatedValue(s))) ||
      FromString(NumberType, s) == Ok(Int(TruncatedValue(s) + sign))
    ensures var w := ParseDigits(WholePart(SignOf(Strip(s)).1));
      w >= 1 && Log2(w) >= MaxExponent ==> FromString(NumberType, s) == Err(OverflowError(s))
  {
    if -(TwoTo53 as int) < TruncatedValue(s) < TwoTo53 {
      NumberNear(s);
    }
    var w := ParseDigits(WholePart(SignOf(Strip(s)).1));
    if w >= 1 && Log2(w) >= MaxExponent {
      NumberOverflows(s);
    }
  }

  lemma NumberNear(s: string)
    requires IsDecimalLiteral(s) && -(TwoTo53 as int) < TruncatedValue(s) < TwoTo53
    ensures var sign := SignOf(Strip(s)).0;
      FromString(NumberType, s) == Ok(Int(TruncatedValue(s))) ||
      FromString(NumberType, s) == Ok(Int(TruncatedValue(s) + sign))
  {
    LiteralNotBlank(s);
    IntOfFloatNear(s);
  }

  lemma NumberOverflows(s: string)
    requires IsDecimalLiteral(s)
    requires var w := ParseDigits(WholePart(SignOf(Strip(s)).1)); w >= 1 && Log2(w) >= MaxExponent
    ensures FromString(NumberType, s) == Err(OverflowError(s))
  {
    LiteralNotBlank(s);
    IntOfFloatOverflow(s);
  }

  /** 2.9999999999999999 lies nearer to 3.0 than to any other double, so
      the number type reads it as 3, not as its truncation 2. */
  lemma NumberRoundsUp()
    ensures FromString(NumberType, "2.9999999999999999") == Ok(Int(3))
  {
    NearThreeLiteral();
    NearThreeReads();
    NumberReads("2.9999999999999999", 3);
  }

  /** A literal from_string reads with int(float()) into the integer i. */
  lemma NumberReads(s: string, i: int)
    requires IsDecimalLiteral(s) && !IsBlank(s) && IntOfFloat(s) == Some(i)
    ensures FromString(NumberType, s) == Ok(Int(i))
  {
  }

  /** int(float()) of the literal is 3. */
  lemma NearThreeReads()
    requires IsDecimalLiteral("2.9999999999999999")
    requires SignOf(Strip("2.9999999999999999")) == (1, "2.9999999999999999")
    requires WholePart("2.9999999999999999") == "2" && FractionPart("2.9999999999999999") == Nines(16)
    ensures IntOfFloat("2.9999999999999999") == Some(3)
  {
    NearThreeValue();
    RoundsUpToThree();
  }

  /** The literal's exact value as a fraction of integers. */
  lemma NearThreeValue()
    requires WholePart("2.9999999999999999") == "2" && FractionPart("2.9999999999999999") == Nines(16)
    requires IsDecimalBody("2.9999999999999999")
    ensures Numerator("2.9999999999999999") == 29999999999999999
    ensures Pow10(|FractionPart("2.9999999999999999")|) == 10000000000000000
  {
    NinesParse(16);
    ParseAppend("2", Nines(16));
    Pow10Sixteen();
  }

  /** The literal's parts: no sign, whole part "2", sixteen nines after
      the point. */
  lemma NearThreeLiteral()
    ensures var s := "2.9999999999999999";
      IsDecimalLiteral(s) && !IsBlank(s) && SignOf(Strip(s)) == (1, s) &&
      WholePart(s) == "2" && FractionPart(s) == Nines(16)
  {
    NearThreeStripped();
    NearThreeParts();
    NinesParse(16);
    LiteralFromParts("2.9999999999999999");
  }

  /** Unsigned, stripped text with digits on both sides of a point is a
      literal float() accepts. */
  lemma LiteralFromParts(s: string)
    requires Strip(s) == s && SignOf(s) == (1, s)
    requires IndexOf(s, '.') < |s| && AllDigits(WholePart(s)) && AllDigits(FractionPart(s))
    requires |FractionPart(s)| >= 1
    ensures IsDecimalLiteral(s) && !IsBlank(s)
  {
    PlainLiteral(s);
    LiteralNotBlank(s);
  }

  lemma NearThreeStripped()
    ensures var s := "2.9999999999999999"; Strip(s) == s && SignOf(s) == (1, s)
  {
    var s := "2.9999999999999999";
    TrimKeeps(s, Whitespace);
  }

  lemma NearThreeParts()
    ensures var s := "2.9999999999999999";
      IndexOf(s, '.') == 1 && WholePart(s) == "2" && FractionPart(s) == Nines(16)
  {
    var s := "2.9999999999999999";
    assert IndexOf(s, '.') == 1 by {
      assert s[0] == '2' && s[1] == '.';
    }
    assert s[..1] == "2";
    assert s[2..] == Nines(16);
  }

  function Nines(k: nat): string
  {
    seq(k, _ => '9')
  }

  lemma {:induction false} NinesParse(k: nat)
    ensures AllDigits(Nines(k)) && ParseDigits(Nines(k)) == Pow10(k) - 1
  {
    if k > 0 {
      NinesParse(k - 1);
      assert Nines(k)[..k - 1] == Nines(k - 1);
    }
  }

  lemma Pow10Sixteen()
    ensures Pow10(16) == 10000000000000000
  {
    assert Pow10(4) == 10000;
    assert Pow10(8) == 100000000 by {
      Pow10Add(4, 4);
    }
    Pow10Add(8, 8);
  }

  lemma {:induction false} Pow10Add(a: nat, b: nat)
    ensures Pow10(a + b) == Pow10(a) * Pow10(b)
  {
    if b > 0 {
      Pow10Add(a, b - 1);
      assert Pow10(a + b) == 10 * Pow10(a + b - 1);
    }
  }

  /** The digits of a printed integer, after its sign. */
  lemma IntToStrParts(i: int)
    ensures Strip(IntToStr(i)) == IntToStr(i)
    ensures SignOf(IntToStr(i)) == (if i < 0 then (-1, Show(-i)) else (1, Show(i)))
  {
    StripIntToStr(i);
    SignOfIntToStr(i);
  }

  lemma StripIntToStr(i: int)
    ensures Strip(IntToStr(i)) == IntToStr(i)
  {
    var s := IntToStr(i);
    assert s[0] !in Whitespace && s[|s| - 1] !in Whitespace;
    TrimKeeps(s, Whitespace);
  }

  lemma SignOfIntToStr(i: int)
    ensures SignOf(IntToStr(i)) == (if i < 0 then (-1, Show(-i)) else (1, Show(i)))
  {
    var s := IntToStr(i);
    if i < 0 {
      assert s[0] == '-' && s[1..] == Show(-i);
    } else {
      assert IsDigit(s[0]);
    }
  }

  /** Because of that asymmetry a blank number cell reads back as 0. */
  lemma NumberNullReadsBackAsZero()
    ensures FromString(NumberType, ToString(NumberType, Null)) == Ok(Int(0))
  {
    NumberRoundTrip(0);
  }

  /** The string type accepts every text, keeps it as it is, and prints
      whitespace-only text as the empty string. */
  lemma StringTypeTotal(s: string, multiline: bool)
    ensures TestRepr(StringType(multiline), s)
    ensures FromString(StringType(multiline), s) == Ok(Str(s))
    ensures ToString(StringType(multiline), Str(s)) == (if IsBlank(s) then "" else s)
    ensures ToString(StringType(multiline), Str(s)) == "" <==> IsBlank(s)
  {
  }

  /** A number cell's text parses back to the integer it printed, for
      every integer a double holds exactly (magnitude up to 2^53). */
  lemma NumberRoundTrip(i: int)
    requires -(TwoTo53 as int) <= i <= TwoTo53
    ensures FromString(NumberType, ToString(NumberType, Int(i))) == Ok(Int(i))
  {
    var s := ToString(NumberType, Int(i));
    assert s == IntToStr(i);
    IntLiteral(i);
    LiteralNotBlank(s);
    IntOfFloatWhole(s);
  }

  /** Past 2^53 the round trip fails: 2^53 + 1 prints as its digits, and
      float() rounds those to 2^53. */
  lemma NumberRoundTripLimit()
    ensures FromString(NumberType, ToString(NumberType, Int(TwoTo53 + 1))) == Ok(Int(TwoTo53))
  {
    FirstInexact();
    PositiveReadsRounded(TwoTo53 + 1, TwoTo53);
  }

  /** A printed positive integer reads back as the double it rounds to. */
  lemma PositiveReadsRounded(i: int, v: int)
    requires i > 0 && TruncDouble(i, 1) == Some(v)
    ensures FromString(NumberType, ToString(NumberType, Int(i))) == Ok(Int(v))
  {
    var s := IntToStr(i);
    IntLiteral(i);
    LiteralNotBlank(s);
    var body := SignOf(Strip(s)).1;
    assert Numerator(body) == i by {
      assert WholePart(body) + "" == WholePart(body);
    }
  }

  /** From 2^1024 on, the number type's test_repr accepts the printed
      integer (int() reads it) while from_string raises OverflowError. */
  lemma NumberOverflow(i: int)
    requires i != 0 && Log2(if i < 0 then -i else i) >= MaxExponent
    ensures TestRepr(NumberType, ToString(NumberType, Int(i)))
    ensures FromString(NumberType, ToString(NumberType, Int(i))) == Err(OverflowError(IntToStr(i)))
  {
    var s := IntToStr(i);
    IntLiteral(i);
    LiteralNotBlank(s);
    IntOfFloatOverflow(s);
    PrintedIntReads(i);
  }

  /** int() reads back the text str() prints for an integer. */
  lemma PrintedIntReads(i: int)
    ensures PyInt(IntToStr(i)) == Some(i)
  {
    IntToStrParts(i);
    ParseShow(if i < 0 then -i else i);
  }

  /** The text str() prints for an integer is a literal float() accepts,
      without a fractional part, whose whole digits are the magnitude and
      whose truncation is the integer. */
  lemma IntLiteral(i: int)
    ensures IsDecimalLiteral(IntToStr(i))
    ensures var body := SignOf(Strip(IntToStr(i))).1;
      FractionPart(body) == "" && ParseDigits(WholePart(body)) == (if i < 0 then -i else i)
    ensures TruncatedValue(IntToStr(i)) == i
  {
    var s := IntToStr(i);
    var d := if i < 0 then -i else i;
    IntToStrParts(i);
    var body := SignOf(s).1;
    assert body == Show(d);
    assert IsDecimalBody(body) && WholePart(body) == body && FractionPart(body) == "" by {
      DigitsBody(body);
    }
    PlainLiteral(s);
    assert ParseDigits(body) == d by {
      ParseShow(d);
    }
  }

  /** A comma decimal passes the number type's test_repr but is refused by
      its from_string, which does not replace the comma. */
  lemma NumberCommaQuirk()
    ensures TestRepr(NumberType, "1,5")
    ensures FromString(NumberType, "1,5").Err?
  {
    CommaIsNoLiteral();
    PointIsLiteral();
    CommaReplaced();
    CommaNotBlank();
  }

  lemma PointIsLiteral()
    ensures IsDecimalLiteral("1.5")
  {
    var s := "1.5";
    assert Strip(s) == s by {
      TrimKeeps(s, Whitespace);
    }
    assert SignOf(s).1 == s;
    PointBody();
  }

  lemma PointBody()
    ensures IsDecimalBody("1.5")
  {
    var s := "1.5";
    assert IndexOf(s, '.') == 1 by { assert s[0] == '1' && s[1] == '.'; }
    assert s[..1] == "1" && s[2..] == "5";
  }

  lemma CommaIsNoLiteral()
    ensures !IsDecimalLiteral("1,5")
  {
    var s := "1,5";
    if IsDecimalLiteral(s) {
      LiteralHasNoComma(s);
      assert false;
    }
  }

  lemma CommaNotBlank()
    ensures !IsBlank("1,5")
  {
    TrimKeeps("1,5", Whitespace);
  }

  lemma CommaReplaced()
    ensures ReplaceComma("1,5") == "1.5"
  {
    var r := ReplaceComma("1,5");
    assert r[0] == '1' && r[1] == '.' && r[2] == '5';
  }

  /** For non-blank text, the float type's test_repr holds exactly when
      from_string succeeds. */
  lemma FloatTestMatchesParse(s: string, prec: int)
    requires !IsBlank(s)
    ensures TestRepr(FloatType(prec), s) <==> FromString(FloatType(prec), s).Ok?
  {
  }

  /** Text the number type parses is text its test_repr accepts; the
      converse fails only for a decimal comma (NumberCommaQuirk). */
  lemma NumberParseImpliesTest(s: string)
    requires FromString(NumberType, s).Ok? && !IsBlank(s)
    ensures TestRepr(NumberType, s)
  {
    LiteralHasNoComma(s);
    ReplaceCommaKeeps(s);
  }

  /** Every value the float type parses prints to text that parses back to
      the same value. */
  lemma FloatRoundTrip(s: string, prec: int, v: Value)
    requires FromString(FloatType(prec), s) == Ok(v)
    ensures FromString(FloatType(prec), ToString(FloatType(prec), v)) == Ok(v)
  {
    if v.Float? {
      var src := if IsDecimalLiteral(s) then s else ReplaceComma(s);
      assert IsDecimalLiteral(src) && v.literal == Strip(src);
      StrippedLiteral(src);
      FloatLiteralParses(v.literal, prec);
    } else {
      assert v == Null && ToString(FloatType(prec), v) == "";
      assert IsBlank("") by { assert |Strip("")| <= 0; }
    }
  }

  /** A stripped literal parses to itself as a float. */
  lemma FloatLiteralParses(lit: string, prec: int)
    requires IsDecimalLiteral(lit) && Strip(lit) == lit && !IsBlank(lit)
    ensures FromString(FloatType(prec), lit) == Ok(Float(lit))
  {
  }

  /** Column schema entry; init_width -1 means "no stored width". */
  datatype Column = Column(id: string, cellType: CellType, nameShort: string, nameLong: Option<string>,
                           initWidth: int, optional: bool)

  /** Column.__eq__: columns are the same column when their ids agree. */
  predicate SameColumn(a: Column, b: Column) { a.id == b.id }

  /** Column identity ignores type, labels, width and optionality, and is an
      equivalence. */
  lemma SameColumnById(a: Column, b: Column, c: Column)
    ensures SameColumn(a, b) <==> a.id == b.id
    ensures SameColumn(a, a)
    ensures SameColumn(a, b) ==> SameColumn(b, a)
    ensures SameColumn(a, b) && SameColumn(b, c) ==> SameColumn(a, c)
  {
  }

  /** Cell-type equality ignores the float precision. */
  lemma FloatPrecisionIgnored(p: int, q: int)
    ensures SameCellType(FloatType(p), FloatType(q))
  {
  }
}
