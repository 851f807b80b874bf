/** The list cell type of the test-series editor: a cell holds several
    values of an item type, separated by "," or ";" and optional
    whitespace, and prints them joined by "; ". */
module VecCellTypes {
  import opened Outcomes
  import opened Text
  import opened CellTypes
  import opened Doubles

  /** The declared minimum and maximum item counts are accepted by the
      constructor but never stored, so the type is just its item type. */
  datatype VecType = VecType(item: CellType)

  /** Equality of list types is by class alone: any two are equal. */
  predicate SameVecType(a: VecType, b: VecType)
  {
    true
  }

  predicate IsSeparator(c: char)
  {
    c == ',' || c == ';'
  }

  predicate NoSeparator(s: string)
  {
    forall i :: 0 <= i < |s| ==> !IsSeparator(s[i])
  }

  /** The index of the first "," or ";" in s, |s| when there is none. */
  function SeparatorIndex(s: string): (k: nat)
    ensures k <= |s|
    ensures k < |s| ==> IsSeparator(s[k])
    ensures NoSeparator(s[..k])
  {
    if s == [] then 0
    else if IsSeparator(s[0]) then 0
    else
      var k := 1 + SeparatorIndex(s[1..]);
      assert s[..k] == [s[0]] + s[1..][..k - 1];
      k
  }

  /** re.split("[,;]\s*", s): the pieces between separators, each separator
      swallowing the whitespace that follows it. */
  function SplitItems(s: string): (items: seq<string>)
    ensures |items| >= 1
    ensures forall i :: 0 <= i < |items| ==> NoSeparator(items[i])
    ensures NoSeparator(s) ==> items == [s]
    decreases |s|
  {
    var k := SeparatorIndex(s);
    if k == |s| then assert s[..k] == s; [s]
    else [s[..k]] + SplitItems(TrimLeft(s[k + 1..], Whitespace))
  }

  /** sep.join(parts). */
  function Join(parts: seq<string>, sep: string): string
  {
    if |parts| == 0 then ""
    else if |parts| == 1 then parts[0]
    else parts[0] + sep + Join(parts[1..], sep)
  }

  /** Every item satisfies p, checked from the last item back. */
  predicate Every(p: string -> bool, items: seq<string>)
  {
    items == [] || (Every(p, items[..|items| - 1]) && p(items[|items| - 1]))
  }

  /** Every is the plain "for every item" statement. */
  lemma {:induction false} EveryItem(p: string -> bool, items: seq<string>)
    ensures Every(p, items) <==> forall i :: 0 <= i < |items| ==> p(items[i])
  {
    if items != [] {
      var init := items[..|items| - 1];
      EveryItem(p, init);
      assert forall i :: 0 <= i < |init| ==> init[i] == items[i];
    }
  }

  /** Every item of the stripped text passes the item type's test. */
  predicate AllItemsPass(t: VecType, value: string)
  {
    Every(s => TestRepr(t.item, s), SplitItems(Strip(value)))
  }

  /** test_repr: stops at the first item the item type refuses. */
  method VecTestRepr(t: VecType, value: string) returns (ok: bool)
    ensures ok == AllItemsPass(t, value)
  {
    var pass := s => TestRepr(t.item, s);
    var items := SplitItems(Strip(value));
    var i := 0;
    while i < |items|
      invariant 0 <= i <= |items|
      invariant Every(pass, items[..i])
    {
      if !pass(items[i]) {
        EveryItem(pass, items);
        return false;
      }
      assert items[..i + 1][..i] == items[..i];
      i := i + 1;
    }
    assert items[..i] == items;
    return true;
  }

  /** The values to_string is called with: None, or a list of values the
      item type prints. */
  predicate FitsAll(t: VecType, value: Option<seq<Value>>)
  {
    value.Some? ==> forall i :: 0 <= i < |value.value| ==> Fits(t.item, value.value[i])
  }

  /** The item strings of a list of values. */
  function ItemStrings(item: CellType, vs: seq<Value>): (r: seq<string>)
    requires forall i :: 0 <= i < |vs| ==> Fits(item, vs[i])
    ensures |r| == |vs|
    ensures forall i :: 0 <= i < |vs| ==> r[i] == ToString(item, vs[i])
  {
    if vs == [] then [] else [ToString(item, vs[0])] + ItemStrings(item, vs[1..])
  }

  /** to_string: "" for None, otherwise the items joined by "; ". */
  function VecToString(t: VecType, value: Option<seq<Value>>): (r: string)
    requires FitsAll(t, value)
    ensures value.Some? && |value.value| == 1 ==> r == ToString(t.item, value.value[0])
  {
    if value.None? then "" else Join(ItemStrings(t.item, value.value), "; ")
  }

  /** Parses items left to right with f; the first failure is the
      result (stated from the last item back). */
  function ParseEach(f: string -> Result<Value, ParseError>, items: seq<string>): (r: Result<seq<Value>, ParseError>)
    ensures r.Ok? ==> |r.value| == |items|
  {
    if items == [] then Ok([])
    else match ParseEach(f, items[..|items| - 1])
      case Err(e) => Err(e)
      case Ok(vs) =>
        match f(items[|items| - 1])
        case Err(e) => Err(e)
        case Ok(v) => Ok(vs + [v])
  }

  /** When every item parses, the result lists the parsed items in order;
      otherwise it is the failure of the first item that does not. */
  lemma {:induction false} ParseEachItems(f: string -> Result<Value, ParseError>, items: seq<string>)
    ensures ParseEach(f, items).Ok? <==> forall i :: 0 <= i < |items| ==> f(items[i]).Ok?
    ensures ParseEach(f, items).Ok? ==> forall i :: 0 <= i < |items| ==> ParseEach(f, items).value[i] == f(items[i]).value
    ensures ParseEach(f, items).Err? ==>
      exists k :: 0 <= k < |items| && f(items[k]).Err? && ParseEach(f, items).error == f(items[k]).error &&
        (forall i :: 0 <= i < k ==> f(items[i]).Ok?)
  {
    if items != [] {
      var init := items[..|items| - 1];
      ParseEachItems(f, init);
      assert forall i :: 0 <= i < |init| ==> init[i] == items[i];
    }
  }

  /** A failure in a prefix is the failure of the whole list. */
  lemma {:induction false} ParseEachErrPrefix(f: string -> Result<Value, ParseError>, items: seq<string>, k: nat)
    requires k <= |items| && ParseEach(f, items[..k]).Err?
    ensures ParseEach(f, items) == ParseEach(f, items[..k])
    decreases |items| - k
  {
    if k < |items| {
      assert items[..k + 1][..k] == items[..k];
      ParseEachErrPrefix(f, items, k + 1);
    } else {
      assert items[..k] == items;
    }
  }

  /** What from_string produces: [] for blank text, otherwise each piece of
      the stripped text parsed by the item type, in order. */
  function ParseAll(t: VecType, value: string): Result<seq<Value>, ParseError>
  {
    if IsBlank(value) then Ok([]) else ParseEach(s => FromString(t.item, s), SplitItems(Strip(value)))
  }

  /** from_string: appends the parsed items one by one; a piece the item
      type refuses raises (Err). */
  method VecFromString(t: VecType, value: string) returns (r: Result<seq<Value>, ParseError>)
    ensures r == ParseAll(t, value)
  {
    var parse := s => FromString(t.item, s);
    var s := Strip(value);
    if s == "" {
      return Ok([]);
    }
    var items := SplitItems(s);
    var values: seq<Value> := [];
    var i := 0;
    while i < |items|
      invariant 0 <= i <= |items|
      invariant ParseEach(parse, items[..i]) == Ok(values)
    {
      assert items[..i + 1][..i] == items[..i];
      match parse(items[i])
      case Err(e) =>
        ParseEachErrPrefix(parse, items, i + 1);
        return Err(e);
      case Ok(v) =>
        values := values + [v];
      i := i + 1;
    }
    assert items[..i] == items;
    r := Ok(values);
  }

  /** None prints as "", and blank text (after stripping) parses to the
      empty list whatever the item type. */
  lemma VecNullHandling(t: VecType, value: string)
    ensures VecToString(t, None) == ""
    ensures IsBlank(value) ==> ParseAll(t, value) == Ok([])
    ensures !IsBlank(value) ==> ParseAll(t, value).Ok? ==> |ParseAll(t, value).value| == |SplitItems(Strip(value))|
  {
  }

  // ------------------------------------------------------------ round trips

  /** Text with no separator is one piece. */
  lemma NoSeparatorIndex(s: string)
    requires NoSeparator(s)
    ensures SeparatorIndex(s) == |s|
  {
  }

  lemma TrimLeftKeeps(s: string, cs: set<char>)
    requires s == [] || s[0] !in cs
    ensures TrimLeft(s, cs) == s
  {
  }

  /** The pieces "; " joins back after the first may not start with
      whitespace, which the splitter would swallow. */
  predicate Splittable(items: seq<string>)
  {
    |items| >= 1 &&
    (forall i :: 0 <= i < |items| ==> NoSeparator(items[i])) &&
    (forall i :: 1 <= i < |items| ==> items[i] == [] || items[i][0] !in Whitespace)
  }

  /** A join starts with its first piece, or with the separator when that
      piece is empty. */
  lemma JoinHead(items: seq<string>)
    requires |items| >= 2
    ensures Join(items, "; ") == items[0] + "; " + Join(items[1..], "; ")
  {
  }

  /** The first separator of a + "; " + rest is the one after a. */
  lemma FirstSeparator(a: string, rest: string)
    requires NoSeparator(a)
    ensures SeparatorIndex(a + "; " + rest) == |a|
  {
    var s := a + "; " + rest;
    var k := SeparatorIndex(s);
    assert forall i :: 0 <= i < k ==> s[..k][i] == s[i];
    assert IsSeparator(s[|a|]);
    assert forall i :: 0 <= i < |a| ==> s[i] == a[i];
  }

  /** A join of splittable pieces does not start with whitespace. */
  lemma JoinStart(items: seq<string>)
    requires |items| >= 1 && (items[0] == [] || items[0][0] !in Whitespace)
    ensures var s := Join(items, "; "); s == [] || s[0] !in Whitespace
  {
    if |items| >= 2 {
      JoinHead(items);
      var s := Join(items, "; ");
      if items[0] == [] {
        assert s[0] == ';';
      } else {
        assert s[0] == items[0][0];
      }
    }
  }

  /** The pieces after the first of splittable pieces are splittable. */
  lemma SplittableTail(items: seq<string>)
    requires Splittable(items) && |items| >= 2
    ensures Splittable(items[1..])
    ensures items[1] == [] || items[1][0] !in Whitespace
  {
    var tail := items[1..];
    forall i | 1 <= i < |tail|
      ensures tail[i] == [] || tail[i][0] !in Whitespace
    {
      assert tail[i] == items[i + 1];
    }
  }

  /** Splitting undoes joining with "; ". */
  lemma {:induction false} SplitJoin(items: seq<string>)
    requires Splittable(items)
    ensures SplitItems(Join(items, "; ")) == items
    decreases |items|
  {
    if |items| == 1 {
      NoSeparatorIndex(items[0]);
    } else {
      var a, tail := items[0], items[1..];
      var rest := Join(tail, "; ");
      var s := Join(items, "; ");
      JoinHead(items);
      FirstSeparator(a, rest);
      SplittableTail(items);
      JoinStart(tail);
      assert s[|a| + 1..] == " " + rest;
      TrimLeftKeeps(rest, Whitespace);
      assert TrimLeft(s[|a| + 1..], Whitespace) == rest;
      SplitJoin(tail);
      assert s[..|a|] == a;
    }
  }

  /** The last character of a join is the last character of its last piece. */
  lemma {:induction false} JoinLast(items: seq<string>)
    requires |items| >= 1 && items[|items| - 1] != []
    ensures var s := Join(items, "; "); |s| >= 1 && s[|s| - 1] == items[|items| - 1][|items[|items| - 1]| - 1]
    decreases |items|
  {
    if |items| >= 2 {
      JoinHead(items);
      JoinLast(items[1..]);
    }
  }

  /** The text of an integer has no separator and no whitespace. */
  lemma IntTextPlain(i: int)
    ensures NoSeparator(IntToStr(i))
    ensures IntToStr(i)[0] !in Whitespace && IntToStr(i)[|IntToStr(i)| - 1] !in Whitespace
  {
    IntToStrChars(i);
  }

  /** A list of integers a double holds exactly, printed by to_string,
      reads back by from_string (the empty list prints "" and reads back
      as []). */
  lemma NumberVecRoundTrip(vs: seq<int>)
    requires forall k :: 0 <= k < |vs| ==> -(TwoTo53 as int) <= vs[k] <= TwoTo53
    ensures var values := seq(|vs|, k requires 0 <= k < |vs| => Int(vs[k]));
      FitsAll(VecType(NumberType), Some(values)) &&
      ParseAll(VecType(NumberType), VecToString(VecType(NumberType), Some(values))) == Ok(values)
  {
    var t := VecType(NumberType);
    var values := seq(|vs|, k requires 0 <= k < |vs| => Int(vs[k]));
    var strs := ItemStrings(NumberType, values);
    var text := Join(strs, "; ");
    assert VecToString(t, Some(values)) == text;
    if vs != [] {
      forall k | 0 <= k < |strs|
        ensures strs[k] == IntToStr(vs[k]) && NoSeparator(strs[k])
        ensures strs[k] != [] && strs[k][0] !in Whitespace && strs[k][|strs[k]| - 1] !in Whitespace
      {
        IntTextPlain(vs[k]);
      }
      assert Splittable(strs);
      SplitJoin(strs);
      JoinedPlain(strs);
      NumberItemsParse(vs, strs);
    }
  }

  /** Items that start and end with a visible character join into a text
      that strip leaves alone and that is not blank. */
  lemma JoinedPlain(strs: seq<string>)
    requires |strs| >= 1
    requires forall k :: 0 <= k < |strs| ==> strs[k] != [] && strs[k][0] !in Whitespace && strs[k][|strs[k]| - 1] !in Whitespace
    ensures Strip(Join(strs, "; ")) == Join(strs, "; ") && !IsBlank(Join(strs, "; "))
  {
    var text := Join(strs, "; ");
    if |strs| >= 2 {
      JoinHead(strs);
    }
    assert text[0] == strs[0][0];
    JoinLast(strs);
    TrimKeeps(text, Whitespace);
  }

  /** Each printed integer parses back to itself. */
  lemma NumberItemsParse(vs: seq<int>, strs: seq<string>)
    requires |strs| == |vs| && forall k :: 0 <= k < |vs| ==> strs[k] == IntToStr(vs[k])
    requires forall k :: 0 <= k < |vs| ==> -(TwoTo53 as int) <= vs[k] <= TwoTo53
    ensures ParseEach(s => FromString(NumberType, s), strs) == Ok(seq(|vs|, k requires 0 <= k < |vs| => Int(vs[k])))
  {
    var f := s => FromString(NumberType, s);
    var values := seq(|vs|, k requires 0 <= k < |vs| => Int(vs[k]));
    forall k | 0 <= k < |vs|
      ensures f(strs[k]) == Ok(values[k])
    {
      NumberRoundTrip(vs[k]);
    }
    ParseEachAllOk(f, strs, values);
  }

  /** Items that all parse give the list of their values. */
  lemma {:induction false} ParseEachAllOk(f: string -> Result<Value, ParseError>, items: seq<string>, values: seq<Value>)
    requires |values| == |items| && forall k :: 0 <= k < |items| ==> f(items[k]) == Ok(values[k])
    ensures ParseEach(f, items) == Ok(values)
  {
    if items != [] {
      var n := |items| - 1;
      ParseEachAllOk(f, items[..n], values[..n]);
      assert values == values[..n] + [values[n]];
    }
  }
}
