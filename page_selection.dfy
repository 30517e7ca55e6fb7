/**
 * The page specification of splitPdf ("1,3-5,7"): parsing it into page
 * numbers, the fall-back to every page, the choice between split and extract
 * mode, and the bounds test each number must pass before it is used.
 */
module PageSelection {
  import opened PhpStrings

  /** The numbers a, a+1, ..., b; nothing when b < a. */
  function Range(a: int, b: int): seq<int> {
    if b < a then [] else seq(b - a + 1, k => a + k)
  }

  /** What `for ($i = a; $i <= b; $i++)` appends, one step at a time. */
  lemma RangeSnoc(a: int, b: int)
    requires a <= b
    ensures Range(a, b) == Range(a, b - 1) + [b]
  {
  }

  /**
   * The numbers one comma-separated token contributes. A token holding a dash
   * is read as `list($start, $end) = explode('-', $part)`, so only its first
   * two pieces matter; any other token is one cast number.
   */
  function TokenPages(token: string): seq<int> {
    if '-' in token then
      var bounds := Explode('-', token);
      Range(IntCast(bounds[0]), IntCast(bounds[1]))
    else
      [IntCast(token)]
  }

  /** The contribution of each token, in token order. */
  function Expand(tokens: seq<string>): (chunks: seq<seq<int>>)
    ensures |chunks| == |tokens|
  {
    if tokens == [] then [] else Expand(tokens[..|tokens| - 1]) + [TokenPages(tokens[|tokens| - 1])]
  }

  /** The chunks joined left to right. */
  function Flatten(chunks: seq<seq<int>>): seq<int> {
    if chunks == [] then [] else Flatten(chunks[..|chunks| - 1]) + chunks[|chunks| - 1]
  }

  /** PHP's `empty()` on a string: "" and "0" count as no page specification. */
  predicate IsEmptySpec(pages: string) {
    pages == "" || pages == "0"
  }

  /** The expansions of the comma-separated tokens of `pages`, joined in order. */
  function ExpandAll(pages: string): seq<int> {
    Flatten(Expand(Explode(',', pages)))
  }

  /** The page numbers the parser builds from the posted specification. */
  function ParsedPages(pages: string): seq<int> {
    if IsEmptySpec(pages) then [] else ExpandAll(pages)
  }

  /**
   * The parsing loop of splitPdf: every token of the specification is
   * expanded in turn and appended to the list.
   */
  method ParsePageSpec(pages: string) returns (pageNumbers: seq<int>)
    ensures pageNumbers == ParsedPages(pages)
  {
    pageNumbers := [];
    if !IsEmptySpec(pages) {
      var parts := Explode(',', pages);
      for t := 0 to |parts|
        invariant pageNumbers == Flatten(Expand(parts[..t]))
      {
        var part := parts[t];
        ghost var before := pageNumbers;
        if '-' in part {
          var bounds := Explode('-', part);
          pageNumbers := AppendRange(pageNumbers, IntCast(bounds[0]), IntCast(bounds[1]));
        } else {
          pageNumbers := pageNumbers + [IntCast(part)];
        }
        assert pageNumbers == before + TokenPages(part);
        assert parts[..t + 1] == parts[..t] + [part];
        assert Expand(parts[..t + 1]) == Expand(parts[..t]) + [TokenPages(part)];
      }
      assert parts[..|parts|] == parts;
    }
  }

  /** The inner loop `for ($i = start; $i <= end; $i++) $pageNumbers[] = $i;`. */
  method AppendRange(list: seq<int>, start: int, end: int) returns (r: seq<int>)
    ensures r == list + Range(start, end)
  {
    r := list;
    var i := start;
    while i <= end
      invariant start <= i && (i <= end + 1 || i == start)
      invariant r == list + Range(start, i - 1)
      decreases end - i
    {
      RangeSnoc(start, i);
      r := r + [i];
      i := i + 1;
    }
  }

  /** The list after the fall-back: all pages `1..pageCount` when nothing was parsed. */
  function SelectedPages(pages: string, pageCount: nat): seq<int> {
    var parsed := ParsedPages(pages);
    if parsed == [] then Range(1, pageCount) else parsed
  }

  /** `$pageNo <= $pageCount && $pageNo > 0`. */
  predicate InRange(p: int, pageCount: nat) {
    p <= pageCount && p > 0
  }

  /** The entries of `list` that pass the bounds test, in order, duplicates kept. */
  function InBounds(list: seq<int>, pageCount: nat): (r: seq<int>)
    ensures |r| <= |list|
    ensures forall k :: 0 <= k < |r| ==> InRange(r[k], pageCount)
  {
    if list == [] then []
    else
      var last := list[|list| - 1];
      InBounds(list[..|list| - 1], pageCount) + (if InRange(last, pageCount) then [last] else [])
  }

  /** `count($pageNumbers) > 1`: split mode, one file per page in a ZIP. */
  predicate IsSplitMode(list: seq<int>) {
    |list| > 1
  }

  // ---------------------------------------------------------------------
  // Properties of the parser
  // ---------------------------------------------------------------------

  lemma {:induction false} ExpandAppend(a: seq<string>, b: seq<string>)
    ensures Expand(a + b) == Expand(a) + Expand(b)
    decreases |b|
  {
    if b == [] {
      assert a + b == a;
    } else {
      var b' := b[..|b| - 1];
      assert (a + b)[..|a + b| - 1] == a + b';
      ExpandAppend(a, b');
    }
  }

  lemma {:induction false} FlattenAppend(a: seq<seq<int>>, b: seq<seq<int>>)
    ensures Flatten(a + b) == Flatten(a) + Flatten(b)
    decreases |b|
  {
    if b == [] {
      assert a + b == a;
    } else {
      var b' := b[..|b| - 1];
      assert (a + b)[..|a + b| - 1] == a + b';
      FlattenAppend(a, b');
    }
  }

  /**
   * Parsing is the left-to-right concatenation of the tokens' expansions:
   * the tokens between the commas of a specification are expanded one by
   * one and the results joined, with no sorting and no removal of duplicates.
   */
  lemma ParsedPagesOfTokens(tokens: seq<string>)
    requires |tokens| > 0
    requires forall i :: 0 <= i < |tokens| ==> ',' !in tokens[i]
    requires !IsEmptySpec(Implode(',', tokens))
    ensures ParsedPages(Implode(',', tokens)) == Flatten(Expand(tokens))
  {
    ExplodeImplode(',', tokens);
  }

  /** The tokens are read from the left: the first token, then the rest. */
  lemma ExpandAllCons(token: string, rest: string)
    requires ',' !in token
    ensures ExpandAll(token + "," + rest) == TokenPages(token) + ExpandAll(rest)
  {
    var parts := Explode(',', rest);
    assert token + "," + rest == token + [','] + rest;
    ExplodeAround(',', token, rest);
    FirstChunk(token, parts);
  }

  lemma FirstChunk(token: string, parts: seq<string>)
    ensures Flatten(Expand([token] + parts)) == TokenPages(token) + Flatten(Expand(parts))
  {
    ExpandAppend([token], parts);
    var first := Expand([token]);
    assert first == [] + [TokenPages(token)];
    FlattenAppend(first, Expand(parts));
    assert Flatten(first) == [] + TokenPages(token);
  }

  /** Text without a comma is a single token. */
  lemma ExpandAllOne(token: string)
    requires ',' !in token
    ensures ExpandAll(token) == TokenPages(token)
  {
    ExplodeWithoutSeparator(',', token);
    assert Expand([token]) == [] + [TokenPages(token)];
    assert Flatten([TokenPages(token)]) == [] + TokenPages(token);
  }

  /** A specification is read token by token from the left: its first token, then the rest. */
  lemma ParsedPagesOfFirstToken(token: string, rest: string)
    requires ',' !in token
    requires !IsEmptySpec(rest)
    ensures ParsedPages(token + "," + rest) == TokenPages(token) + ParsedPages(rest)
  {
    ExpandAllCons(token, rest);
    assert (token + "," + rest)[|token|] == ',';
  }

  /** The token `a-b` (both written in decimal) expands to a, a+1, ..., b. */
  lemma RangeToken(a: nat, b: nat)
    ensures TokenPages(DecimalString(a) + "-" + DecimalString(b)) == Range(a, b)
  {
    var da, db := DecimalString(a), DecimalString(b);
    NoSeparatorInDecimal(a);
    NoSeparatorInDecimal(b);
    DashToken(da, db);
    assert IntCast(da) == a by {
      ReadBackDecimal(a, []);
      assert da + [] == da;
    }
    assert IntCast(db) == b by {
      ReadBackDecimal(b, []);
      assert db + [] == db;
    }
  }

  /** A token `x-y` with no other dash is the range from the cast of x to the cast of y. */
  lemma DashToken(x: string, y: string)
    requires '-' !in x && '-' !in y
    ensures TokenPages(x + "-" + y) == Range(IntCast(x), IntCast(y))
  {
    var token := x + "-" + y;
    assert token == x + ['-'] + y;
    assert token[|x|] == '-';
    ExplodeAround('-', x, y);
    ExplodeWithoutSeparator('-', y);
  }

  /** A token `a-b` whose end is below its start contributes nothing. */
  lemma ReversedRangeToken(a: nat, b: nat)
    requires b < a
    ensures TokenPages(DecimalString(a) + "-" + DecimalString(b)) == []
  {
    RangeToken(a, b);
  }

  /** Pieces after a second dash are dropped: "x-y-z" reads as "x-y". */
  lemma ExtraDashIgnored(x: string, y: string, z: string)
    requires '-' !in x && '-' !in y
    ensures TokenPages(x + "-" + y + "-" + z) == TokenPages(x + "-" + y)
  {
    var long, short := x + "-" + y + "-" + z, x + "-" + y;
    assert long == x + ['-'] + (y + ['-'] + z);
    assert short == x + ['-'] + y;
    ExplodeAround('-', x, y + ['-'] + z);
    ExplodeAround('-', y, z);
    ExplodeAround('-', x, y);
    ExplodeWithoutSeparator('-', y);
    assert long[|x|] == '-';
    assert short[|x|] == '-';
  }

  /** With nothing parsed ("", "0", or only reversed ranges) every page is selected. */
  lemma FallbackSelectsAllPages(pages: string, pageCount: nat)
    requires ParsedPages(pages) == []
    ensures SelectedPages(pages, pageCount) == Range(1, pageCount)
    ensures InBounds(SelectedPages(pages, pageCount), pageCount) == Range(1, pageCount)
  {
    AllInRange(Range(1, pageCount), pageCount);
  }

  /** `""` and `"0"`, which `empty()` treats as no specification, select and keep every page. */
  lemma EmptySpecSelectsAllPages(pages: string, pageCount: nat)
    requires IsEmptySpec(pages)
    ensures SelectedPages(pages, pageCount) == Range(1, pageCount)
    ensures InBounds(SelectedPages(pages, pageCount), pageCount) == Range(1, pageCount)
  {
    FallbackSelectsAllPages(pages, pageCount);
  }

  // ---------------------------------------------------------------------
  // Properties of the bounds test
  // ---------------------------------------------------------------------

  lemma {:induction false} AllInRange(list: seq<int>, pageCount: nat)
    requires forall k :: 0 <= k < |list| ==> InRange(list[k], pageCount)
    ensures InBounds(list, pageCount) == list
  {
    if list != [] {
      AllInRange(list[..|list| - 1], pageCount);
    }
  }

  lemma {:induction false} InBoundsAppend(a: seq<int>, b: seq<int>, pageCount: nat)
    ensures InBounds(a + b, pageCount) == InBounds(a, pageCount) + InBounds(b, pageCount)
    decreases |b|
  {
    if b == [] {
      assert a + b == a;
    } else {
      var b' := b[..|b| - 1];
      assert (a + b)[..|a + b| - 1] == a + b';
      InBoundsAppend(a, b', pageCount);
    }
  }

  /**
   * The bounds test keeps each in-range number as often as it occurs and
   * drops every other number.
   */
  lemma {:induction false} InBoundsCounts(list: seq<int>, pageCount: nat)
    ensures forall p :: multiset(InBounds(list, pageCount))[p] ==
              if InRange(p, pageCount) then multiset(list)[p] else 0
  {
    if list != [] {
      var front, last := list[..|list| - 1], list[|list| - 1];
      InBoundsCounts(front, pageCount);
      assert list == front + [last];
    }
  }

  /** A number survives the bounds test exactly when it occurs and is in range. */
  lemma InBoundsMembership(list: seq<int>, pageCount: nat, p: int)
    ensures p in InBounds(list, pageCount) <==> p in list && InRange(p, pageCount)
  {
  }

  /** A specification without a comma is one token. */
  lemma ParsedPagesOfOneToken(token: string)
    requires ',' !in token && !IsEmptySpec(token)
    ensures ParsedPages(token) == TokenPages(token)
  {
    ExpandAllOne(token);
  }

  /** A number written in decimal is a token of one page. */
  lemma NumberToken(n: nat)
    ensures TokenPages(DecimalString(n)) == [n]
  {
    var d := DecimalString(n);
    NoSeparatorInDecimal(n);
    IntCastOfDecimal([], n, []);
    assert [] + d + [] == d;
  }

  lemma NoSeparatorInDecimal(n: nat)
    ensures '-' !in DecimalString(n) && ',' !in DecimalString(n)
  {
  }

  // ---------------------------------------------------------------------
  // The shapes of specification users type
  // ---------------------------------------------------------------------

  /** Text holding a comma is never an empty specification. */
  lemma ParsedWithComma(left: string, right: string)
    ensures ParsedPages(left + "," + right) == ExpandAll(left + "," + right)
  {
  }

  /** Three comma-free tokens are expanded one after the other. */
  lemma ThreeTokens(x: string, y: string, z: string)
    requires ',' !in x && ',' !in y && ',' !in z
    ensures ParsedPages(x + "," + y + "," + z) == TokenPages(x) + TokenPages(y) + TokenPages(z)
  {
    var tail := y + "," + z;
    assert x + "," + y + "," + z == x + "," + tail;
    ParsedWithComma(x, tail);
    ExpandAllCons(x, tail);
    ExpandAllCons(y, z);
    ExpandAllOne(z);
  }

  /** "a,b-c,d" is the page a, then the run b..c, then the page d. */
  lemma MixedSpec(a: nat, b: nat, c: nat, d: nat)
    ensures ParsedPages(DecimalString(a) + "," + (DecimalString(b) + "-" + DecimalString(c)) + "," + DecimalString(d))
         == [a] + Range(b, c) + [d]
  {
    var da, range, dd := DecimalString(a), DecimalString(b) + "-" + DecimalString(c), DecimalString(d);
    assert ',' !in range by {
      NoSeparatorInDecimal(b);
      NoSeparatorInDecimal(c);
    }
    assert ',' !in da && ',' !in dd by {
      NoSeparatorInDecimal(a);
      NoSeparatorInDecimal(d);
    }
    ThreeTokens(da, range, dd);
    assert TokenPages(da) == [a] by { NumberToken(a); }
    assert TokenPages(dd) == [d] by { NumberToken(d); }
    assert TokenPages(range) == Range(b, c) by { RangeToken(b, c); }
  }

  /** A trailing comma leaves an empty last token, which casts to page 0. */
  lemma TrailingComma(n: nat)
    ensures ParsedPages(DecimalString(n) + ",") == [n, 0]
  {
    var d := DecimalString(n);
    NoSeparatorInDecimal(n);
    NumberToken(n);
    assert d + "," == d + "," + "";
    ExpandAllCons(d, "");
    ExpandAllOne("");
    assert (d + ",")[|d|] == ',';
  }

  /** "a-a" selects the single page a, so the operation extracts rather than splits. */
  lemma SingletonRange(a: nat)
    ensures ParsedPages(DecimalString(a) + "-" + DecimalString(a)) == [a]
    ensures !IsSplitMode(ParsedPages(DecimalString(a) + "-" + DecimalString(a)))
  {
    var token := DecimalString(a) + "-" + DecimalString(a);
    NoSeparatorInDecimal(a);
    RangeToken(a, a);
    assert ',' !in token;
    assert |token| >= 3;
    ParsedPagesOfOneToken(token);
  }

  /** "a-b" with a < b selects at least two pages, so the operation splits. */
  lemma ProperRangeSplits(a: nat, b: nat)
    requires a < b
    ensures ParsedPages(DecimalString(a) + "-" + DecimalString(b)) == Range(a, b)
    ensures IsSplitMode(ParsedPages(DecimalString(a) + "-" + DecimalString(b)))
  {
    var token := DecimalString(a) + "-" + DecimalString(b);
    NoSeparatorInDecimal(a);
    NoSeparatorInDecimal(b);
    RangeToken(a, b);
    assert ',' !in token;
    assert |token| >= 3;
    ParsedPagesOfOneToken(token);
  }

  /** Two comma-free tokens are expanded one after the other. */
  lemma TwoTokens(x: string, y: string)
    requires ',' !in x && ',' !in y
    ensures ParsedPages(x + "," + y) == TokenPages(x) + TokenPages(y)
  {
    ParsedWithComma(x, y);
    ExpandAllCons(x, y);
    ExpandAllOne(y);
  }

  /** "a,b" on a document of n pages, with only a in range: one page survives the bounds test. */
  lemma OutOfRangeDropped(a: nat, b: nat, n: nat)
    requires InRange(a, n) && !InRange(b, n)
    ensures ParsedPages(DecimalString(a) + "," + DecimalString(b)) == [a, b]
    ensures InBounds(SelectedPages(DecimalString(a) + "," + DecimalString(b), n), n) == [a]
    ensures IsSplitMode(SelectedPages(DecimalString(a) + "," + DecimalString(b), n))
  {
    NoSeparatorInDecimal(a);
    NoSeparatorInDecimal(b);
    NumberToken(a);
    NumberToken(b);
    TwoTokens(DecimalString(a), DecimalString(b));
    assert [a, b][..1] == [a];
  }
}
