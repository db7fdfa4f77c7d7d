/** `parse_page_range`: a page-range expression such as `1-5`, `1,3,5-7` or `all` (1-indexed)
    becomes the ascending list of distinct 0-indexed pages it selects in a document of
    `total` pages. Malformed clauses fail the whole parse; out-of-range pages are dropped. */
module PageRange {
  import opened Wrappers
  import opened Text
  import opened Numerals

  /** The two ways `parse_page_range` raises. */
  datatype ParseError =
    | NotTwoBounds(clause: string)   // `start, end = part.split('-')` finds more than two parts
    | NotANumber(token: string)      // `int()` rejects a bound or a single page

  predicate Between(i: int, from: int, to: int) {
    from <= i < to
  }

  /** The pages `range(from, to)` visits that lie in `[0, total)`. */
  function Span(from: int, to: int, total: nat): set<int> {
    set i | 0 <= i < total && Between(i, from, to)
  }

  /** What one comma-separated clause contributes, or why it is malformed. */
  function ClausePages(raw: string, total: nat): Result<set<int>, ParseError> {
    var part := Strip(raw);
    if '-' in part then RangePages(part, total) else PagePages(Strip(part), total)
  }

  /** `start, end = part.split('-')`, then `range(start - 1, end)` clipped to the document. */
  function RangePages(part: string, total: nat): Result<set<int>, ParseError> {
    var bounds := Split(part, '-');
    if |bounds| != 2 then Err(NotTwoBounds(part))
    else BoundedPages(Strip(bounds[0]), Strip(bounds[1]), total)
  }

  function BoundedPages(lo: string, hi: string, total: nat): Result<set<int>, ParseError> {
    match PyInt(lo)
    case None => Err(NotANumber(lo))
    case Some(start) =>
      match PyInt(hi)
      case None => Err(NotANumber(hi))
      case Some(end) => Ok(Span(start - 1, end, total))
  }

  /** `int(part.strip()) - 1`, kept when it lies in the document. */
  function PagePages(single: string, total: nat): Result<set<int>, ParseError> {
    match PyInt(single)
    case None => Err(NotANumber(single))
    case Some(n) => Ok(if 0 <= n - 1 < total then {n - 1} else {})
  }

  /** Accumulation of clause results in source order: the first error wins, otherwise the union. */
  function Combine(x: Result<set<int>, ParseError>, y: Result<set<int>, ParseError>): Result<set<int>, ParseError> {
    match x
    case Err(e) => Err(e)
    case Ok(a) =>
      match y
      case Err(e) => Err(e)
      case Ok(b) => Ok(a + b)
  }

  /** The result of each clause, in source order. */
  function Outcomes(parts: seq<string>, total: nat): (r: seq<Result<set<int>, ParseError>>)
    ensures |r| == |parts| && forall k :: 0 <= k < |parts| ==> r[k] == ClausePages(parts[k], total)
  {
    seq(|parts|, k requires 0 <= k < |parts| => ClausePages(parts[k], total))
  }

  /** Folding the clause results left to right: the first error, or the union of all pages. */
  function Accumulate(results: seq<Result<set<int>, ParseError>>): Result<set<int>, ParseError>
    decreases |results|
  {
    if results == [] then Ok({})
    else Combine(Accumulate(results[..|results| - 1]), results[|results| - 1])
  }

  /** The set of pages the clauses select, or the error of the first malformed one. */
  function Selected(parts: seq<string>, total: nat): Result<set<int>, ParseError> {
    Accumulate(Outcomes(parts, total))
  }

  predicate Ascending(r: seq<nat>) {
    forall i, j :: 0 <= i < j < |r| ==> r[i] < r[j]
  }

  /** `sorted(list(pages))` for the pages in `[lo, hi)`: those pages in ascending order. */
  function Collect(pages: set<int>, lo: nat, hi: nat): (r: seq<nat>)
    ensures Ascending(r)
    ensures forall x :: x in r <==> x in pages && lo <= x < hi
    decreases hi - lo
  {
    if lo >= hi then []
    else
      var rest := Collect(pages, lo + 1, hi);
      var r := (if lo in pages then [lo] else []) + rest;
      assert forall j :: 0 <= j < |rest| ==> lo < rest[j] by {
        forall j | 0 <= j < |rest| ensures lo < rest[j] { assert rest[j] in rest; }
      }
      r
  }

  /** `list(range(n))`. */
  function Iota(n: nat): (r: seq<nat>)
    ensures |r| == n && forall i :: 0 <= i < n ==> r[i] == i
  {
    seq(n, i requires 0 <= i < n => i as nat)
  }

  /** The reference meaning of `parse_page_range(range_str, total)`. */
  function Parse(rangeStr: string, total: nat): (r: Result<seq<nat>, ParseError>)
    ensures r.Ok? ==> Ascending(r.value)
    ensures r.Ok? ==> forall i :: 0 <= i < |r.value| ==> r.value[i] < total
  {
    if Lower(rangeStr) == "all" then Ok(Iota(total))
    else
      match Selected(Split(rangeStr, ','), total)
      case Err(e) => Err(e)
      case Ok(pages) =>
        var r := Collect(pages, 0, total);
        assert forall i :: 0 <= i < |r| ==> r[i] < total by {
          forall i | 0 <= i < |r| ensures r[i] < total { assert r[i] in r; }
        }
        Ok(r)
  }

  // ---------------------------------------------------------------------------------------
  // What a clause contributes.

  /** The pages a clause adds when it is well-formed (nothing otherwise). */
  function Contribution(raw: string, total: nat): set<int> {
    match ClausePages(raw, total)
    case Ok(pages) => pages
    case Err(_) => {}
  }

  /** Every page a clause selects lies in `[0, total)`. */
  lemma ClauseWithinDocument(raw: string, total: nat)
    ensures forall i :: i in Contribution(raw, total) ==> 0 <= i < total
  {
    var part := Strip(raw);
    if '-' in part {
      var bounds := Split(part, '-');
      if |bounds| == 2 {
        var lo, hi := Strip(bounds[0]), Strip(bounds[1]);
        if PyInt(lo).Some? && PyInt(hi).Some? {
          var span := Span(PyInt(lo).value - 1, PyInt(hi).value, total);
          assert forall i :: i in span ==> 0 <= i < total;
        }
      }
    }
  }

  /** A range clause `a-b` selects `{a-1, ..., b-1}` clipped to the document. */
  lemma RangeClause(a: nat, b: nat, total: nat)
    ensures ClausePages(Decimal(a) + "-" + Decimal(b), total) == Ok(Span(a - 1, b, total))
  {
    var x, y := Decimal(a), Decimal(b);
    var clause := x + "-" + y;
    NumeralShape(a);
    NumeralShape(b);
    assert clause[0] == x[0] && clause[|clause| - 1] == y[|y| - 1];
    StripUnchanged(clause);
    assert clause[|x|] == '-';
    SplitPair(x, y, '-');
    assert clause == x + ['-'] + y;
    StripUnchanged(x);
    StripUnchanged(y);
    BoundedNumerals(a, b, total);
    TwoBounds(clause, x, y, total);
  }

  /** `str(n)` holds neither separator and no surrounding blank. */
  lemma NumeralShape(n: nat)
    ensures ',' !in Decimal(n) && '-' !in Decimal(n)
    ensures !IsSpace(Decimal(n)[0]) && !IsSpace(Decimal(n)[|Decimal(n)| - 1])
  {
    var s := Decimal(n);
    assert forall i :: 0 <= i < |s| ==> IsDigit(s[i]);
  }

  /** A reversed range selects nothing, and is not an error. */
  lemma ReversedRangeClause(a: nat, b: nat, total: nat)
    requires a > b
    ensures ClausePages(Decimal(a) + "-" + Decimal(b), total) == Ok({})
  {
    RangeClause(a, b, total);
    SpanEmpty(a - 1, b, total);
  }

  lemma TwoBounds(part: string, lo: string, hi: string, total: nat)
    requires Split(part, '-') == [lo, hi]
    ensures RangePages(part, total) == BoundedPages(Strip(lo), Strip(hi), total)
  {
  }

  lemma BoundedNumerals(a: nat, b: nat, total: nat)
    ensures BoundedPages(Decimal(a), Decimal(b), total) == Ok(Span(a - 1, b, total))
  {
    PyIntOfDecimal(a);
    PyIntOfDecimal(b);
  }

  /** A single clause `n` selects page `n - 1` when the document has it, and is dropped
      silently otherwise (`0`, or a number past the last page). */
  lemma SingleClause(n: nat, total: nat)
    ensures ClausePages(Decimal(n), total) == Ok(if 1 <= n <= total then {n - 1} else {})
  {
    var x := Decimal(n);
    assert '-' !in x by { assert forall i :: 0 <= i < |x| ==> IsDigit(x[i]); }
    StripUnchanged(x);
    PyIntOfDecimal(n);
  }

  /** Whitespace of any length around a clause does not change what it means. */
  lemma ClausePadding(w1: string, raw: string, w2: string, total: nat)
    requires Blank(w1) && Blank(w2)
    ensures ClausePages(w1 + raw + w2, total) == ClausePages(raw, total)
  {
    StripPadded(w1, raw, w2);
  }

  /** A clause with one `-` means what its two bounds mean once stripped. */
  lemma RangeBounds(lo: string, hi: string, total: nat)
    requires '-' !in lo && '-' !in hi
    ensures ClausePages(lo + "-" + hi, total) == BoundedPages(Strip(lo), Strip(hi), total)
  {
    StripAround(lo, '-', hi);
    TrimStartKeeps(lo, '-');
    TrimEndKeeps(hi, '-');
    SplitPair(TrimStart(lo), TrimEnd(hi), '-');
  }

  /** Whitespace of any length around either bound of a range does not change what it means. */
  lemma RangePadding(w1: string, lo: string, w2: string, w3: string, hi: string, w4: string, total: nat)
    requires Blank(w1) && Blank(w2) && Blank(w3) && Blank(w4) && '-' !in lo && '-' !in hi
    ensures ClausePages(w1 + lo + w2 + "-" + w3 + hi + w4, total) == ClausePages(lo + "-" + hi, total)
  {
    var l, h := w1 + lo + w2, w3 + hi + w4;
    assert w1 + lo + w2 + "-" + w3 + hi + w4 == l + "-" + h;
    assert '-' !in l && '-' !in h;
    RangeBounds(l, h, total);
    RangeBounds(lo, hi, total);
    StripPadded(w1, lo, w2);
    StripPadded(w3, hi, w4);
  }

  // ---------------------------------------------------------------------------------------
  // The clauses together.

  /** Appending results combines them: first error in source order, else the union. */
  lemma {:induction false} AccumulateAppend(p: seq<Result<set<int>, ParseError>>, q: seq<Result<set<int>, ParseError>>)
    ensures Accumulate(p + q) == Combine(Accumulate(p), Accumulate(q))
    decreases |q|
  {
    if q == [] {
      assert p + q == p;
      match Accumulate(p)
      case Ok(a) => assert a + {} == a;
      case Err(_) =>
    } else {
      var init := q[..|q| - 1];
      assert (p + q)[..|p + q| - 1] == p + init;
      assert (p + q)[|p + q| - 1] == q[|q| - 1];
      AccumulateAppend(p, init);
      match Accumulate(p)
      case Err(_) =>
      case Ok(a) =>
        match Accumulate(init)
        case Err(_) =>
        case Ok(b) =>
          match q[|q| - 1]
          case Err(_) =>
          case Ok(c) => assert a + b + c == a + (b + c);
    }
  }

  /** The fold succeeds exactly when every result does. */
  lemma {:induction false} AccumulateOkIff(results: seq<Result<set<int>, ParseError>>)
    ensures Accumulate(results).Ok? <==> forall k :: 0 <= k < |results| ==> results[k].Ok?
    decreases |results|
  {
    if results != [] {
      var init := results[..|results| - 1];
      AccumulateOkIff(init);
      assert forall k :: 0 <= k < |init| ==> init[k] == results[k];
    }
  }

  /** A page is in the fold exactly when some result holds it. */
  lemma {:induction false} AccumulateUnion(results: seq<Result<set<int>, ParseError>>)
    requires Accumulate(results).Ok?
    ensures forall i :: i in Accumulate(results).value <==>
      exists k :: 0 <= k < |results| && results[k].Ok? && i in results[k].value
    decreases |results|
  {
    if results != [] {
      var init := results[..|results| - 1];
      var last := |results| - 1;
      AccumulateUnion(init);
      forall i ensures i in Accumulate(results).value <==>
        exists k :: 0 <= k < |results| && results[k].Ok? && i in results[k].value
      {
        if i in Accumulate(init).value {
          var k :| 0 <= k < |init| && init[k].Ok? && i in init[k].value;
          assert init[k] == results[k];
        }
        if exists k :: 0 <= k < |results| && results[k].Ok? && i in results[k].value {
          var k :| 0 <= k < |results| && results[k].Ok? && i in results[k].value;
          if k < last { assert init[k] == results[k]; }
        }
      }
    }
  }

  /** The first malformed clause decides the error, whatever follows it. */
  lemma FirstMalformedClause(parts: seq<string>, k: nat, total: nat)
    requires k < |parts| && ClausePages(parts[k], total).Err?
    requires forall j :: 0 <= j < k ==> ClausePages(parts[j], total).Ok?
    ensures Selected(parts, total) == Err(ClausePages(parts[k], total).error)
  {
    var outcomes := Outcomes(parts, total);
    var prefix := outcomes[..k + 1];
    assert prefix[..k] == outcomes[..k] && prefix[k] == outcomes[k];
    AccumulateOkIff(outcomes[..k]);
    ErrorPersists(outcomes, k + 1);
  }

  // ---------------------------------------------------------------------------------------
  // Properties of `parse_page_range`.

  /** `all`, in any mix of letter case and with nothing around it, selects every page in order. */
  lemma AllSelectsEveryPage(s: string, total: nat)
    requires |s| == 3 && (s[0] == 'a' || s[0] == 'A') && (s[1] == 'l' || s[1] == 'L') && (s[2] == 'l' || s[2] == 'L')
    ensures Parse(s, total) == Ok(Iota(total))
    ensures forall i :: i in Parse(s, total).value <==> 0 <= i < total
  {
    LowerIsAll(s);
    var r := Iota(total);
    forall i ensures i in r <==> 0 <= i < total {
      if 0 <= i < total { assert r[i] == i; }
      if i in r { var j :| 0 <= j < |r| && r[j] == i; }
    }
  }

  /** There is no trimming around the keyword: `" all"` is read as a clause, and fails. */
  lemma PaddedAllIsAClause(total: nat)
    ensures Parse(" all", total) == Err(NotANumber("all"))
    ensures Parse("all ", total) == Err(NotANumber("all"))
  {
    LowerIsAll(" all");
    LowerIsAll("all ");
    SplitWithoutSeparator(" all", ',');
    SplitWithoutSeparator("all ", ',');
    assert Strip(" all") == "all" by { assert " all"[1..] == "all"; }
    assert Strip("all ") == "all" by { assert "all "[..3] == "all"; }
    StripUnchanged("all");
    assert PyInt("all") == None;
    assert ClausePages(" all", total) == Err(NotANumber("all"));
    assert ClausePages("all ", total) == Err(NotANumber("all"));
    assert Outcomes([" all"], total) == [Err(NotANumber("all"))];
    assert Outcomes(["all "], total) == [Err(NotANumber("all"))];
    var failed: seq<Result<set<int>, ParseError>> := [Err(NotANumber("all"))];
    assert failed[..0] == [];
  }

  /** A parse succeeds exactly when the expression is the keyword or every clause is well-formed. */
  lemma ParseSucceedsIff(s: string, total: nat)
    ensures Parse(s, total).Ok? <==>
      Lower(s) == "all" || forall k :: 0 <= k < |Split(s, ',')| ==> ClausePages(Split(s, ',')[k], total).Ok?
  {
    if Lower(s) != "all" {
      ParseBySelection(s, total);
    }
    AccumulateOkIff(Outcomes(Split(s, ','), total));
  }

  /** ... fails with the error of the first malformed clause, with no partial result ... */
  lemma ParseFailsAtFirstMalformedClause(s: string, k: nat, total: nat)
    requires Lower(s) != "all"
    requires k < |Split(s, ',')| && ClausePages(Split(s, ',')[k], total).Err?
    requires forall j :: 0 <= j < k ==> ClausePages(Split(s, ',')[j], total).Ok?
    ensures Parse(s, total) == Err(ClausePages(Split(s, ',')[k], total).error)
  {
    FirstMalformedClause(Split(s, ','), k, total);
  }

  /** ... and otherwise selects exactly the pages some clause selects, ascending and without
      repetition. */
  lemma ParseSelectsUnion(s: string, total: nat)
    requires Lower(s) != "all" && Parse(s, total).Ok?
    ensures forall i :: i in Parse(s, total).value <==>
      exists k :: 0 <= k < |Split(s, ',')| && i in Contribution(Split(s, ',')[k], total)
  {
    var parts := Split(s, ',');
    ParseBySelection(s, total);
    SelectedUnion(parts, total);
    forall k | 0 <= k < |parts| {
      ClauseWithinDocument(parts[k], total);
    }
  }

  /** A page is selected by well-formed clauses exactly when one of them contributes it. */
  lemma SelectedUnion(parts: seq<string>, total: nat)
    requires Selected(parts, total).Ok?
    ensures forall i :: i in Selected(parts, total).value <==>
      exists k :: 0 <= k < |parts| && i in Contribution(parts[k], total)
  {
    var outcomes := Outcomes(parts, total);
    AccumulateUnion(outcomes);
    AccumulateOkIff(outcomes);
    assert forall k :: 0 <= k < |parts| ==> outcomes[k].Ok? && outcomes[k].value == Contribution(parts[k], total);
  }

  lemma NoElements(s: seq<nat>)
    ensures s == [] <==> forall x :: x !in s
  {
    if s != [] {
      assert s[0] in s;
    }
  }

  /** Two ascending lists with the same elements are equal: the result is determined by the
      set of pages selected. */
  lemma {:induction false} AscendingUnique(r: seq<nat>, t: seq<nat>)
    requires Ascending(r) && Ascending(t)
    requires forall x :: x in r <==> x in t
    ensures r == t
    decreases |r|
  {
    if r != [] && t != [] {
      AscendingHead(r);
      AscendingHead(t);
      assert r[0] in t && t[0] in r;
      assert r[0] == t[0];
      AscendingTail(r);
      AscendingTail(t);
      AscendingUnique(r[1..], t[1..]);
      assert r == [r[0]] + r[1..] && t == [t[0]] + t[1..];
    } else {
      NoElements(r);
      NoElements(t);
    }
  }

  /** The head of an ascending list is its least element, and the tail holds exactly the
      greater ones. */
  lemma AscendingHead(r: seq<nat>)
    requires Ascending(r) && r != []
    ensures forall x :: x in r ==> r[0] <= x
    ensures forall x :: x in r[1..] <==> x in r && r[0] < x
  {
    forall x | x in r ensures r[0] <= x {
      var j :| 0 <= j < |r| && r[j] == x;
    }
    forall x ensures x in r[1..] <==> x in r && r[0] < x {
      if x in r[1..] {
        var j :| 0 <= j < |r| - 1 && r[1..][j] == x;
        assert r[j + 1] == x;
      }
      if x in r && r[0] < x {
        var j :| 0 <= j < |r| && r[j] == x;
        assert r[1..][j - 1] == x;
      }
    }
  }

  lemma AscendingTail(r: seq<nat>)
    requires Ascending(r) && r != []
    ensures Ascending(r[1..])
  {
    forall i, j | 0 <= i < j < |r| - 1 ensures r[1..][i] < r[1..][j] {
      assert r[1..][i] == r[i + 1] && r[1..][j] == r[j + 1];
    }
  }

  /** The order of clauses does not matter: swapping two parts of an expression changes neither
      whether it parses nor the pages it selects. */
  lemma ClauseOrderIrrelevant(a: string, b: string, total: nat)
    ensures Parse(a + "," + b, total).Ok? <==> Parse(b + "," + a, total).Ok?
    ensures Parse(a + "," + b, total).Ok? ==> Parse(a + "," + b, total) == Parse(b + "," + a, total)
  {
    var p, q := Split(a, ','), Split(b, ',');
    NotAllWithComma(a, b);
    NotAllWithComma(b, a);
    SplitConcat(a, b, ',');
    SplitConcat(b, a, ',');
    SelectedSwap(p, q, total);
    ParseBySelection(a + "," + b, total);
    ParseBySelection(b + "," + a, total);
  }

  /** Swapping two runs of clauses leaves the selection unchanged. */
  lemma SelectedSwap(p: seq<string>, q: seq<string>, total: nat)
    ensures Selected(p + q, total) == Selected(q + p, total) || (Selected(p + q, total).Err? && Selected(q + p, total).Err?)
  {
    SelectedAppend(p, q, total);
    SelectedAppend(q, p, total);
    if Selected(p + q, total).Ok? {
      var x, y := Selected(p, total).value, Selected(q, total).value;
      assert x + y == y + x;
    }
  }

  /** Outside the `all` keyword, an expression parses exactly when its clauses do, and then
      yields the selected pages in ascending order. */
  lemma ParseBySelection(s: string, total: nat)
    requires Lower(s) != "all"
    ensures Parse(s, total).Ok? <==> Selected(Split(s, ','), total).Ok?
    ensures Parse(s, total).Ok? ==> Parse(s, total).value == Collect(Selected(Split(s, ','), total).value, 0, total)
  {
  }

  /** Appending clauses combines their selections. */
  lemma SelectedAppend(p: seq<string>, q: seq<string>, total: nat)
    ensures Selected(p + q, total) == Combine(Selected(p, total), Selected(q, total))
  {
    OutcomesAppend(p, q, total);
    AccumulateAppend(Outcomes(p, total), Outcomes(q, total));
  }

  lemma OutcomesAppend(p: seq<string>, q: seq<string>, total: nat)
    ensures Outcomes(p + q, total) == Outcomes(p, total) + Outcomes(q, total)
  {
  }

  lemma NotAllWithComma(a: string, b: string)
    ensures Lower(a + "," + b) != "all"
  {
    var s := a + "," + b;
    LowerIsAll(s);
    assert s[|a|] == ',';
  }

  // ---------------------------------------------------------------------------------------
  // ---------------------------------------------------------------------------------------
  // Writing a selection back out as an expression.

  /** One clause per page of `r`: its 1-indexed number. */
  function PageClauses(r: seq<nat>): (parts: seq<string>)
    ensures |parts| == |r| && forall k :: 0 <= k < |r| ==> parts[k] == Decimal(r[k] + 1)
  {
    seq(|r|, k requires 0 <= k < |r| => Decimal(r[k] + 1))
  }

  /** A selection written as an expression: its 1-indexed page numbers joined by `,`. The
      empty selection writes out as the empty string. */
  function Serialize(r: seq<nat>): string {
    if r == [] then "" else Join(PageClauses(r), ',')
  }

  /** The clauses of a written selection select exactly its pages. */
  lemma PageClausesSelect(r: seq<nat>, total: nat)
    requires forall i :: 0 <= i < |r| ==> r[i] < total
    ensures Selected(PageClauses(r), total).Ok?
    ensures forall x :: x in Selected(PageClauses(r), total).value <==> x in r
  {
    var parts := PageClauses(r);
    forall k | 0 <= k < |parts| ensures ClausePages(parts[k], total) == Ok({r[k]}) {
      SingleClause(r[k] + 1, total);
    }
    AccumulateOkIff(Outcomes(parts, total));
    SelectedUnion(parts, total);
    forall x ensures x in Selected(parts, total).value <==> x in r {
      if x in r {
        var k :| 0 <= k < |r| && r[k] == x;
        assert x in Contribution(parts[k], total);
      }
    }
  }

  /** Parsing a written selection gives it back: every non-empty ascending list of pages of the
      document is what its expression parses to. */
  lemma SerializeParses(r: seq<nat>, total: nat)
    requires |r| > 0 && Ascending(r) && forall i :: 0 <= i < |r| ==> r[i] < total
    ensures Parse(Serialize(r), total) == Ok(r)
  {
    var parts := PageClauses(r);
    var s := Serialize(r);
    forall k | 0 <= k < |parts| ensures ',' !in parts[k] {
      NumeralShape(r[k] + 1);
    }
    SplitJoin(parts, ',');
    JoinStart(parts, ',');
    assert s[0] == parts[0][0] && IsDigit(parts[0][0]);
    LowerIsAll(s);
    ParseBySelection(s, total);
    PageClausesSelect(r, total);
    var c := Collect(Selected(parts, total).value, 0, total);
    AscendingUnique(c, r);
  }

  /** ... while the empty selection has no expression: its empty string is rejected. */
  lemma EmptySelectionUnwritable(total: nat)
    ensures Serialize([]) == "" && Parse(Serialize([]), total).Err?
  {
    ExampleEmpty(total);
  }

  lemma SerializeExample()
    ensures Serialize([0, 2, 4, 5, 6]) == "1,3,5,6,7"
  {
    DigitStrings();
    assert Decimal(6) == "6";
    var parts := PageClauses([0, 2, 4, 5, 6]);
    assert parts == ["1", "3", "5", "6", "7"];
    assert parts[1..] == ["3", "5", "6", "7"];
    assert parts[1..][1..] == ["5", "6", "7"];
    assert parts[1..][1..][1..] == ["6", "7"];
    assert parts[1..][1..][1..][1..] == ["7"];
  }

  /** Listing the pages of a range one by one means the same as the range. */
  lemma ExpandedRange()
    ensures Parse("1,3,5,6,7", 10) == Parse("1,3,5-7", 10) == Ok([0, 2, 4, 5, 6])
  {
    SerializeExample();
    SerializeParses([0, 2, 4, 5, 6], 10);
    ExampleMixed();
  }

  // The examples of the docstring (main.py:27-30), and further inputs and what they give.

  lemma SelectedSingle(c: string, total: nat)
    ensures Selected([c], total) == Combine(Ok({}), ClausePages(c, total))
  {
    var o := Outcomes([c], total);
    assert o[..|o| - 1] == [] && o[|o| - 1] == ClausePages(c, total);
    assert Accumulate(o[..|o| - 1]) == Ok({});
    assert Selected([c], total) == Accumulate(o);
  }

  lemma SelectedThree(a: string, b: string, c: string, total: nat)
    ensures Selected([a, b, c], total) == Combine(Combine(Selected([a], total), Selected([b], total)), Selected([c], total))
  {
    SelectedAppend([a], [b], total);
    SelectedAppend([a, b], [c], total);
    assert [a] + [b] == [a, b] && [a, b] + [c] == [a, b, c];
  }

  lemma ParseClauses(s: string, parts: seq<string>, total: nat, pages: set<int>)
    requires Lower(s) != "all" && Split(s, ',') == parts && Selected(parts, total) == Ok(pages)
    ensures Parse(s, total) == Ok(Collect(pages, 0, total))
  {
    ParseBySelection(s, total);
  }

  /** The ascending list of the in-document members of `pages`. */
  lemma Listed(pages: set<int>, total: nat, expected: seq<nat>)
    requires Ascending(expected) && forall x :: x in expected <==> x in pages && 0 <= x < total
    ensures Collect(pages, 0, total) == expected
  {
    AscendingUnique(Collect(pages, 0, total), expected);
  }

  lemma DigitStrings()
    ensures Decimal(1) == "1" && Decimal(2) == "2" && Decimal(3) == "3" && Decimal(4) == "4"
    ensures Decimal(5) == "5" && Decimal(7) == "7" && Decimal(999) == "999"
  {
    assert Decimal(99) == "99" by { assert Decimal(9) == "9"; }
  }

  /** An expression made of one range clause `a-b` yields `a-1, ..., b-1` clipped to the
      document, in ascending order. */
  lemma OneRange(s: string, a: nat, b: nat, total: nat)
    requires s == Decimal(a) + "-" + Decimal(b)
    ensures Parse(s, total) == Ok(Collect(Span(a - 1, b, total), 0, total))
  {
    var x, y := Decimal(a), Decimal(b);
    assert IsDigit(s[0]);
    LowerIsAll(s);
    RangeWithoutComma(a, b);
    SplitWithoutSeparator(s, ',');
    RangeClause(a, b, total);
    SelectedSingle(s, total);
    assert {} + Span(a - 1, b, total) == Span(a - 1, b, total);
    ParseClauses(s, [s], total, Span(a - 1, b, total));
  }

  lemma RangeWithoutComma(a: nat, b: nat)
    ensures ',' !in Decimal(a) + "-" + Decimal(b)
  {
    var s := Decimal(a) + "-" + Decimal(b);
    assert forall i :: 0 <= i < |s| ==> IsDigit(s[i]) || s[i] == '-';
  }

  /** An expression of three comma-separated clauses, none of them malformed. */
  lemma ThreeClauses(a: string, b: string, c: string, total: nat, pages: set<int>)
    requires ',' !in a && ',' !in b && ',' !in c
    requires Combine(Combine(Selected([a], total), Selected([b], total)), Selected([c], total)) == Ok(pages)
    ensures Parse(a + "," + b + "," + c, total) == Ok(Collect(pages, 0, total))
  {
    var s := a + "," + b + "," + c;
    assert s == a + "," + (b + "," + c);
    NotAllWithComma(a, b + "," + c);
    SplitThree(a, b, c);
    SelectedThree(a, b, c, total);
    ParseClauses(s, [a, b, c], total, pages);
  }

  lemma SplitThree(a: string, b: string, c: string)
    requires ',' !in a && ',' !in b && ',' !in c
    ensures Split(a + "," + b + "," + c, ',') == [a, b, c]
  {
    assert a + "," + b + "," + c == a + [','] + (b + [','] + c);
    SplitConcat(a, b + [','] + c, ',');
    SplitConcat(b, c, ',');
    SplitWithoutSeparator(a, ',');
    SplitWithoutSeparator(b, ',');
    SplitWithoutSeparator(c, ',');
  }

  lemma LiteralRange(s: string, a: nat, b: nat, total: nat)
    requires s == Decimal(a) + "-" + Decimal(b)
    ensures Selected([s], total) == Ok(Span(a - 1, b, total))
  {
    RangeClause(a, b, total);
    SelectedSingle(s, total);
    assert {} + Span(a - 1, b, total) == Span(a - 1, b, total);
  }

  lemma LiteralPage(s: string, n: nat, total: nat)
    requires s == Decimal(n) && 1 <= n <= total
    ensures Selected([s], total) == Ok({n - 1})
  {
    SingleClause(n, total);
    SelectedSingle(s, total);
    assert {} + {n - 1} == {n - 1};
  }

  lemma ListedFirstFive()
    ensures Collect(Span(0, 5, 10), 0, 10) == [0, 1, 2, 3, 4]
  {
    Listed(Span(0, 5, 10), 10, [0, 1, 2, 3, 4]);
  }

  lemma ListedNone()
    ensures Collect({}, 0, 10) == []
  {
    Listed({}, 10, []);
  }

  lemma ListedOdd()
    ensures Collect({0} + {2} + {4}, 0, 10) == [0, 2, 4]
  {
    Listed({0} + {2} + {4}, 10, [0, 2, 4]);
  }

  lemma ListedMixed()
    ensures Collect({0} + {2} + Span(4, 7, 10), 0, 10) == [0, 2, 4, 5, 6]
  {
    Listed({0} + {2} + Span(4, 7, 10), 10, [0, 2, 4, 5, 6]);
  }

  lemma ListedFirstFour()
    ensures Collect(Span(0, 4, 10), 0, 10) == [0, 1, 2, 3]
  {
    Listed(Span(0, 4, 10), 10, [0, 1, 2, 3]);
  }

  lemma ListedOverlap()
    ensures Collect(Span(0, 3, 10) + Span(1, 4, 10), 0, 10) == [0, 1, 2, 3]
  {
    Listed(Span(0, 3, 10) + Span(1, 4, 10), 10, [0, 1, 2, 3]);
  }

  /** `"1-5"` selects pages 0 to 4. */
  lemma ExampleRange()
    ensures Parse("1-5", 10) == Ok([0, 1, 2, 3, 4])
  {
    DigitStrings();
    OneRange("1-5", 1, 5, 10);
    ListedFirstFive();
  }

  /** A reversed range `"5-1"` selects nothing and is not an error. */
  lemma ExampleReversed()
    ensures Parse("5-1", 10) == Ok([])
  {
    DigitStrings();
    OneRange("5-1", 5, 1, 10);
    SpanEmpty(4, 1, 10);
    ListedNone();
  }

  /** `"999"` against a ten-page document parses, to the empty selection. */
  lemma ExampleOutOfRange()
    ensures Parse("999", 10) == Ok([])
  {
    DigitStrings();
    LowerIsAll("999");
    SplitWithoutSeparator("999", ',');
    SingleClause(999, 10);
    SelectedSingle("999", 10);
    var none: set<int> := {};
    assert none + none == none;
    ParseClauses("999", ["999"], 10, {});
    ListedNone();
  }

  lemma OddPages(s: string, a: string, b: string, c: string)
    requires a == Decimal(1) && b == Decimal(3) && c == Decimal(5) && s == a + "," + b + "," + c
    ensures Parse(s, 10) == Ok(Collect({0} + {2} + {4}, 0, 10))
  {
    NumeralShape(1);
    NumeralShape(3);
    NumeralShape(5);
    LiteralPage(a, 1, 10);
    LiteralPage(b, 3, 10);
    LiteralPage(c, 5, 10);
    ThreeClauses(a, b, c, 10, {0} + {2} + {4});
  }

  lemma MixedPages(s: string, a: string, b: string, c: string)
    requires a == Decimal(1) && b == Decimal(3) && c == Decimal(5) + "-" + Decimal(7) && s == a + "," + b + "," + c
    ensures Parse(s, 10) == Ok(Collect({0} + {2} + Span(4, 7, 10), 0, 10))
  {
    NumeralShape(1);
    NumeralShape(3);
    RangeWithoutComma(5, 7);
    LiteralPage(a, 1, 10);
    LiteralPage(b, 3, 10);
    LiteralRange(c, 5, 7, 10);
    ThreeClauses(a, b, c, 10, {0} + {2} + Span(4, 7, 10));
  }

  lemma OverlapPages(s: string, a: string, b: string)
    requires a == "1-3" && b == "2-4" && s == a + "," + b
    ensures Parse(s, 10) == Ok(Collect(Span(0, 3, 10) + Span(1, 4, 10), 0, 10))
  {
    DigitStrings();
    assert a == Decimal(1) + "-" + Decimal(3) && b == Decimal(2) + "-" + Decimal(4);
    RangeWithoutComma(1, 3);
    RangeWithoutComma(2, 4);
    LiteralRange(a, 1, 3, 10);
    LiteralRange(b, 2, 4, 10);
    ClauseSelection(a, b, 10);
  }

  /** `"1,3,5"` selects pages 0, 2 and 4. */
  lemma ExampleList()
    ensures Parse("1,3,5", 10) == Ok([0, 2, 4])
  {
    DigitStrings();
    OddPages("1,3,5", "1", "3", "5");
    ListedOdd();
  }

  /** `"1,3,5-7"` selects pages 0, 2, 4, 5 and 6. */
  lemma ExampleMixed()
    ensures Parse("1,3,5-7", 10) == Ok([0, 2, 4, 5, 6])
  {
    DigitStrings();
    MixedPages("1,3,5-7", "1", "3", "5-7");
    ListedMixed();
  }

  /** Overlapping clauses collapse: `"1-3,2-4"` selects pages 0 to 3 once each ... */
  lemma ExampleOverlap()
    ensures Parse("1-3,2-4", 10) == Ok([0, 1, 2, 3])
  {
    OverlapPages("1-3,2-4", "1-3", "2-4");
    ListedOverlap();
  }

  /** ... which are the pages `"1-4"` selects. */
  lemma ExampleFirstFour()
    ensures Parse("1-4", 10) == Ok([0, 1, 2, 3])
  {
    DigitStrings();
    OneRange("1-4", 1, 4, 10);
    ListedFirstFour();
  }

  /** An expression of two clauses selects the union of their pages. */
  lemma ClauseSelection(a: string, b: string, total: nat)
    requires ',' !in a && ',' !in b && Selected([a], total).Ok? && Selected([b], total).Ok?
    ensures Parse(a + "," + b, total) == Ok(Collect(Selected([a], total).value + Selected([b], total).value, 0, total))
  {
    NotAllWithComma(a, b);
    assert a + "," + b == a + [','] + b;
    SplitConcat(a, b, ',');
    SplitWithoutSeparator(a, ',');
    SplitWithoutSeparator(b, ',');
    SelectedAppend([a], [b], total);
    assert [a] + [b] == [a, b];
    ParseClauses(a + "," + b, [a, b], total, Selected([a], total).value + Selected([b], total).value);
  }

  /** A blank clause is malformed: `int('')` raises. */
  lemma BlankClause(raw: string, total: nat)
    requires Strip(raw) == []
    ensures ClausePages(raw, total) == Err(NotANumber(""))
  {
    StripUnchanged([]);
  }

  /** A single clause that is not a number, not a range and not the keyword is malformed. */
  lemma NotANumberExpression(s: string, total: nat)
    requires ',' !in s && '-' !in s && |s| > 0 && !IsDigit(s[0]) && !IsSpace(s[0]) && !IsSpace(s[|s| - 1])
    requires Lower(s) != "all"
    ensures Parse(s, total) == Err(NotANumber(s))
  {
    SplitWithoutSeparator(s, ',');
    StripUnchanged(s);
    PyIntRejects(s);
    assert ClausePages(s, total) == Err(NotANumber(s));
    SelectedSingle(s, total);
    ParseBySelection(s, total);
  }

  /** `"abc"` is not a page number. */
  lemma ExampleWord()
    ensures Parse("abc", 10) == Err(NotANumber("abc"))
  {
    LowerIsAll("abc");
    NotANumberExpression("abc", 10);
  }

  /** The empty expression is one blank clause, and malformed. */
  lemma ExampleEmpty(total: nat)
    ensures Parse("", total) == Err(NotANumber(""))
  {
    LowerIsAll("");
    SplitWithoutSeparator("", ',');
    StripUnchanged("");
    BlankClause("", total);
    SelectedSingle("", total);
    ParseBySelection("", total);
  }

  /** A trailing comma leaves a blank last clause: `"1,"` is malformed. */
  lemma TrailingComma(s: string, total: nat)
    requires s == Decimal(1) + ","
    ensures Parse(s, total) == Err(NotANumber(""))
  {
    DigitStrings();
    NotAllWithComma("1", "");
    assert s == "1" + [','] + "";
    SplitConcat("1", "", ',');
    SplitWithoutSeparator("1", ',');
    SplitWithoutSeparator("", ',');
    StripUnchanged("");
    BlankClause("", total);
    SingleClause(1, total);
    SelectedSingle("1", total);
    SelectedSingle("", total);
    SelectedAppend(["1"], [""], total);
    assert ["1"] + [""] == ["1", ""];
    ParseBySelection(s, total);
  }

  /** A range without a lower bound, `"-3"`, is malformed: `int('')` raises. */
  lemma MissingLowerBound(s: string, total: nat)
    requires s == "-" + Decimal(3)
    ensures Parse(s, total) == Err(NotANumber(""))
  {
    DigitStrings();
    LowerIsAll(s);
    SplitWithoutSeparator(s, ',');
    StripUnchanged(s);
    assert s == "" + ['-'] + "3";
    SplitConcat("", "3", '-');
    SplitWithoutSeparator("3", '-');
    SplitWithoutSeparator("", '-');
    StripUnchanged("");
    StripUnchanged("3");
    assert ClausePages(s, total) == Err(NotANumber(""));
    SelectedSingle(s, total);
    ParseBySelection(s, total);
  }

  /** `"1,"` and `"-3"` are malformed. */
  lemma ExampleBlankBound(total: nat)
    ensures Parse("1,", total) == Err(NotANumber(""))
    ensures Parse("-3", total) == Err(NotANumber(""))
  {
    DigitStrings();
    TrailingComma("1,", total);
    MissingLowerBound("-3", total);
  }

  lemma TooManyBounds(s: string, total: nat)
    requires s == Decimal(1) + "-" + Decimal(2) + "-" + Decimal(3)
    ensures Parse(s, total) == Err(NotTwoBounds(s))
  {
    DigitStrings();
    LowerIsAll(s);
    SplitWithoutSeparator(s, ',');
    StripUnchanged(s);
    assert s == "1" + ['-'] + ("2" + ['-'] + "3");
    SplitConcat("1", "2" + ['-'] + "3", '-');
    SplitConcat("2", "3", '-');
    SplitWithoutSeparator("1", '-');
    SplitWithoutSeparator("2", '-');
    SplitWithoutSeparator("3", '-');
    assert ClausePages(s, total) == Err(NotTwoBounds(s));
    SelectedSingle(s, total);
    ParseBySelection(s, total);
  }

  lemma MissingUpperBound(s: string, total: nat)
    requires s == Decimal(1) + "-"
    ensures Parse(s, total) == Err(NotANumber(""))
  {
    DigitStrings();
    LowerIsAll(s);
    SplitWithoutSeparator(s, ',');
    StripUnchanged(s);
    assert s == "1" + ['-'] + "";
    SplitConcat("1", "", '-');
    SplitWithoutSeparator("1", '-');
    SplitWithoutSeparator("", '-');
    StripUnchanged("1");
    StripUnchanged("");
    PyIntOfDecimal(1);
    assert ClausePages(s, total) == Err(NotANumber(""));
    SelectedSingle(s, total);
    ParseBySelection(s, total);
  }

  /** A clause with more than two bounds, and one with a missing upper bound, are malformed. */
  lemma ExampleMalformedRange(total: nat)
    ensures Parse("1-2-3", total) == Err(NotTwoBounds("1-2-3"))
    ensures Parse("1-", total) == Err(NotANumber(""))
  {
    DigitStrings();
    TooManyBounds("1-2-3", total);
    MissingUpperBound("1-", total);
  }

  // ---------------------------------------------------------------------------------------
  // The imperative parser: one pass over the clauses, adding pages to a set.

  /** Once a prefix of the results has failed, the whole fold fails with that error. */
  lemma {:induction false} ErrorPersists(results: seq<Result<set<int>, ParseError>>, k: nat)
    requires k <= |results| && Accumulate(results[..k]).Err?
    ensures Accumulate(results) == Accumulate(results[..k])
    decreases |results|
  {
    if k < |results| {
      var init := results[..|results| - 1];
      assert init[..k] == results[..k];
      ErrorPersists(init, k);
    } else {
      assert results[..k] == results;
    }
  }

  /** One more step of `for i in range(from, to)`: the span grows by `i` when `i` is a page. */
  lemma SpanStep(from: int, i: int, total: nat)
    requires from <= i
    ensures Span(from, i + 1, total) == Span(from, i, total) + (if 0 <= i < total then {i} else {})
  {
  }

  /** A `range` whose end does not exceed its start visits nothing. */
  lemma SpanEmpty(from: int, to: int, total: nat)
    requires to <= from
    ensures Span(from, to, total) == {}
  {
    assert forall i :: i in Span(from, to, total) ==> Between(i, from, to);
  }

  /** The body of the loop over the clauses: `pages` gains what the clause `raw` selects,
      or the clause is malformed and the parse raises. */
  method AddClause(pages: set<int>, raw: string, totalPages: nat) returns (r: Result<set<int>, ParseError>)
    ensures r == Combine(Ok(pages), ClausePages(raw, totalPages))
  {
    var part := Strip(raw);
    if '-' in part {
      var bounds := Split(part, '-');
      if |bounds| != 2 {
        return Err(NotTwoBounds(part));
      }
      var lo := Strip(bounds[0]);
      var start := PyInt(lo);
      if start.None? {
        return Err(NotANumber(lo));
      }
      var hi := Strip(bounds[1]);
      var end := PyInt(hi);
      if end.None? {
        return Err(NotANumber(hi));
      }
      var from := start.value as int - 1;
      var acc := pages;
      var i := from;
      while i < end.value
        invariant from <= i && (i <= end.value || i == from)
        invariant acc == pages + Span(from, i, totalPages)
      {
        SpanStep(from, i, totalPages);
        if 0 <= i < totalPages {
          acc := acc + {i};
        }
        i := i + 1;
      }
      if i == from {
        SpanEmpty(from, i, totalPages);
        SpanEmpty(from, end.value, totalPages);
      }
      return Ok(acc);
    } else {
      var single := Strip(part);
      var n := PyInt(single);
      if n.None? {
        return Err(NotANumber(single));
      }
      var pageNum := n.value as int - 1;
      if 0 <= pageNum < totalPages {
        return Ok(pages + {pageNum});
      }
      assert pages + {} == pages;
      return Ok(pages);
    }
  }

  /** `parse_page_range(range_str, total_pages)`. */
  method ParsePageRange(rangeStr: string, totalPages: nat) returns (r: Result<seq<nat>, ParseError>)
    ensures r == Parse(rangeStr, totalPages)
  {
    if Lower(rangeStr) == "all" {
      return Ok(Iota(totalPages));
    }
    var pages: set<int> := {};
    var parts := Split(rangeStr, ',');
    ghost var outcomes := Outcomes(parts, totalPages);
    for k := 0 to |parts|
      invariant Accumulate(outcomes[..k]) == Ok(pages)
    {
      var prefix := outcomes[..k + 1];
      assert prefix[..|prefix| - 1] == outcomes[..k] && prefix[|prefix| - 1] == outcomes[k];
      var added := AddClause(pages, parts[k], totalPages);
      if added.Err? {
        ErrorPersists(outcomes, k + 1);
        return Err(added.error);
      }
      pages := added.value;
    }
    assert outcomes[..|parts|] == outcomes;
    return Ok(Collect(pages, 0, totalPages));
  }
}
