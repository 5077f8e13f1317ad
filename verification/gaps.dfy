/** gaps.py: the transaction numbers a replica retrieved but did not
    execute, and the lines its command-line block prints about them. The
    two `input()` prompts and `print` become parameters and returned lines. */
module Gaps {
  import opened Wrappers
  import opened Text

  // ---------------------------------------------------------------------
  // Python's int() on a string

  /** Only ASCII digits and underscores. */
  predicate DigitsOrUnderscores(s: string) {
    forall i :: 0 <= i < |s| ==> IsDigit(s[i]) || s[i] == '_'
  }

  /** Digits with single underscores between them, as `int()` accepts them:
      a digit at both ends and never two underscores in a row. */
  predicate IsDigitGroups(s: string) {
    && |s| > 0 && IsDigit(s[0]) && IsDigit(s[|s| - 1]) && DigitsOrUnderscores(s)
    && forall i, j :: 0 <= i < |s| && 0 <= j < |s| && j == i + 1 ==> s[i] != '_' || s[j] != '_'
  }

  /** The number the digits of `s` spell, underscores skipped. */
  function GroupsValue(s: string): nat
    requires DigitsOrUnderscores(s)
  {
    if |s| == 0 then 0
    else if s[|s| - 1] == '_' then GroupsValue(s[..|s| - 1])
    else GroupsValue(s[..|s| - 1]) * 10 + DigitValue(s[|s| - 1])
  }

  /** Without underscores the digits are read as plain decimal. */
  lemma {:induction false} GroupsValueDecimal(s: string)
    requires forall i :: 0 <= i < |s| ==> IsDigit(s[i])
    ensures DigitsOrUnderscores(s)
    ensures GroupsValue(s) == DecimalValue(s)
  {
    if |s| > 0 {
      GroupsValueDecimal(s[..|s| - 1]);
    }
  }

  /** `int(text)` in base 10: surrounding whitespace is stripped (the class
      `IsGoSpace` documents), then an optional sign, then digit groups;
      anything else is a `ValueError`, here `None`. The interpreter's limit
      on the number of digits is not modelled. */
  function PyInt(text: string): Option<int>
  {
    Signed(TrimSpace(text))
  }

  /** An optional sign before digit groups. */
  function Signed(t: string): Option<int>
  {
    if |t| > 0 && t[0] == '-' then
      match Unsigned(t[1..])
      case Some(n) => Some(-n)
      case None => None
    else if |t| > 0 && t[0] == '+' then Unsigned(t[1..])
    else Unsigned(t)
  }

  function Unsigned(body: string): Option<int>
  {
    if IsDigitGroups(body) then Some(GroupsValue(body)) else None
  }

  /** A plain run of decimal digits, leading zeros included, reads as its
      decimal value. */
  lemma PyIntDigits(s: string)
    requires IsDigits(s)
    ensures PyInt(s) == Some(DecimalValue(s))
  {
    DigitsUntrimmed(s);
    DigitsUnsigned(s);
    DigitsUnsignedValue(s);
  }

  lemma DigitsUnsignedValue(s: string)
    requires IsDigits(s)
    ensures Unsigned(s) == Some(DecimalValue(s))
  {
    DigitsAreGroups(s);
    GroupsValueDecimal(s);
  }

  lemma DigitsUntrimmed(s: string)
    requires IsDigits(s)
    ensures TrimSpace(s) == s
  {
    assert IsDigit(s[0]) && IsDigit(s[|s| - 1]);
    assert !IsGoSpace(s[0]) && !IsGoSpace(s[|s| - 1]);
  }

  lemma DigitsUnsigned(s: string)
    requires IsDigits(s)
    ensures Signed(s) == Unsigned(s)
  {
  }

  lemma DigitsAreGroups(s: string)
    requires IsDigits(s)
    ensures IsDigitGroups(s)
  {
    assert forall i :: 0 <= i < |s| ==> IsDigit(s[i]);
  }

  /** `int(str(n)) == n`. */
  lemma PyIntOfDecimal(n: nat)
    ensures PyInt(NatToDecimal(n)) == Some(n)
  {
    PyIntDigits(NatToDecimal(n));
  }

  /** Text without a minus sign never reads as a negative number. */
  lemma PyIntUnsigned(text: string)
    requires '-' !in text
    ensures PyInt(text).Some? ==> PyInt(text).value >= 0
  {
    var t := TrimSpace(text);
    if |t| > 0 {
      assert t[0] in t;
      TrimSpaceKeeps(text, '-');
    }
  }

  /** Blank text is not a number. */
  lemma PyIntBlank(text: string)
    requires forall i :: 0 <= i < |text| ==> IsGoSpace(text[i])
    ensures PyInt(text) == None
  {
    TrimSpaceEmpty(text);
  }

  /** The information separators U+001C..U+001F are not stripped: a number
      preceded by one is a `ValueError`, although `str.isspace` holds for
      them. */
  lemma SeparatorNotStripped(c: char, s: string)
    requires '\U{001C}' <= c <= '\U{001F}'
    ensures PyInt([c] + s) == None
  {
    var text := [c] + s;
    assert !IsGoSpace(text[0]);
    assert TrimLeftSpace(text) == text;
    TrimSpaceEmpty(text);
    var t := TrimSpace(text);
    assert t == TrimRightSpace(text);
    assert t != [] && t[0] == c;
  }

  // ---------------------------------------------------------------------
  // One comma-separated segment

  /** The `ValueError`s `find_gaps` can raise. */
  datatype GapError =
    | SegmentNotPair(segment: string)   // `_, range_str = rr.split(':')` unpacks other than two parts
    | BoundsNotPair(range: string)      // `start, end = map(int, …)` unpacks more than two numbers
    | NotAnInteger(text: string)        // `int()` rejects the text

  /** `int()` as a result. */
  function Number(text: string): Result<int, GapError> {
    match PyInt(text)
    case Some(n) => Success(n)
    case None => Failure(NotAnInteger(text))
  }

  /** `start, end = map(int, bounds)`: the map is consumed left to right, so
      the first text `int()` rejects raises; a third number raises the
      unpacking error. There are at least two bounds because the range text
      holds a dash. */
  function Bounds(range: string, bounds: seq<string>): Result<set<int>, GapError>
    requires |bounds| >= 2
  {
    var first :- Number(bounds[0]);
    var last :- Number(bounds[1]);
    if |bounds| == 2 then Success(Between(first, last))
    else
      var _ :- Number(bounds[2]);
      Failure(BoundsNotPair(range))
  }

  /** The numbers of one segment `uuid:range`: the text after the only
      colon is `N-M` (split at every dash) or a single number. The UUID is
      not looked at. */
  function SegmentNumbers(segment: string): Result<set<int>, GapError>
  {
    var parts := Split(segment, ':');
    if |parts| != 2 then Failure(SegmentNotPair(segment))
    else
      var range := parts[1];
      if '-' in range then
        var bounds := Split(range, '-');
        SplitAtSeparator(range, '-');
        Bounds(range, bounds)
      else
        var n :- Number(range);
        Success({n})
  }

  /** A segment with a range `N-M` of decimal digits stands for exactly
      `N..M`, nothing when `N > M`. */
  lemma RangeSegment(uuid: string, a: string, b: string)
    requires ':' !in uuid && IsDigits(a) && IsDigits(b)
    ensures SegmentNumbers(uuid + ":" + a + "-" + b) == Success(Between(DecimalValue(a), DecimalValue(b)))
    ensures DecimalValue(a) > DecimalValue(b) ==> Between(DecimalValue(a), DecimalValue(b)) == {}
  {
    var range := a + "-" + b;
    var segment := uuid + ":" + a + "-" + b;
    RangeSegmentSplits(uuid, a, b);
    RangeText(a, b);
    RangePair(segment, uuid, range);
    BoundsOfDigits(range, a, b);
    ReversedSpanEmpty(DecimalValue(a), DecimalValue(b));
  }

  lemma RangeSegmentSplits(uuid: string, a: string, b: string)
    requires ':' !in uuid && IsDigits(a) && IsDigits(b)
    ensures Split(uuid + ":" + a + "-" + b, ':') == [uuid, a + "-" + b] && '-' in a + "-" + b
  {
    var range := a + "-" + b;
    var segment := uuid + ":" + range;
    assert uuid + ":" + a + "-" + b == segment;
    RangeText(a, b);
    SplitJoin([uuid, range], ':');
    assert Join([uuid, range], ':') == segment;
  }

  /** A segment `uuid:range` whose range has a dash stands for the range's
      bounds. */
  lemma RangePair(segment: string, uuid: string, range: string)
    requires Split(segment, ':') == [uuid, range] && '-' in range
    ensures SegmentNumbers(segment) == Bounds(range, Split(range, '-'))
  {
  }

  lemma ReversedSpanEmpty(first: int, last: int)
    ensures first > last ==> Between(first, last) == {}
  {
    if first > last {
      assert forall n :: n !in Between(first, last);
    }
  }

  /** The range text `N-M` has no colon, and splits at its dash into `N`
      and `M`. */
  lemma RangeText(a: string, b: string)
    requires IsDigits(a) && IsDigits(b)
    ensures var range := a + "-" + b;
      ':' !in range && '-' in range && Split(range, '-') == [a, b]
  {
    var range := a + "-" + b;
    NoSeparatorInDigits(a, ':');
    NoSeparatorInDigits(b, ':');
    NoSeparatorInDigits(a, '-');
    NoSeparatorInDigits(b, '-');
    assert ':' !in range by {
      assert forall i :: 0 <= i < |range| ==> range[i] in a || range[i] == '-' || range[i] in b;
    }
    assert range[|a|] == '-';
    SplitJoin([a, b], '-');
    assert Join([a, b], '-') == range;
  }

  lemma BoundsOfDigits(range: string, a: string, b: string)
    requires IsDigits(a) && IsDigits(b)
    ensures Bounds(range, [a, b]) == Success(Between(DecimalValue(a), DecimalValue(b)))
  {
    PyIntDigits(a);
    PyIntDigits(b);
  }

  /** A segment with a single decimal number stands for that number. */
  lemma SingleSegment(uuid: string, a: string)
    requires ':' !in uuid && IsDigits(a)
    ensures SegmentNumbers(uuid + ":" + a) == Success({DecimalValue(a) as int})
  {
    NoSeparatorInDigits(a, ':');
    NoSeparatorInDigits(a, '-');
    SplitJoin([uuid, a], ':');
    assert Join([uuid, a], ':') == uuid + ":" + a;
    PyIntDigits(a);
  }

  lemma NoSeparatorInDigits(a: string, c: char)
    requires IsDigits(a) && !IsDigit(c)
    ensures c !in a
  {
    assert forall i :: 0 <= i < |a| ==> IsDigit(a[i]);
  }

  /** The UUID is discarded: two segments that differ only in it stand for
      the same numbers, or fail the same way. */
  lemma UuidIgnored(u1: string, u2: string, range: string)
    requires ':' !in u1 && ':' !in u2 && ':' !in range
    ensures SegmentNumbers(u1 + ":" + range) == SegmentNumbers(u2 + ":" + range)
  {
    SplitJoin([u1, range], ':');
    SplitJoin([u2, range], ':');
    assert Join([u1, range], ':') == u1 + ":" + range;
    assert Join([u2, range], ':') == u2 + ":" + range;
  }

  /** A segment is read only when it holds exactly one colon: it is a
      colon-free UUID part, a colon and a colon-free range. The MySQL form
      `uuid:1-3:5-6`, with several ranges for one UUID, is rejected rather
      than expanded. */
  lemma OneColonOnly(segment: string)
    requires SegmentNumbers(segment).Success?
    ensures exists uuid, range :: ':' !in uuid && ':' !in range && segment == uuid + ":" + range
  {
    var parts := Split(segment, ':');
    assert segment == parts[0] + ":" + parts[1];
  }

  lemma MultiRangeRejected(uuid: string, r1: string, r2: string)
    requires ':' !in uuid && ':' !in r1 && ':' !in r2
    ensures SegmentNumbers(uuid + ":" + r1 + ":" + r2) == Failure(SegmentNotPair(uuid + ":" + r1 + ":" + r2))
  {
    SplitJoin([uuid, r1, r2], ':');
    assert Join([uuid, r1, r2], ':') == uuid + ":" + r1 + ":" + r2;
  }

  // ---------------------------------------------------------------------
  // find_gaps

  /** Numbers already collected, joined with the outcome of the rest. */
  function Combine(numbers: set<int>, r: Result<set<int>, GapError>): Result<set<int>, GapError> {
    match r
    case Success(more) => Success(numbers + more)
    case Failure(e) => Failure(e)
  }

  /** The outcomes of reading segments one after another: the first
      failure, or all the numbers together. */
  function Collect(rs: seq<Result<set<int>, GapError>>): Result<set<int>, GapError>
  {
    if rs == [] then Success({})
    else if rs[0].Failure? then Failure(rs[0].error)
    else Combine(rs[0].value, Collect(rs[1..]))
  }

  /** What every segment on its own stands for. */
  function Readings(segments: seq<string>): (rs: seq<Result<set<int>, GapError>>)
    ensures |rs| == |segments|
  {
    seq(|segments|, i requires 0 <= i < |segments| => SegmentNumbers(segments[i]))
  }

  lemma ReadingAt(segments: seq<string>, i: nat)
    requires i < |segments|
    ensures Readings(segments)[i] == SegmentNumbers(segments[i])
  {
  }

  /** The numbers of all segments, pooled regardless of UUID; the first
      segment that cannot be read raises. */
  function Pool(segments: seq<string>): Result<set<int>, GapError>
  {
    Collect(Readings(segments))
  }

  /** Collecting succeeds exactly when every outcome is a success; it then
      holds exactly the numbers of some outcome, and otherwise reports the
      first failure. */
  lemma {:induction false} CollectMeaning(rs: seq<Result<set<int>, GapError>>)
    ensures Collect(rs).Success? <==> forall i :: 0 <= i < |rs| ==> rs[i].Success?
    ensures Collect(rs).Success? ==> forall n ::
      n in Collect(rs).value <==> exists i :: 0 <= i < |rs| && n in rs[i].value
    ensures Collect(rs).Failure? ==> exists i ::
      && 0 <= i < |rs| && rs[i] == Failure(Collect(rs).error)
      && forall j :: 0 <= j < i ==> rs[j].Success?
  {
    if rs != [] {
      var tail := rs[1..];
      CollectMeaning(tail);
      assert forall i :: 1 <= i < |rs| ==> rs[i] == tail[i - 1];
      if rs[0].Success? && Collect(tail).Failure? {
        var i :| 0 <= i < |tail| && tail[i] == Failure(Collect(tail).error)
          && forall j :: 0 <= j < i ==> tail[j].Success?;
        assert rs[i + 1] == Failure(Collect(rs).error);
      }
      if Collect(rs).Success? {
        forall n | n in Collect(rs).value
          ensures exists i :: 0 <= i < |rs| && n in rs[i].value
        {
          if n !in rs[0].value {
            var i :| 0 <= i < |tail| && n in tail[i].value;
            assert n in rs[i + 1].value;
          }
        }
      }
    }
  }

  /** The pool succeeds exactly when every segment is readable; it then
      holds exactly the numbers some segment stands for, and otherwise
      reports the first unreadable segment's error. */
  lemma PoolMeaning(segments: seq<string>)
    ensures Pool(segments).Success? <==>
      forall i :: 0 <= i < |segments| ==> SegmentNumbers(segments[i]).Success?
    ensures Pool(segments).Success? ==> forall n ::
      n in Pool(segments).value <==>
        exists i :: 0 <= i < |segments| && n in SegmentNumbers(segments[i]).value
    ensures Pool(segments).Failure? ==> exists i ::
      && 0 <= i < |segments| && SegmentNumbers(segments[i]) == Failure(Pool(segments).error)
      && forall j :: 0 <= j < i ==> SegmentNumbers(segments[j]).Success?
  {
    CollectMeaning(Readings(segments));
    forall i | 0 <= i < |segments| ensures Readings(segments)[i] == SegmentNumbers(segments[i]) {
      ReadingAt(segments, i);
    }
  }

  /** `find_gaps(retrieved, executed)` as a reference: the retrieved numbers
      less the executed ones, the retrieved segments being read first. */
  function Gaps(retrieved: string, executed: string): Result<set<int>, GapError>
  {
    var have :- Pool(Split(retrieved, ','));
    var done :- Pool(Split(executed, ','));
    Success(have - done)
  }

  /** The two loops of `find_gaps`: each comma segment of the retrieved and
      then of the executed set is read in turn and its numbers added to that
      side's set; the result is the difference. */
  method FindGaps(retrieved: string, executed: string) returns (r: Result<set<int>, GapError>)
    ensures r == Gaps(retrieved, executed)
  {
    var have := PoolLoop(Split(retrieved, ','));
    if have.Failure? {
      return Failure(have.error);
    }
    var done := PoolLoop(Split(executed, ','));
    if done.Failure? {
      return Failure(done.error);
    }
    return Success(have.value - done.value);
  }

  /** One loop of `find_gaps`, with `set.update` and `set.add`. */
  method PoolLoop(segments: seq<string>) returns (r: Result<set<int>, GapError>)
    ensures r == Pool(segments)
  {
    ghost var rs := Readings(segments);
    var numbers: set<int> := {};
    var i := 0;
    CollectStart(rs);
    while i < |segments|
      invariant 0 <= i <= |segments|
      invariant Combine(numbers, Collect(rs[i..])) == Collect(rs)
    {
      var s := SegmentNumbers(segments[i]);
      ReadingAt(segments, i);
      if s.Failure? {
        CollectStop(rs, i, numbers);
        return Failure(s.error);
      }
      CollectStep(rs, i, numbers);
      numbers := numbers + s.value;
      i := i + 1;
    }
    CollectEnd(rs, numbers);
    return Success(numbers);
  }

  lemma CollectStart(rs: seq<Result<set<int>, GapError>>)
    ensures Combine({}, Collect(rs[0..])) == Collect(rs)
  {
    assert rs[0..] == rs;
    if Collect(rs).Success? {
      var v := Collect(rs).value;
      assert {} + v == v;
    }
  }

  /** A readable segment adds its numbers and moves on. */
  lemma CollectStep(rs: seq<Result<set<int>, GapError>>, i: nat, numbers: set<int>)
    requires i < |rs| && rs[i].Success?
    requires Combine(numbers, Collect(rs[i..])) == Collect(rs)
    ensures Combine(numbers + rs[i].value, Collect(rs[i + 1..])) == Collect(rs)
  {
    assert rs[i..][1..] == rs[i + 1..];
    if Collect(rs[i + 1..]).Success? {
      var v := Collect(rs[i + 1..]).value;
      assert numbers + (rs[i].value + v) == (numbers + rs[i].value) + v;
    }
  }

  /** An unreadable segment ends the loop with its error. */
  lemma CollectStop(rs: seq<Result<set<int>, GapError>>, i: nat, numbers: set<int>)
    requires i < |rs| && rs[i].Failure?
    requires Combine(numbers, Collect(rs[i..])) == Collect(rs)
    ensures Collect(rs) == Failure(rs[i].error)
  {
  }

  /** After the last segment the collected numbers are the result. */
  lemma CollectEnd(rs: seq<Result<set<int>, GapError>>, numbers: set<int>)
    requires Combine(numbers, Collect(rs[|rs|..])) == Collect(rs)
    ensures Collect(rs) == Success(numbers)
  {
    assert rs[|rs|..] == [];
    assert numbers + {} == numbers;
  }

  /** What the gaps are: the run fails exactly when some retrieved or
      executed segment cannot be read; otherwise a number is a gap exactly
      when some retrieved segment stands for it and no executed segment
      does, whatever the UUIDs. */
  lemma GapsMeaning(retrieved: string, executed: string)
    ensures var rs := Split(retrieved, ','); var es := Split(executed, ',');
      Gaps(retrieved, executed).Success? <==>
        (forall i :: 0 <= i < |rs| ==> SegmentNumbers(rs[i]).Success?) &&
        (forall i :: 0 <= i < |es| ==> SegmentNumbers(es[i]).Success?)
    ensures var rs := Split(retrieved, ','); var es := Split(executed, ',');
      Gaps(retrieved, executed).Success? ==> forall n ::
        n in Gaps(retrieved, executed).value <==>
          (exists i :: 0 <= i < |rs| && n in SegmentNumbers(rs[i]).value) &&
          !(exists i :: 0 <= i < |es| && n in SegmentNumbers(es[i]).value)
  {
    GapsOfPools(retrieved, executed);
    PoolMeaning(Split(retrieved, ','));
    PoolMeaning(Split(executed, ','));
  }

  lemma GapsOfPools(retrieved: string, executed: string)
    ensures var have := Pool(Split(retrieved, ',')); var done := Pool(Split(executed, ','));
      && (Gaps(retrieved, executed).Success? <==> have.Success? && done.Success?)
      && (Gaps(retrieved, executed).Success? ==> Gaps(retrieved, executed).value == have.value - done.value)
  {
  }

  /** An executed set with nothing in it does not parse: `"".split(':')`
      has one part, so `find_gaps` raises. */
  lemma EmptyExecutedFails(retrieved: string)
    ensures Gaps(retrieved, "").Failure?
  {
    assert Split("", ',') == [""];
    assert Split("", ':') == [""];
    if Pool(Split(retrieved, ',')).Success? {
      assert Pool([""]) == Failure(SegmentNotPair(""));
    }
  }

  // ---------------------------------------------------------------------
  // The command-line report

  /** Strictly ascending, as `sorted()` lists the elements of a set. */
  predicate Ascending(xs: seq<int>) {
    forall i, j :: 0 <= i < j < |xs| ==> xs[i] < xs[j]
  }

  /** `retrieved.split(':')[0]`: the text before the first colon, or all of
      it when there is none. */
  function ReportUuid(retrieved: string): (uuid: string)
    ensures ':' !in uuid && HasPrefix(retrieved, uuid)
    ensures |uuid| == |retrieved| || retrieved[|uuid|] == ':'
  {
    var parts := Split(retrieved, ':');
    SplitHead(retrieved, ':');
    parts[0]
  }

  lemma SplitHead(s: string, sep: char)
    ensures var head := Split(s, sep)[0];
      HasPrefix(s, head) && (|head| == |s| || s[|head|] == sep)
  {
    if sep in s {
      var i := IndexOf(s, sep);
      assert Split(s, sep)[0] == s[..i];
    }
  }

  /** Python's `repr` of a list of integers: `[1, 2, 3]`. */
  function ListRepr(xs: seq<int>): string {
    "[" + Items(xs) + "]"
  }

  function Items(xs: seq<int>): string {
    if xs == [] then ""
    else if |xs| == 1 then IntToDecimal(xs[0])
    else IntToDecimal(xs[0]) + ", " + Items(xs[1..])
  }

  /** The `uuid:gap` lines, one per gap in the order given. */
  function GapLines(uuid: string, sorted: seq<int>): (lines: seq<string>)
    ensures |lines| == |sorted|
    ensures forall k :: 0 <= k < |lines| ==>
      HasPrefix(lines[k], uuid + ":") && lines[k][|uuid| + 1..] == IntToDecimal(sorted[k])
  {
    seq(|sorted|, k requires 0 <= k < |sorted| => uuid + ":" + IntToDecimal(sorted[k]))
  }

  /** The `GTID_SUBTRACT:` summary line `uuid:min-max`, printed only when
      there is a gap. */
  function SummaryLine(uuid: string, sorted: seq<int>): (line: Option<string>)
  {
    if sorted == [] then None
    else Some(uuid + ":" + IntToDecimal(sorted[0]) + "-" + IntToDecimal(sorted[|sorted| - 1]))
  }

  /** The summary spans from the smallest gap to the largest: it is printed
      exactly when there is a gap, both its ends are gaps, and every gap
      lies within it. */
  lemma SummaryCovers(uuid: string, sorted: seq<int>)
    requires Ascending(sorted)
    ensures SummaryLine(uuid, sorted).Some? <==> |sorted| > 0
    ensures |sorted| > 0 ==> exists lo, hi ::
      && lo in sorted && hi in sorted
      && (forall n :: n in sorted ==> lo <= n <= hi)
      && SummaryLine(uuid, sorted) == Some(uuid + ":" + IntToDecimal(lo) + "-" + IntToDecimal(hi))
  {
    if |sorted| > 0 {
      var lo, hi := sorted[0], sorted[|sorted| - 1];
      assert lo in sorted && hi in sorted;
      forall n | n in sorted ensures lo <= n <= hi {
        var k :| 0 <= k < |sorted| && sorted[k] == n;
        assert k == 0 || sorted[0] < sorted[k];
        assert k == |sorted| - 1 || sorted[k] < sorted[|sorted| - 1];
      }
    }
  }

  /** The span is not the gaps: with gaps 1 and 3 the summary reads `1-3`,
      covering 2, which is not a gap. */
  lemma SummaryOverCovers(uuid: string)
    ensures SummaryLine(uuid, [1, 3]) == Some(uuid + ":1-3")
    ensures 2 !in [1, 3]
  {
    assert IntToDecimal(1) == "1" && IntToDecimal(3) == "3";
    assert uuid + ":" + "1" + "-" + "3" == uuid + ":1-3";
  }

  /** Everything the script prints after the two prompts, line by line,
      given `sorted(gaps)`: the gaps as a Python list, one `uuid:gap` line
      per gap, and, when there is a gap, an empty line, `GTID_SUBTRACT:` and
      the summary. The UUID is the retrieved text before its first colon. */
  function Report(retrieved: string, sorted: seq<int>): (lines: seq<string>)
    ensures |lines| == 1 + |sorted| + (if sorted == [] then 0 else 3)
    ensures lines[0] == "The gaps are: " + ListRepr(sorted)
    ensures lines[1..1 + |sorted|] == GapLines(ReportUuid(retrieved), sorted)
    ensures sorted != [] ==>
      lines[1 + |sorted|..] == ["", "GTID_SUBTRACT:", SummaryLine(ReportUuid(retrieved), sorted).value]
  {
    var uuid := ReportUuid(retrieved);
    var head := ["The gaps are: " + ListRepr(sorted)] + GapLines(uuid, sorted);
    match SummaryLine(uuid, sorted)
    case None => head
    case Some(line) => head + ["", "GTID_SUBTRACT:", line]
  }
}
