/** String helpers shared by the Go package and the Python script: the
    whitespace both runtimes trim, single-character
    splitting and joining, substring search and decimal digits. */
module Text {

  /** Go's `unicode.IsSpace`, the class `strings.TrimSpace` removes. It is
      also the class Python's `int()` strips around a number: the ASCII
      characters `\t \n \v \f \r` and space, and the non-ASCII
      whitespace, which `int()` turns into spaces first. The information
      separators U+001C..U+001F, whitespace to `str.isspace`, are not
      stripped. */
  predicate IsGoSpace(c: char) {
    || c == ' ' || c == '\t' || c == '\n' || c == '\U{000B}' || c == '\U{000C}' || c == '\r'
    || c == '\U{0085}' || c == '\U{00A0}' || c == '\U{1680}'
    || ('\U{2000}' <= c <= '\U{200A}')
    || c == '\U{2028}' || c == '\U{2029}' || c == '\U{202F}' || c == '\U{205F}' || c == '\U{3000}'
  }

  /** Drops the leading whitespace: the result is a suffix of `s` that does
      not start with whitespace. */
  function TrimLeftSpace(s: string): (r: string)
    ensures |r| <= |s| && r == s[|s| - |r|..]
    ensures r == [] || !IsGoSpace(r[0])
  {
    if |s| > 0 && IsGoSpace(s[0]) then TrimLeftSpace(s[1..]) else s
  }

  /** Only whitespace was dropped on the left. */
  lemma {:induction false} TrimLeftSkipsSpace(s: string)
    ensures forall i :: 0 <= i < |s| - |TrimLeftSpace(s)| ==> IsGoSpace(s[i])
  {
    if |s| > 0 && IsGoSpace(s[0]) {
      TrimLeftSkipsSpace(s[1..]);
      assert forall i :: 1 <= i < |s| ==> s[i] == s[1..][i - 1];
    }
  }

  /** Drops the trailing whitespace: the result is a prefix of `s` that does
      not end with whitespace. */
  function TrimRightSpace(s: string): (r: string)
    ensures |r| <= |s| && r == s[..|r|]
    ensures r == [] || !IsGoSpace(r[|r| - 1])
  {
    if |s| > 0 && IsGoSpace(s[|s| - 1]) then TrimRightSpace(s[..|s| - 1]) else s
  }

  /** Only whitespace was dropped on the right. */
  lemma {:induction false} TrimRightSkipsSpace(s: string)
    ensures forall i :: |TrimRightSpace(s)| <= i < |s| ==> IsGoSpace(s[i])
  {
    if |s| > 0 && IsGoSpace(s[|s| - 1]) {
      TrimRightSkipsSpace(s[..|s| - 1]);
    }
  }

  /** Go's `strings.TrimSpace`, and the stripping Python's `int()` does
      before reading a number: the result neither starts nor ends with
      whitespace, and a string that already neither starts nor ends with
      whitespace is returned unchanged. */
  function TrimSpace(s: string): (r: string)
    ensures r == [] || (!IsGoSpace(r[0]) && !IsGoSpace(r[|r| - 1]))
    ensures (s == [] || (!IsGoSpace(s[0]) && !IsGoSpace(s[|s| - 1]))) ==> r == s
  {
    TrimRightSpace(TrimLeftSpace(s))
  }

  /** Trimming leaves nothing exactly when every character is whitespace. */
  lemma TrimSpaceEmpty(s: string)
    ensures TrimSpace(s) == [] <==> forall i :: 0 <= i < |s| ==> IsGoSpace(s[i])
  {
    var l := TrimLeftSpace(s);
    TrimLeftSkipsSpace(s);
    if TrimSpace(s) == [] {
      TrimRightSkipsSpace(l);
      assert l == [];
    }
  }

  /** Trimming removes characters but adds none. */
  lemma TrimSpaceKeeps(s: string, c: char)
    ensures c in TrimSpace(s) ==> c in s
  {
    var l := TrimLeftSpace(s);
    var r := TrimSpace(s);
    if c in r {
      var j :| 0 <= j < |r| && r[j] == c;
      assert l[j] == c;
      assert s[|s| - |l| + j] == c;
    }
  }

  /** Position of the first `c` in `s`. */
  function IndexOf(s: string, c: char): (i: nat)
    requires c in s
    ensures i < |s| && s[i] == c && c !in s[..i]
  {
    if s[0] == c then 0
    else
      var j := IndexOf(s[1..], c);
      assert s[..1 + j] == [s[0]] + s[1..][..j];
      1 + j
  }

  lemma IndexOfIsFirst(s: string, c: char, j: nat)
    requires j < |s| && s[j] == c && c !in s[..j]
    ensures IndexOf(s, c) == j
  {
  }

  /** `parts` separated by single `sep` characters: Go's `strings.Join` and
      Python's `str.join` with a one-character separator. */
  function Join(parts: seq<string>, sep: char): string
  {
    if |parts| == 0 then ""
    else if |parts| == 1 then parts[0]
    else parts[0] + [sep] + Join(parts[1..], sep)
  }

  /** Go's `strings.Split(s, sep)` and Python's `s.split(sep)` for a
      one-character separator: the maximal `sep`-free pieces, always at least
      one (the empty string splits into one empty piece), and joining them
      back with `sep` restores `s`. */
  function Split(s: string, sep: char): (parts: seq<string>)
    ensures |parts| > 0
    ensures forall i :: 0 <= i < |parts| ==> sep !in parts[i]
    ensures Join(parts, sep) == s
    decreases |s|
  {
    if sep !in s then [s]
    else
      var i := IndexOf(s, sep);
      var rest := Split(s[i + 1..], sep);
      assert ([s[..i]] + rest)[1..] == rest;
      assert s == s[..i] + [sep] + s[i + 1..];
      [s[..i]] + rest
  }

  /** A separator that occurs splits the text in at least two parts. */
  lemma SplitAtSeparator(s: string, sep: char)
    requires sep in s
    ensures |Split(s, sep)| >= 2
  {
  }

  /** Splitting is the inverse of joining when no part holds the separator. */
  lemma {:induction false} SplitJoin(parts: seq<string>, sep: char)
    requires |parts| > 0
    requires forall i :: 0 <= i < |parts| ==> sep !in parts[i]
    ensures Split(Join(parts, sep), sep) == parts
  {
    if |parts| > 1 {
      var first := parts[0];
      var rest := Join(parts[1..], sep);
      var s := first + [sep] + rest;
      assert Join(parts, sep) == s;
      assert s[..|first|] == first && s[|first|] == sep;
      IndexOfIsFirst(s, sep, |first|);
      assert s[|first| + 1..] == rest;
      SplitJoin(parts[1..], sep);
      assert Split(s, sep) == [first] + Split(rest, sep);
      assert parts == [first] + parts[1..];
    }
  }

  /** Concatenation regroups freely; stated once for any element type so
      that proofs about lists of strings need not compare the strings. */
  lemma ConcatAssoc<T>(a: seq<T>, b: seq<T>, c: seq<T>)
    ensures a + (b + c) == (a + b) + c
  {
  }

  /** Joining two non-empty lists is joining each and putting one
      separator between. */
  lemma {:induction false} JoinAppend(xs: seq<string>, ys: seq<string>, sep: char)
    requires |xs| > 0 && |ys| > 0
    ensures Join(xs + ys, sep) == Join(xs, sep) + [sep] + Join(ys, sep)
  {
    if |xs| > 1 {
      JoinAppend(xs[1..], ys, sep);
      assert (xs + ys)[1..] == xs[1..] + ys;
    } else {
      assert (xs + ys)[1..] == ys;
    }
  }

  /** The last character of a join is that of its last part. */
  lemma {:induction false} JoinLast(parts: seq<string>, sep: char)
    requires |parts| > 0 && |parts[|parts| - 1]| > 0
    ensures var s := Join(parts, sep);
      |s| > 0 && s[|s| - 1] == parts[|parts| - 1][|parts[|parts| - 1]| - 1]
  {
    if |parts| > 1 {
      JoinLast(parts[1..], sep);
    }
  }

  predicate HasPrefix(s: string, p: string) {
    |p| <= |s| && s[..|p|] == p
  }

  /** `t` occurs in `s` at some position: Go's `strings.Contains`. */
  predicate Contains(s: string, t: string)
    decreases |s|
  {
    HasPrefix(s, t) || (|s| > 0 && Contains(s[1..], t))
  }

  lemma {:induction false} ContainsAt(s: string, t: string, i: nat)
    requires i + |t| <= |s| && s[i..i + |t|] == t
    ensures Contains(s, t)
    decreases i
  {
    if i > 0 {
      assert s[1..][i - 1..i - 1 + |t|] == s[i..i + |t|];
      ContainsAt(s[1..], t, i - 1);
    }
  }

  /** `Contains` finds exactly the occurrences: with none, it is false. */
  lemma {:induction false} ContainsOnlyAt(s: string, t: string)
    requires forall i :: 0 <= i <= |s| ==> !HasPrefix(s[i..], t)
    ensures !Contains(s, t)
    decreases |s|
  {
    assert s[0..] == s;
    if |s| > 0 {
      forall i | 0 <= i <= |s[1..]| ensures !HasPrefix(s[1..][i..], t) {
        assert s[1..][i..] == s[i + 1..];
      }
      ContainsOnlyAt(s[1..], t);
    }
  }

  /** A string containing `t + u` contains `t`. */
  lemma {:induction false} ContainsPrefixOfNeedle(s: string, t: string, u: string)
    requires Contains(s, t + u)
    ensures Contains(s, t)
    decreases |s|
  {
    if HasPrefix(s, t + u) {
      assert s[..|t|] == (t + u)[..|t|] == t;
    } else {
      ContainsPrefixOfNeedle(s[1..], t, u);
    }
  }

  predicate IsDigit(c: char) {
    '0' <= c <= '9'
  }

  /** A non-empty run of ASCII decimal digits: the regular expression `[0-9]+`. */
  predicate IsDigits(s: string) {
    |s| > 0 && forall i :: 0 <= i < |s| ==> IsDigit(s[i])
  }

  function DigitValue(c: char): nat
    requires IsDigit(c)
  {
    c as int - '0' as int
  }

  function DigitChar(d: nat): (c: char)
    requires d < 10
    ensures IsDigit(c) && DigitValue(c) == d
  {
    ('0' as int + d) as char
  }

  /** The number a run of decimal digits denotes (Go's `strconv.Atoi` without
      its 64-bit overflow check); the empty run denotes 0. */
  function DecimalValue(s: string): nat
    requires forall i :: 0 <= i < |s| ==> IsDigit(s[i])
  {
    if |s| == 0 then 0 else DecimalValue(s[..|s| - 1]) * 10 + DigitValue(s[|s| - 1])
  }

  /** The integers `first..last`, both included (Python's
      `range(first, last + 1)`); empty when `first > last`. */
  function Between(first: int, last: int): (ns: set<int>)
    ensures forall n :: n in ns <==> first <= n <= last
    decreases last - first
  {
    if first > last then {} else {first} + Between(first + 1, last)
  }

  /** Decimal text of `n` (Go's `fmt.Sprintf("%d", n)`, Python's `str(n)`):
      digits only, no leading zero, and it reads back as `n`. */
  function NatToDecimal(n: nat): (s: string)
    ensures IsDigits(s)
    ensures |s| == 1 || s[0] != '0'
    ensures DecimalValue(s) == n
  {
    if n < 10 then [DigitChar(n)]
    else
      var p := NatToDecimal(n / 10);
      var s := p + [DigitChar(n % 10)];
      assert s[..|s| - 1] == p;
      s
  }

  /** Decimal text of an integer, with a leading `-` when negative (Go's
      `%d`, Python's `str`). */
  function IntToDecimal(i: int): (s: string)
    ensures i >= 0 ==> s == NatToDecimal(i)
    ensures i < 0 ==> |s| > 1 && s[0] == '-' && s[1..] == NatToDecimal(-i)
  {
    if i < 0 then "-" + NatToDecimal(-i) else NatToDecimal(i)
  }

  /** The longest prefix of `s` made of digits: greedy `[0-9]*`. */
  function LeadingDigits(s: string): (r: string)
    ensures |r| <= |s| && r == s[..|r|]
    ensures forall i :: 0 <= i < |r| ==> IsDigit(r[i])
    ensures |r| == |s| || !IsDigit(s[|r|])
  {
    if |s| > 0 && IsDigit(s[0]) then
      var t := LeadingDigits(s[1..]);
      [s[0]] + t
    else ""
  }
}
