/** The cases of `TestParseErrantTransactions` and
    `TestOracleGtidSetEntry_Explode` in pkg/gtids/gtid_test.go, stated for
    any UUID where that is possible and then for the test's own text. */
module ExplodeExamples {
  import opened Wrappers
  import opened Text
  import opened GtidSet
  import opened Explode

  /** The two server UUIDs the tests use. */
  const U1 := "1d1fff5a-c9bc-11ed-9c19-02a36d996b94"
  const U2 := "2af7e535-9255-11f0-87f8-76ae10baffb1"

  /** A digit-dash-digit token explodes to its span and holds no colon. */
  lemma SpanToken(uuid: string, a: string, b: string, token: string)
    requires IsDigits(a) && IsDigits(b) && token == a + "-" + b
    ensures ExplodeToken(uuid, token) == SpanEntries(uuid, DecimalValue(a), DecimalValue(b))
    ensures Split(token, ':') == [token]
  {
    ClassifySpan(a, b);
    assert forall i :: 0 <= i < |token| ==> IsDigit(token[i]) || token[i] == '-';
  }

  /** An entry whose ranges are one token explodes as that token. */
  lemma OneToken(e: Entry, t: string)
    requires Split(e.ranges, ':') == [t]
    ensures ExplodeEntry(e) == ExplodeToken(e.uuid, t)
  {
    assert ExplodeTokens(e.uuid, [t]) == ExplodeToken(e.uuid, t) + ExplodeTokens(e.uuid, []);
  }

  lemma SpanStep(uuid: string, first: nat, last: nat)
    requires first <= last
    ensures SpanEntries(uuid, first, last) == [Entry(uuid, NatToDecimal(first))] + SpanEntries(uuid, first + 1, last)
  {
  }

  /** A one-digit number is written as its digit, and that digit reads
      back as the number. */
  lemma DigitText(n: nat)
    requires n < 10
    ensures NatToDecimal(n) == [DigitChar(n)] && IsDigits([DigitChar(n)]) && DecimalValue([DigitChar(n)]) == n
  {
  }

  lemma SpanOfThree(uuid: string, first: nat)
    ensures SpanEntries(uuid, first, first + 2) ==
      [Entry(uuid, NatToDecimal(first)), Entry(uuid, NatToDecimal(first + 1)), Entry(uuid, NatToDecimal(first + 2))]
  {
    SpanStep(uuid, first, first + 2);
    SpanStep(uuid, first + 1, first + 2);
    SpanStep(uuid, first + 2, first + 2);
    assert SpanEntries(uuid, first + 3, first + 2) == [];
  }

  /** The test UUIDs hold no separator. */
  lemma U1Plain()
    ensures ':' !in U1 && ',' !in U1
  {
  }

  lemma U2Plain()
    ensures ':' !in U2 && ',' !in U2
  {
  }

  lemma U1WellFormed()
    ensures WellFormed(Entry(U1, "1-3"))
  {
    U1Plain();
  }

  lemma U2WellFormed()
    ensures WellFormed(Entry(U2, "5-7"))
  {
    U2Plain();
  }

  lemma SpanOneToThree(uuid: string)
    ensures ExplodeEntry(Entry(uuid, "1-3")) == [Entry(uuid, "1"), Entry(uuid, "2"), Entry(uuid, "3")]
  {
    DigitText(1);
    DigitText(2);
    DigitText(3);
    SpanToken(uuid, "1", "3", "1-3");
    OneToken(Entry(uuid, "1-3"), "1-3");
    SpanOfThree(uuid, 1);
  }

  lemma SpanFiveToSeven(uuid: string)
    ensures ExplodeEntry(Entry(uuid, "5-7")) == [Entry(uuid, "5"), Entry(uuid, "6"), Entry(uuid, "7")]
  {
    DigitText(5);
    DigitText(6);
    DigitText(7);
    SpanToken(uuid, "5", "7", "5-7");
    OneToken(Entry(uuid, "5-7"), "5-7");
    SpanOfThree(uuid, 5);
  }

  lemma TwoEntriesText(u1: string, u2: string)
    ensures Serialize([Entry(u1, "1-3"), Entry(u2, "5-7")]) == u1 + ":1-3," + u2 + ":5-7"
  {
    var strs := EntryStrings([Entry(u1, "1-3"), Entry(u2, "5-7")]);
    assert strs[0] == u1 + ":1-3" && strs[1] == u2 + ":5-7";
    assert strs == [u1 + ":1-3", u2 + ":5-7"];
    assert Join([u2 + ":5-7"], ',') == u2 + ":5-7";
    assert u1 + ":1-3," + u2 + ":5-7" == (u1 + ":1-3") + [','] + (u2 + ":5-7");
  }

  lemma ExplodeTwo(e1: Entry, e2: Entry)
    ensures ExplodeSet([e1, e2]) == ExplodeEntry(e1) + ExplodeEntry(e2)
  {
    assert [e1, e2][1..] == [e2];
    assert ExplodeSet([e2]) == ExplodeEntry(e2) + ExplodeSet([]);
  }

  lemma TwoEntriesExplode(u1: string, u2: string)
    ensures ExplodeSet([Entry(u1, "1-3"), Entry(u2, "5-7")]) ==
      [Entry(u1, "1"), Entry(u1, "2"), Entry(u1, "3"), Entry(u2, "5"), Entry(u2, "6"), Entry(u2, "7")]
  {
    ExplodeTwo(Entry(u1, "1-3"), Entry(u2, "5-7"));
    SpanOneToThree(u1);
    SpanFiveToSeven(u2);
    Concat3(Entry(u1, "1"), Entry(u1, "2"), Entry(u1, "3"), Entry(u2, "5"), Entry(u2, "6"), Entry(u2, "7"));
  }

  lemma Concat3<T>(x1: T, x2: T, x3: T, y1: T, y2: T, y3: T)
    ensures [x1, x2, x3] + [y1, y2, y3] == [x1, x2, x3, y1, y2, y3]
  {
  }

  lemma SixTexts(u1: string, u2: string)
    ensures EntryStrings([Entry(u1, "1"), Entry(u1, "2"), Entry(u1, "3"), Entry(u2, "5"), Entry(u2, "6"), Entry(u2, "7")])
      == [u1 + ":1", u1 + ":2", u1 + ":3", u2 + ":5", u2 + ":6", u2 + ":7"]
  {
    var strs := EntryStrings([Entry(u1, "1"), Entry(u1, "2"), Entry(u1, "3"), Entry(u2, "5"), Entry(u2, "6"), Entry(u2, "7")]);
    assert strs[0] == u1 + ":1" && strs[1] == u1 + ":2" && strs[2] == u1 + ":3";
    assert strs[3] == u2 + ":5" && strs[4] == u2 + ":6" && strs[5] == u2 + ":7";
  }

  /** The errant-transaction list of a printed well-formed set is the texts of
      its explosion. */
  lemma ErrantOfPrinted(s: GtidSet)
    requires AllWellFormed(s)
    ensures ParseErrantTransactions(Serialize(s)) == Success(EntryStrings(ExplodeSet(s)))
  {
    SerializeRoundTrip(s);
  }

  /** The test "multiple UUIDs with ranges", for any two UUIDs that can
      appear in a set. */
  lemma TwoRangesExplode(u1: string, u2: string)
    requires WellFormed(Entry(u1, "1-3")) && WellFormed(Entry(u2, "5-7"))
    ensures ParseErrantTransactions(u1 + ":1-3," + u2 + ":5-7") == Success([
      u1 + ":1", u1 + ":2", u1 + ":3", u2 + ":5", u2 + ":6", u2 + ":7"])
  {
    var s := [Entry(u1, "1-3"), Entry(u2, "5-7")];
    assert AllWellFormed(s) by {
      assert forall i :: 0 <= i < 2 ==> WellFormed(s[i]);
    }
    ErrantOfPrinted(s);
    TwoEntriesText(u1, u2);
    TwoEntriesExplode(u1, u2);
    SixTexts(u1, u2);
  }

  /** "multiple UUIDs with ranges", on the test's own UUIDs. */
  lemma TwoUuidsExample()
    ensures ParseErrantTransactions(U1 + ":1-3," + U2 + ":5-7") == Success([
      U1 + ":1", U1 + ":2", U1 + ":3", U2 + ":5", U2 + ":6", U2 + ":7"])
  {
    U1WellFormed();
    U2WellFormed();
    TwoRangesExplode(U1, U2);
  }

  /** "empty string": no errant transactions. */
  lemma EmptyExample()
    ensures ParseErrantTransactions("") == Success([])
  {
    ErrantOfPrinted([]);
    assert Serialize([]) == "";
    assert EntryStrings(ExplodeSet([])) == [];
  }

  /** A blank-free, comma-free text without a colon is rejected as such. */
  lemma NoColonRejected(t: string)
    requires t != "" && !IsGoSpace(t[0]) && !IsGoSpace(t[|t| - 1])
    requires ',' !in t && ':' !in t
    ensures ParseErrantTransactions(t) == Failure(NoColon(t))
  {
    TrimmedNoComma(t);
    assert ParseEntry(t) == Failure(NoColon(t));
  }

  /** A trimmed comma-free text is one segment, handed to the entry parser
      as it is. */
  lemma TrimmedNoComma(t: string)
    requires t != "" && !IsGoSpace(t[0]) && !IsGoSpace(t[|t| - 1]) && ',' !in t
    ensures TrimSpace(t) == t && NonBlank(Split(t, ',')) == [t]
  {
    assert !IsGoSpace(t[0]) && !IsGoSpace(t[|t| - 1]);
    assert TrimSpace(t) == t;
    assert Split(t, ',') == [t];
    NonBlankKeeps(t, []);
    assert [t] + [] == [t];
  }

  /** "invalid GTID format": rejected for want of a colon. */
  lemma InvalidFormatExample()
    ensures ParseErrantTransactions("invalid-gtid-format") == Failure(NoColon("invalid-gtid-format"))
  {
    var t := "invalid-gtid-format";
    assert ',' !in t && ':' !in t;
    NoColonRejected(t);
  }

  /** "missing colon": a UUID run into its number is rejected. */
  lemma MissingColonExample()
    ensures ParseErrantTransactions("1d1fff5a-c9bc-11ed-9c19-02a36d996b941").Failure?
  {
    var t := "1d1fff5a-c9bc-11ed-9c19-02a36d996b941";
    assert t == U1 + "1";
    U1Plain();
    assert ',' !in t && ':' !in t;
    NoColonRejected(t);
  }

  lemma SingleText(u: string)
    ensures Serialize([Entry(u, "1")]) == u + ":1"
    ensures EntryStrings([Entry(u, "1")]) == [u + ":1"]
  {
    assert EntryString(Entry(u, "1")) == u + ":1";
  }

  lemma ReversedText(u: string)
    ensures Serialize([Entry(u, "5-1")]) == u + ":5-1"
  {
    assert EntryString(Entry(u, "5-1")) == u + ":5-1";
  }

  lemma SingleToken(u: string)
    ensures ExplodeSet([Entry(u, "1")]) == [Entry(u, "1")]
  {
    assert IsDigits("1");
    assert Classify("1") == Single("1");
    assert Split("1", ':') == ["1"];
    assert ExplodeToken(u, "1") == [Entry(u, "1")];
    assert ExplodeSet([Entry(u, "1")]) == ExplodeEntry(Entry(u, "1")) + ExplodeSet([]);
    assert ExplodeEntry(Entry(u, "1")) == ExplodeTokens(u, ["1"]);
  }

  /** Any UUID text is accepted: a single transaction comes back as written. */
  lemma SingleExplode(u: string)
    requires WellFormed(Entry(u, "1"))
    ensures ParseErrantTransactions(u + ":1") == Success([u + ":1"])
  {
    ErrantOfPrinted([Entry(u, "1")]);
    SingleText(u);
    SingleToken(u);
  }

  const NotAUuid := "not-a-uuid"

  /** "malformed UUID - actually valid". */
  lemma NotAUuidExample()
    ensures ParseErrantTransactions(NotAUuid + ":1") == Success([NotAUuid + ":1"])
  {
    assert ':' !in NotAUuid && ',' !in NotAUuid;
    SingleExplode(NotAUuid);
  }

  lemma ReversedToken(u: string)
    ensures ExplodeSet([Entry(u, "5-1")]) == []
  {
    DigitText(5);
    DigitText(1);
    SpanToken(u, "5", "1", "5-1");
    assert ExplodeSet([Entry(u, "5-1")]) == ExplodeEntry(Entry(u, "5-1")) + ExplodeSet([]);
    assert ExplodeEntry(Entry(u, "5-1")) == ExplodeTokens(u, ["5-1"]);
  }

  /** A reversed interval such as `5-1` stands for no transaction. */
  lemma ReversedExplode(u: string)
    requires WellFormed(Entry(u, "5-1"))
    ensures ParseErrantTransactions(u + ":5-1") == Success([])
  {
    ErrantOfPrinted([Entry(u, "5-1")]);
    ReversedText(u);
    ReversedToken(u);
  }

  /** "reverse range - produces no entries". */
  lemma ReversedExample()
    ensures ParseErrantTransactions(U1 + ":5-1") == Success([])
  {
    U1Plain();
    ReversedExplode(U1);
  }

  lemma ColonTokens()
    ensures Split("1-2:5-6", ':') == ["1-2", "5-6"]
  {
    assert ':' !in "1-2" && ':' !in "5-6";
    SplitJoin(["1-2", "5-6"], ':');
    assert Join(["1-2", "5-6"], ':') == "1-2:5-6";
  }

  lemma SpanOneToTwo(u: string)
    ensures ExplodeToken(u, "1-2") == [Entry(u, "1"), Entry(u, "2")]
  {
    DigitText(1);
    DigitText(2);
    SpanToken(u, "1", "2", "1-2");
    SpanStep(u, 1, 2);
    SpanStep(u, 2, 2);
    assert SpanEntries(u, 3, 2) == [];
  }

  lemma SpanFiveToSix(u: string)
    ensures ExplodeToken(u, "5-6") == [Entry(u, "5"), Entry(u, "6")]
  {
    DigitText(5);
    DigitText(6);
    SpanToken(u, "5", "6", "5-6");
    SpanStep(u, 5, 6);
    SpanStep(u, 6, 6);
    assert SpanEntries(u, 7, 6) == [];
  }

  lemma TwoTokens(e: Entry, t1: string, t2: string)
    requires Split(e.ranges, ':') == [t1, t2]
    ensures ExplodeEntry(e) == ExplodeToken(e.uuid, t1) + ExplodeToken(e.uuid, t2)
  {
    assert [t1, t2][1..] == [t2];
    assert ExplodeTokens(e.uuid, [t2]) == ExplodeToken(e.uuid, t2) + ExplodeTokens(e.uuid, []);
  }

  /** The test "multiple ranges": colon-separated intervals are expanded
      one after the other. */
  lemma MultipleRangesExplode(u: string)
    ensures ExplodeEntry(Entry(u, "1-2:5-6")) == [Entry(u, "1"), Entry(u, "2"), Entry(u, "5"), Entry(u, "6")]
  {
    ColonTokens();
    TwoTokens(Entry(u, "1-2:5-6"), "1-2", "5-6");
    SpanOneToTwo(u);
    SpanFiveToSix(u);
  }
}
