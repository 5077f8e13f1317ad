/** Expanding run-length GTID ranges into one GTID per transaction
    (`OracleGtidSetEntry.Explode`, `OracleGtidSet.Explode` and
    `parseErrantTransactions`). */
module Explode {
  import opened Wrappers
  import opened Text
  import opened GtidSet

  /** How a colon-separated token of an entry's ranges is read: the
      interval form `N-M` is tried first, then the single form `N`; any
      other token is ignored. */
  datatype Interval = Span(first: nat, last: nat) | Single(text: string) | Unmatched

  /** Classifies a token the way the two anchored regular expressions
      `^([0-9]+)[-]([0-9]+)$` and `^([0-9]+)$` do. A span is exactly two digit
      runs around one dash; a single is exactly a digit run, kept as written. */
  function Classify(token: string): (iv: Interval)
    ensures iv.Span? ==> exists a, b :: (IsDigits(a) && IsDigits(b) && token == a + "-" + b
                                        && iv.first == DecimalValue(a) && iv.last == DecimalValue(b))
    ensures iv.Single? <==> IsDigits(token)
    ensures iv.Single? ==> iv.text == token
  {
    var parts := Split(token, '-');
    if |parts| == 2 && IsDigits(parts[0]) && IsDigits(parts[1]) then
      assert token == parts[0] + "-" + parts[1];
      assert token[|parts[0]|] == '-';
      Span(DecimalValue(parts[0]), DecimalValue(parts[1]))
    else if IsDigits(token) then Single(token)
    else Unmatched
  }

  /** The converse for spans: two digit runs around a dash always read as
      the span they spell. */
  lemma ClassifySpan(a: string, b: string)
    requires IsDigits(a) && IsDigits(b)
    ensures Classify(a + "-" + b) == Span(DecimalValue(a), DecimalValue(b))
  {
    assert '-' !in a && '-' !in b by {
      assert forall i :: 0 <= i < |a| ==> IsDigit(a[i]);
      assert forall i :: 0 <= i < |b| ==> IsDigit(b[i]);
    }
    SplitJoin([a, b], '-');
    assert Join([a, b], '-') == a + "-" + b;
  }

  /** One GTID per transaction number `first..last`, ascending, each printed
      in decimal; nothing when `first > last`. */
  function SpanEntries(uuid: string, first: nat, last: nat): (gs: seq<Entry>)
    ensures |gs| == if first <= last then last - first + 1 else 0
    ensures forall k :: 0 <= k < |gs| ==>
      gs[k] == Entry(uuid, NatToDecimal(first + k))
    decreases if first <= last then last - first + 1 else 0
  {
    if first > last then []
    else
      var rest := SpanEntries(uuid, first + 1, last);
      assert forall k :: 1 <= k < |rest| + 1 ==> ([Entry(uuid, NatToDecimal(first))] + rest)[k] == rest[k - 1];
      [Entry(uuid, NatToDecimal(first))] + rest
  }

  /** The GTIDs one token contributes. */
  function ExplodeToken(uuid: string, token: string): seq<Entry>
  {
    match Classify(token)
    case Span(first, last) => SpanEntries(uuid, first, last)
    case Single(text) => [Entry(uuid, text)]
    case Unmatched => []
  }

  function ExplodeTokens(uuid: string, tokens: seq<string>): seq<Entry>
  {
    if tokens == [] then [] else ExplodeToken(uuid, tokens[0]) + ExplodeTokens(uuid, tokens[1..])
  }

  /** `OracleGtidSetEntry.Explode`: the ranges split at every colon, each
      token expanded in turn. */
  function ExplodeEntry(e: Entry): seq<Entry>
  {
    ExplodeTokens(e.uuid, Split(e.ranges, ':'))
  }

  /** `OracleGtidSet.Explode`: the entries' explosions, in entry order. */
  function ExplodeSet(s: GtidSet): seq<Entry>
  {
    if s == [] then [] else ExplodeEntry(s[0]) + ExplodeSet(s[1..])
  }

  // ---------------------------------------------------------------------
  // What the ranges denote

  /** The transaction numbers a token stands for. */
  function TokenNumbers(token: string): set<int>
  {
    match Classify(token)
    case Span(first, last) => Between(first, last)
    case Single(text) => {DecimalValue(text)}
    case Unmatched => {}
  }

  function TokensNumbers(tokens: seq<string>): set<int>
  {
    if tokens == [] then {} else TokenNumbers(tokens[0]) + TokensNumbers(tokens[1..])
  }

  /** The transaction numbers an entry's ranges stand for. */
  function EntryNumbers(e: Entry): set<int>
  {
    TokensNumbers(Split(e.ranges, ':'))
  }

  /** The transaction numbers of a list of single-transaction GTIDs. */
  function NumbersOf(gs: seq<Entry>): set<int>
  {
    set g | g in gs && IsDigits(g.ranges) :: DecimalValue(g.ranges)
  }

  /** Every GTID a token yields is a single transaction of the entry's UUID. */
  predicate SingleTransactionsOf(gs: seq<Entry>, uuid: string) {
    forall g :: g in gs ==> g.uuid == uuid && IsDigits(g.ranges)
  }

  lemma NumbersOfConcat(a: seq<Entry>, b: seq<Entry>)
    ensures NumbersOf(a + b) == NumbersOf(a) + NumbersOf(b)
  {
  }

  lemma ExplodeTokenMeaning(uuid: string, token: string)
    ensures SingleTransactionsOf(ExplodeToken(uuid, token), uuid)
    ensures NumbersOf(ExplodeToken(uuid, token)) == TokenNumbers(token)
  {
    match Classify(token)
    case Span(first, last) => SpanMeaning(uuid, first, last);
    case Single(text) =>
    case Unmatched =>
  }

  /** A span's GTIDs are single transactions of its UUID, numbered exactly
      `first..last`. */
  lemma SpanMeaning(uuid: string, first: nat, last: nat)
    ensures SingleTransactionsOf(SpanEntries(uuid, first, last), uuid)
    ensures NumbersOf(SpanEntries(uuid, first, last)) == Between(first, last)
  {
    var gs := SpanEntries(uuid, first, last);
    forall n: nat | first <= n <= last ensures n in NumbersOf(gs) {
      assert gs[n - first] in gs;
    }
  }

  lemma {:induction false} ExplodeTokensMeaning(uuid: string, tokens: seq<string>)
    ensures SingleTransactionsOf(ExplodeTokens(uuid, tokens), uuid)
    ensures NumbersOf(ExplodeTokens(uuid, tokens)) == TokensNumbers(tokens)
  {
    if tokens != [] {
      ExplodeTokenMeaning(uuid, tokens[0]);
      ExplodeTokensMeaning(uuid, tokens[1..]);
      NumbersOfConcat(ExplodeToken(uuid, tokens[0]), ExplodeTokens(uuid, tokens[1..]));
    }
  }

  /** Exploding an entry enumerates exactly the transactions its ranges
      denote: every result is one decimal transaction number of the entry's
      UUID, and the numbers covered are those of the entry's spans and
      singles, nothing more and nothing less. */
  lemma ExplodeEntryMeaning(e: Entry)
    ensures forall g :: g in ExplodeEntry(e) ==> g.uuid == e.uuid && IsDigits(g.ranges)
    ensures NumbersOf(ExplodeEntry(e)) == EntryNumbers(e)
  {
    ExplodeTokensMeaning(e.uuid, Split(e.ranges, ':'));
  }

  /** Exploding a concatenation of sets concatenates the explosions: the
      set's explosion is the entries' explosions laid end to end. */
  lemma {:induction false} ExplodeSetConcat(a: GtidSet, b: GtidSet)
    ensures ExplodeSet(a + b) == ExplodeSet(a) + ExplodeSet(b)
  {
    if a != [] {
      assert (a + b)[1..] == a[1..] + b;
      ExplodeSetConcat(a[1..], b);
    } else {
      assert a + b == b;
    }
  }

  /** Every GTID exploded from a parsed set is well formed with a decimal
      transaction number, and belongs to one of the set's UUIDs. */
  lemma {:induction false} ExplodeSetWellFormed(s: GtidSet)
    requires AllWellFormed(s)
    ensures forall g :: g in ExplodeSet(s) ==>
      WellFormed(g) && IsDigits(g.ranges) && exists i :: 0 <= i < |s| && s[i].uuid == g.uuid
  {
    if s != [] {
      ExplodeSetWellFormed(s[1..]);
      ExplodeEntryMeaning(s[0]);
      forall g | g in ExplodeSet(s)
        ensures WellFormed(g) && IsDigits(g.ranges) && exists i :: 0 <= i < |s| && s[i].uuid == g.uuid
      {
        if g in ExplodeEntry(s[0]) {
          DigitsWellFormed(g);
          assert s[0].uuid == g.uuid;
        } else {
          assert g in ExplodeSet(s[1..]);
          var i :| 0 <= i < |s[1..]| && s[1..][i].uuid == g.uuid;
          assert s[i + 1].uuid == g.uuid;
        }
      }
    }
  }

  lemma DigitsWellFormed(g: Entry)
    requires g.uuid != "" && ':' !in g.uuid && ',' !in g.uuid && !IsGoSpace(g.uuid[0])
    requires IsDigits(g.ranges)
    ensures WellFormed(g)
  {
    assert forall i :: 0 <= i < |g.ranges| ==> IsDigit(g.ranges[i]);
  }

  /** Each exploded transaction's text parses back as the set holding just
      that transaction. */
  lemma ExplodedTextsParse(s: GtidSet)
    requires AllWellFormed(s)
    ensures var gtids := ExplodeSet(s);
      forall k :: 0 <= k < |gtids| ==> ParseSet(EntryStrings(gtids)[k]) == Success([gtids[k]])
  {
    var gtids := ExplodeSet(s);
    ExplodeSetWellFormed(s);
    forall k | 0 <= k < |gtids| ensures ParseSet(EntryStrings(gtids)[k]) == Success([gtids[k]]) {
      assert gtids[k] in gtids;
      SerializeRoundTrip([gtids[k]]);
      assert Serialize([gtids[k]]) == EntryStrings(gtids)[k];
    }
  }

  /** `parseErrantTransactions`: fails exactly when the set text does not
      parse, with the same error; otherwise lists the text `uuid:n` of each
      exploded transaction, in order, and each of them parses back as the
      one-transaction set holding that transaction. */
  function ParseErrantTransactions(errant: string): (r: Result<seq<string>, ParseError>)
    ensures r.Failure? <==> ParseSet(errant).Failure?
    ensures r.Failure? ==> r.error == ParseSet(errant).error
    ensures r.Success? ==>
      var gtids := ExplodeSet(ParseSet(errant).value);
      && |r.value| == |gtids|
      && (forall k :: 0 <= k < |gtids| ==> r.value[k] == gtids[k].uuid + ":" + gtids[k].ranges)
      && (forall k :: 0 <= k < |gtids| ==> ParseSet(r.value[k]) == Success([gtids[k]]))
  {
    match ParseSet(errant)
    case Failure(e) => Failure(e)
    case Success(s) =>
      ExplodedTextsParse(s);
      var plan := EntryStrings(ExplodeSet(s));
      Success(plan)
  }
}
