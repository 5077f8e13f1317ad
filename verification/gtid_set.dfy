/** The textual GTID set of the Go package (`OracleGtidSetEntry` and
    `OracleGtidSet`): parsing `uuid:ranges,uuid:ranges`, printing it back,
    and the UUID filters. Ranges are kept as uninterpreted text here; the
    module Explode gives them meaning. */
module GtidSet {
  import opened Wrappers
  import opened Text

  /** One server identity's part of a set, e.g. `3E11FA47-...:1-5:11-18`.
      `ranges` is everything after the first colon, so it may itself hold
      colons. */
  datatype Entry = Entry(uuid: string, ranges: string)

  /** The entries in input order; a UUID may occur more than once. */
  type GtidSet = seq<Entry>

  /** Why an entry text was rejected. */
  datatype ParseError =
    | NoColon(text: string)   // no `:` at all
    | EmptyUuid               // nothing before the first `:`
    | EmptyRanges             // nothing after the first `:`

  /** `uuid:ranges`. */
  function EntryString(e: Entry): string {
    e.uuid + ":" + e.ranges
  }

  /** Parses one entry: trims Go whitespace, then splits at the first colon.
      On success the entry prints back to exactly the trimmed text, with a
      non-empty, colon-free UUID and non-empty ranges. */
  function ParseEntry(text: string): (r: Result<Entry, ParseError>)
    ensures ':' !in TrimSpace(text) ==> r == Failure(NoColon(TrimSpace(text)))
    ensures r.Success? ==>
      && EntryString(r.value) == TrimSpace(text)
      && r.value.uuid != "" && r.value.ranges != "" && ':' !in r.value.uuid
  {
    var t := TrimSpace(text);
    if ':' !in t then Failure(NoColon(t))
    else
      var i := IndexOf(t, ':');
      var uuid := t[..i];
      var ranges := t[i + 1..];
      FirstColonCut(t);
      if uuid == "" then Failure(EmptyUuid)
      else if ranges == "" then Failure(EmptyRanges)
      else Success(Entry(uuid, ranges))
  }

  /** A text cut at its first colon: the colon-free part before it, the
      colon, and the rest. */
  lemma FirstColonCut(t: string)
    requires ':' in t
    ensures var i := IndexOf(t, ':');
      t == t[..i] + ":" + t[i + 1..] && ':' !in t[..i]
  {
    var i := IndexOf(t, ':');
    assert t == t[..i] + [t[i]] + t[i + 1..];
  }

  /** The complete behaviour of entry parsing once the trimmed text is cut at
      its first colon: it fails exactly when one side is empty, and otherwise
      yields the two sides unchanged. */
  lemma ParseEntryAtFirstColon(text: string, uuid: string, ranges: string)
    requires TrimSpace(text) == uuid + ":" + ranges && ':' !in uuid
    ensures uuid == "" ==> ParseEntry(text) == Failure(EmptyUuid)
    ensures uuid != "" && ranges == "" ==> ParseEntry(text) == Failure(EmptyRanges)
    ensures uuid != "" && ranges != "" ==> ParseEntry(text) == Success(Entry(uuid, ranges))
  {
    var t := TrimSpace(text);
    assert t[|uuid|] == ':' && t[..|uuid|] == uuid;
    IndexOfIsFirst(t, ':', |uuid|);
    assert t[|uuid| + 1..] == ranges;
  }

  /** What every parsed entry satisfies: both parts non-empty, no separator
      inside them, and no whitespace at the outer ends of `uuid:ranges`. */
  predicate WellFormed(e: Entry) {
    && e.uuid != "" && e.ranges != ""
    && ':' !in e.uuid && ',' !in e.uuid && ',' !in e.ranges
    && !IsGoSpace(e.uuid[0]) && !IsGoSpace(e.ranges[|e.ranges| - 1])
  }

  predicate AllWellFormed(s: GtidSet) {
    forall i :: 0 <= i < |s| ==> WellFormed(s[i])
  }

  lemma EntryRoundTrip(e: Entry)
    requires WellFormed(e)
    ensures ParseEntry(EntryString(e)) == Success(e)
  {
    var t := EntryString(e);
    assert t[0] == e.uuid[0] && t[|t| - 1] == e.ranges[|e.ranges| - 1];
    ParseEntryAtFirstColon(t, e.uuid, e.ranges);
  }

  /** The comma segments that are not blank, trimmed: those `NewOracleGtidSet`
      hands to the entry parser, in order. */
  function NonBlank(segments: seq<string>): seq<string>
  {
    if segments == [] then []
    else
      (if TrimSpace(segments[0]) == "" then [] else [TrimSpace(segments[0])])
      + NonBlank(segments[1..])
  }

  lemma {:induction false} NonBlankNoComma(segments: seq<string>)
    requires forall i :: 0 <= i < |segments| ==> ',' !in segments[i]
    ensures forall i :: 0 <= i < |NonBlank(segments)| ==> ',' !in NonBlank(segments)[i]
  {
    if segments != [] {
      NonBlankNoComma(segments[1..]);
      TrimSpaceKeeps(segments[0], ',');
    }
  }

  /** An entry parsed from a trimmed, comma-free text is well formed. */
  lemma ParsedEntryWellFormed(t: string)
    requires t != "" && !IsGoSpace(t[0]) && !IsGoSpace(t[|t| - 1]) && TrimSpace(t) == t
    requires ',' !in t
    requires ParseEntry(t).Success?
    ensures WellFormed(ParseEntry(t).value)
  {
    var e := ParseEntry(t).value;
    assert EntryString(e) == t;
    assert e.uuid[0] == t[0];
    assert e.ranges[|e.ranges| - 1] == t[|t| - 1];
    assert forall j :: 0 <= j < |e.uuid| ==> e.uuid[j] == t[j];
    assert forall j :: 0 <= j < |e.ranges| ==> e.ranges[j] == t[|e.uuid| + 1 + j];
  }

  lemma ParsedSegmentsWellFormed(segments: seq<string>)
    requires forall i :: 0 <= i < |segments| ==> ',' !in segments[i]
    ensures var r := MapAll(NonBlank(segments), ParseEntry);
      r.Success? ==> AllWellFormed(r.value)
  {
    var r := MapAll(NonBlank(segments), ParseEntry);
    if r.Success? {
      var nb := NonBlank(segments);
      forall k | 0 <= k < |r.value| ensures WellFormed(r.value[k]) {
        assert ParseEntry(nb[k]) == Success(r.value[k]);
        ParsedSegmentWellFormed(segments, k);
      }
    }
  }

  lemma ParsedSegmentWellFormed(segments: seq<string>, k: nat)
    requires forall i :: 0 <= i < |segments| ==> ',' !in segments[i]
    requires k < |NonBlank(segments)| && ParseEntry(NonBlank(segments)[k]).Success?
    ensures WellFormed(ParseEntry(NonBlank(segments)[k]).value)
  {
    NonBlankNoComma(segments);
    NonBlankTrimmed(segments, k);
    ParsedEntryWellFormed(NonBlank(segments)[k]);
  }

  /** The segments `NewOracleGtidSet` parses: the trimmed text split at
      every comma, each segment trimmed, blank ones dropped, in order. */
  function Segments(text: string): seq<string> {
    NonBlank(Split(TrimSpace(text), ','))
  }

  /** `NewOracleGtidSet`: empty or whitespace-only text is the empty set;
      otherwise the trimmed text is split at every comma, blank segments are
      skipped and the others parsed in order, failing on the first bad one
      (`ParseSetSpec` spells this out). Every parsed entry is well formed. */
  function ParseSet(text: string): (r: Result<GtidSet, ParseError>)
    ensures (forall i :: 0 <= i < |text| ==> IsGoSpace(text[i])) ==> r == Success([])
    ensures r.Success? ==> AllWellFormed(r.value)
  {
    TrimSpaceEmpty(text);
    var t := TrimSpace(text);
    if t == "" then Success([])
    else
      var segments := Split(t, ',');
      ParsedSegmentsWellFormed(segments);
      MapAll(NonBlank(segments), ParseEntry)
  }

  /** Parsing a set is parsing its segments one by one: it fails exactly
      when some segment fails, with the error of the first one that does;
      otherwise it holds one entry per segment, in segment order, each the
      parse of its segment. */
  lemma ParseSetSpec(text: string)
    ensures var r := ParseSet(text);
      var nb := Segments(text);
      && (r.Failure? <==> exists k :: 0 <= k < |nb| && ParseEntry(nb[k]).Failure?)
      && (r.Failure? ==> exists k :: (0 <= k < |nb| && ParseEntry(nb[k]) == Failure(r.error)
            && forall j :: 0 <= j < k ==> ParseEntry(nb[j]).Success?))
      && (r.Success? ==> |r.value| == |nb| && forall k :: 0 <= k < |nb| ==> ParseEntry(nb[k]) == Success(r.value[k]))
  {
    ParseSetIsMapAll(text);
    var nb := Segments(text);
    var m := MapAll(nb, ParseEntry);
    if m.Success? {
      forall k | 0 <= k < |nb| ensures ParseEntry(nb[k]) == Success(m.value[k]) {
      }
    }
  }

  lemma ParseSetIsMapAll(text: string)
    ensures ParseSet(text) == MapAll(Segments(text), ParseEntry)
  {
    if TrimSpace(text) == "" {
      assert Split("", ',') == [""];
      assert TrimSpace("") == "" by { TrimSpaceEmpty(""); }
      assert NonBlank([""]) == [] + NonBlank([]);
    }
  }

  lemma {:induction false} NonBlankTrimmed(segments: seq<string>, k: nat)
    requires k < |NonBlank(segments)|
    ensures var t := NonBlank(segments)[k];
      t != "" && !IsGoSpace(t[0]) && !IsGoSpace(t[|t| - 1]) && TrimSpace(t) == t
  {
    if TrimSpace(segments[0]) == "" {
      NonBlankTrimmed(segments[1..], k);
    } else if k > 0 {
      NonBlankTrimmed(segments[1..], k - 1);
    }
  }

  /** `OracleGtidSet.String`: the entries' `uuid:ranges` texts joined by commas. */
  function Serialize(s: GtidSet): string {
    Join(EntryStrings(s), ',')
  }

  function EntryStrings(s: GtidSet): seq<string> {
    seq(|s|, i requires 0 <= i < |s| => EntryString(s[i]))
  }

  /** `OracleGtidSet.IsEmpty`: a set is empty exactly when it prints as the
      empty string. */
  function IsEmpty(s: GtidSet): (b: bool)
    ensures b <==> Serialize(s) == ""
  {
    assert |s| > 0 ==> |Serialize(s)| >= |EntryString(s[0])|;
    |s| == 0
  }

  lemma {:induction false} EntryStringsNonBlank(s: GtidSet)
    requires AllWellFormed(s)
    ensures NonBlank(EntryStrings(s)) == EntryStrings(s)
  {
    if s != [] {
      var rest := EntryStrings(s[1..]);
      assert EntryStrings(s) == [EntryString(s[0])] + rest;
      EntryStringTrimmed(s[0]);
      EntryStringsNonBlank(s[1..]);
      NonBlankKeeps(EntryString(s[0]), rest);
    }
  }

  /** Segments after a printed set's entries are filtered on their own. */
  lemma {:induction false} EntryStringsThenNonBlank(s: GtidSet, ys: seq<string>)
    requires AllWellFormed(s)
    ensures NonBlank(EntryStrings(s) + ys) == EntryStrings(s) + NonBlank(ys)
  {
    if s == [] {
      assert EntryStrings(s) + ys == ys;
      assert EntryStrings(s) + NonBlank(ys) == NonBlank(ys);
    } else {
      var e, rest := EntryString(s[0]), EntryStrings(s[1..]);
      assert EntryStrings(s) == [e] + rest;
      EntryStringTrimmed(s[0]);
      EntryStringsThenNonBlank(s[1..], ys);
      NonBlankKeeps(e, rest + ys);
      calc {
        NonBlank(EntryStrings(s) + ys);
        { ConcatAssoc([e], rest, ys); }
        NonBlank([e] + (rest + ys));
        [e] + NonBlank(rest + ys);
        [e] + (rest + NonBlank(ys));
        { ConcatAssoc([e], rest, NonBlank(ys)); }
        ([e] + rest) + NonBlank(ys);
      }
    }
  }

  /** Blank segments are skipped wherever they stand: a printed set with
      an empty and a whitespace-only segment appended parses as the set. */
  lemma BlankSegmentsSkipped(s: GtidSet)
    requires AllWellFormed(s)
    ensures ParseSet(Serialize(s) + ", ,") == Success(s)
  {
    var t := Serialize(s) + ", ,";
    if s == [] {
      assert t == ", ,";
      OnlyBlankSegments();
    } else {
      PrintedThenBlankSegments(s);
      ParseEntryStrings(s);
    }
    ParseSetIsMapAll(t);
  }

  /** No entry text holds a comma. */
  lemma EntryStringsNoComma(s: GtidSet)
    requires AllWellFormed(s)
    ensures forall i :: 0 <= i < |EntryStrings(s)| ==> ',' !in EntryStrings(s)[i]
  {
    forall i | 0 <= i < |EntryStrings(s)| ensures ',' !in EntryStrings(s)[i] {
      assert EntryStrings(s)[i] == s[i].uuid + ":" + s[i].ranges;
    }
  }

  /** Text that has nothing to trim is cut exactly at its separators. */
  lemma SegmentsOfJoin(parts: seq<string>)
    requires |parts| > 0
    requires forall i :: 0 <= i < |parts| ==> ',' !in parts[i]
    requires TrimSpace(Join(parts, ',')) == Join(parts, ',')
    ensures Segments(Join(parts, ',')) == NonBlank(parts)
  {
    SplitJoin(parts, ',');
  }

  /** The segments `" "` and `""` are both blank. */
  lemma BlankTail()
    ensures NonBlank([" ", ""]) == []
    ensures Join([" ", ""], ',') == " ,"
  {
    BlanksTrimmed();
    BlankTailDropped();
  }

  lemma BlanksTrimmed()
    ensures TrimSpace("") == "" && TrimSpace(" ") == ""
  {
    TrimSpaceEmpty("");
    TrimSpaceEmpty(" ");
  }

  lemma BlankTailDropped()
    requires TrimSpace("") == "" && TrimSpace(" ") == ""
    ensures NonBlank([" ", ""]) == []
  {
    assert [" ", ""][1..] == [""];
    assert [""][1..] == [];
  }

  lemma OnlyBlankSegments()
    ensures Segments(", ,") == []
  {
    var parts := ["", " ", ""];
    BlanksTrimmed();
    BlankTail();
    assert parts[1..] == [" ", ""];
    JoinOfBlanks();
    EndsTrimmed(", ,");
    NoCommaConcat([""], [" ", ""]);
    assert [""] + [" ", ""] == parts;
    SegmentsOfJoin(parts);
  }

  lemma JoinOfBlanks()
    ensures Join(["", " ", ""], ',') == ", ,"
  {
    var parts := ["", " ", ""];
    assert parts[1..] == [" ", ""];
    assert Join([" ", ""], ',') == " ," by { BlankTail(); }
    assert Join(parts, ',') == "" + [','] + " ,";
  }

  /** Text starting and ending outside the whitespace class has nothing to
      trim. */
  lemma EndsTrimmed(t: string)
    requires t != [] && !IsGoSpace(t[0]) && !IsGoSpace(t[|t| - 1])
    ensures TrimSpace(t) == t
  {
  }

  lemma BlanksHaveNoComma(blanks: seq<string>)
    requires forall i :: 0 <= i < |blanks| ==> TrimSpace(blanks[i]) == ""
    ensures forall i :: 0 <= i < |blanks| ==> ',' !in blanks[i]
  {
    forall i | 0 <= i < |blanks| ensures ',' !in blanks[i] {
      TrimSpaceEmpty(blanks[i]);
    }
  }

  lemma NoCommaConcat(xs: seq<string>, ys: seq<string>)
    requires forall i :: 0 <= i < |xs| ==> ',' !in xs[i]
    requires forall i :: 0 <= i < |ys| ==> ',' !in ys[i]
    ensures forall i :: 0 <= i < |xs + ys| ==> ',' !in (xs + ys)[i]
  {
    forall i | 0 <= i < |xs + ys| ensures ',' !in (xs + ys)[i] {
      if i >= |xs| {
        assert (xs + ys)[i] == ys[i - |xs|];
      }
    }
  }

  /** A printed non-empty set starts with its first entry's UUID. */
  lemma SerializeStarts(s: GtidSet)
    requires AllWellFormed(s) && s != []
    ensures Serialize(s) != [] && Serialize(s)[0] == s[0].uuid[0]
  {
    var strs := EntryStrings(s);
    if |s| > 1 {
      assert Serialize(s) == strs[0] + [','] + Join(strs[1..], ',');
    }
    assert strs[0] == s[0].uuid + ":" + s[0].ranges;
  }

  lemma PrintedThenBlankSegments(s: GtidSet)
    requires AllWellFormed(s) && s != []
    ensures Segments(Serialize(s) + ", ,") == EntryStrings(s)
  {
    var strs, tail := EntryStrings(s), [" ", ""];
    var t := Serialize(s) + ", ,";
    BlankTail();
    BlanksTrimmed();
    assert tail[0] == " " && tail[1] == "";
    JoinAppend(strs, tail, ',');
    ConcatAssoc(Serialize(s), [','], " ,");
    assert [','] + " ," == ", ,";
    SerializeStarts(s);
    assert t[0] == Serialize(s)[0] && t[|t| - 1] == ',';
    EndsTrimmed(t);
    EntryStringsNoComma(s);
    BlanksHaveNoComma(tail);
    NoCommaConcat(strs, tail);
    SegmentsOfJoin(strs + tail);
    EntryStringsThenNonBlank(s, tail);
    assert strs + [] == strs;
  }

  lemma NonBlankKeeps(t: string, rest: seq<string>)
    requires t != "" && TrimSpace(t) == t
    ensures NonBlank([t] + rest) == [t] + NonBlank(rest)
  {
    assert ([t] + rest)[1..] == rest;
  }

  /** A well-formed entry's text has nothing to trim. */
  lemma EntryStringTrimmed(e: Entry)
    requires WellFormed(e)
    ensures EntryString(e) != "" && TrimSpace(EntryString(e)) == EntryString(e)
  {
    var t := EntryString(e);
    assert t[0] == e.uuid[0] && t[|t| - 1] == e.ranges[|e.ranges| - 1];
  }

  lemma ParseEntryStrings(s: GtidSet)
    requires AllWellFormed(s)
    ensures MapAll(EntryStrings(s), ParseEntry) == Success(s)
  {
    var strs := EntryStrings(s);
    forall k | 0 <= k < |s| ensures ParseEntry(strs[k]) == Success(s[k]) {
      EntryRoundTrip(s[k]);
    }
    var r := MapAll(strs, ParseEntry);
    assert r.Success?;
    assert r.value == s;
  }

  /** Printing a well-formed set and parsing the text back gives the same
      entries in the same order. */
  lemma {:induction false} SerializeRoundTrip(s: GtidSet)
    requires AllWellFormed(s)
    ensures ParseSet(Serialize(s)) == Success(s)
  {
    if s != [] {
      var strs := EntryStrings(s);
      var t := Serialize(s);
      var last := strs[|strs| - 1];
      assert last[|last| - 1] == s[|s| - 1].ranges[|s[|s| - 1].ranges| - 1];
      JoinLast(strs, ',');
      assert t[0] == s[0].uuid[0];
      assert TrimSpace(t) == t;
      forall i | 0 <= i < |strs| ensures ',' !in strs[i] {
        assert strs[i] == s[i].uuid + ":" + s[i].ranges;
      }
      SplitJoin(strs, ',');
      EntryStringsNonBlank(s);
      ParseEntryStrings(s);
    }
  }

  /** Any set produced by parsing survives a print-and-parse round trip. */
  lemma ParseRoundTrip(text: string)
    requires ParseSet(text).Success?
    ensures ParseSet(Serialize(ParseSet(text).value)) == ParseSet(text)
  {
    SerializeRoundTrip(ParseSet(text).value);
  }

}
