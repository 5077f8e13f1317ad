/** The version test of `determineReplicationCommands` (pkg/gtids/gtid.go):
    which spelling of the replication commands a server understands, decided
    from the text `SELECT VERSION()` returned. The query itself belongs to the
    module Repair. */
module Dialect {
  import opened Wrappers
  import opened Text

  /** `STOP/START SLAVE` and `SHOW SLAVE STATUS`, or their `REPLICA` forms. */
  datatype Dialect = Legacy | Modern
  {
    function StopCmd(): string {
      if Modern? then "STOP REPLICA" else "STOP SLAVE"
    }

    function StartCmd(): string {
      if Modern? then "START REPLICA" else "START SLAVE"
    }

    function StatusCmd(): string {
      if Modern? then "SHOW REPLICA STATUS" else "SHOW SLAVE STATUS"
    }
  }

  /** The largest value `strconv.Atoi` accepts on a 64-bit platform. */
  const MaxInt64: nat := 0x7FFF_FFFF_FFFF_FFFF

  /** The regular expression `8\.0\.(\d+)` matches starting at `i`: the four
      characters `8.0.` followed by at least one ASCII digit. */
  predicate MatchAt(v: string, i: nat) {
    i + 5 <= |v| && v[i..i + 4] == "8.0." && IsDigit(v[i + 4])
  }

  /** The leftmost match at or after `from`, as the regular-expression search
      finds it. */
  function FirstMatch(v: string, from: nat): (m: Option<nat>)
    ensures m.Some? ==> from <= m.value && MatchAt(v, m.value)
    ensures m.Some? ==> forall j :: from <= j < m.value ==> !MatchAt(v, j)
    ensures m.None? ==> forall j :: from <= j ==> !MatchAt(v, j)
    decreases |v| - from
  {
    if from + 5 > |v| then None
    else if MatchAt(v, from) then Some(from)
    else FirstMatch(v, from + 1)
  }

  /** The captured group of the leftmost match: the whole digit run after
      `8.0.`, since `\d+` is greedy. */
  function PatchText(v: string): (p: Option<string>)
    ensures p.Some? ==> IsDigits(p.value)
  {
    match FirstMatch(v, 0)
    case None => None
    case Some(i) => Some(LeadingDigits(v[i + 4..]))
  }

  /** `determineReplicationCommands` once the version text is known: the
      `REPLICA` commands exactly when the text holds `8.0`, the first
      `8.0.<digits>` in it has a patch number `strconv.Atoi` accepts, and that
      number is at least 22. */
  function ReplicationDialect(version: string): (d: Dialect)
  {
    if Contains(version, "8.0") then
      match PatchText(version)
      case None => Legacy
      case Some(p) =>
        if DecimalValue(p) <= MaxInt64 && DecimalValue(p) >= 22 then Modern else Legacy
    else Legacy
  }

  /** The patch number as the leftmost match spells it, stated without the
      search: `i` is the leftmost match and `digits` is the maximal digit run
      after its `8.0.`. */
  predicate LeftmostPatch(v: string, i: nat, digits: string) {
    && MatchAt(v, i)
    && (forall j :: 0 <= j < i ==> !MatchAt(v, j))
    && i + 4 + |digits| <= |v| && v[i + 4..i + 4 + |digits|] == digits
    && IsDigits(digits)
    && (i + 4 + |digits| == |v| || !IsDigit(v[i + 4 + |digits|]))
  }

  /** A match is an occurrence of `8.0`, so the `strings.Contains` guard
      never decides anything the match does not. */
  lemma MatchContains(v: string, i: nat)
    requires MatchAt(v, i)
    ensures Contains(v, "8.0")
  {
    assert v[i..i + 3] == v[i..i + 4][..3];
    ContainsAt(v, "8.0", i);
  }

  /** The dialect from the declarative reading of the version: the `REPLICA`
      commands exactly when some leftmost match has a patch number between 22
      and the 64-bit limit. */
  lemma {:induction false} DialectMeaning(v: string)
    ensures ReplicationDialect(v) == Modern <==>
      exists i: nat, digits :: LeftmostPatch(v, i, digits) && 22 <= DecimalValue(digits) <= MaxInt64
  {
    match FirstMatch(v, 0)
    case None =>
    case Some(i) =>
      MatchContains(v, i);
      var p := LeadingDigits(v[i + 4..]);
      assert PatchText(v) == Some(p);
      OnlyLeftmostPatch(v, i, p);
  }

  /** The search's match and its digit run are the only leftmost patch. */
  lemma OnlyLeftmostPatch(v: string, i: nat, p: string)
    requires FirstMatch(v, 0) == Some(i) && p == LeadingDigits(v[i + 4..])
    ensures LeftmostPatch(v, i, p)
    ensures forall i2: nat, digits :: LeftmostPatch(v, i2, digits) ==> i2 == i && digits == p
  {
    assert LeftmostPatch(v, i, p);
    forall i2: nat, digits | LeftmostPatch(v, i2, digits)
      ensures i2 == i && digits == p
    {
      LeftmostUnique(v, i, i2);
      DigitRunUnique(v[i + 4..], p, digits);
    }
  }

  lemma LeftmostUnique(v: string, i: nat, i2: nat)
    requires MatchAt(v, i) && forall j :: 0 <= j < i ==> !MatchAt(v, j)
    requires MatchAt(v, i2) && forall j :: 0 <= j < i2 ==> !MatchAt(v, j)
    ensures i == i2
  {
  }

  /** A string has one maximal leading digit run. */
  lemma DigitRunUnique(s: string, a: string, b: string)
    requires |a| <= |s| && s[..|a|] == a && forall k :: 0 <= k < |a| ==> IsDigit(a[k])
    requires |a| == |s| || !IsDigit(s[|a|])
    requires |b| <= |s| && s[..|b|] == b && forall k :: 0 <= k < |b| ==> IsDigit(b[k])
    requires |b| == |s| || !IsDigit(s[|b|])
    ensures a == b
  {
  }

  /** A version in which no `8` is followed by `.0` gets the `SLAVE`
      commands. */
  lemma NoEightZeroIsLegacy(v: string)
    requires forall i :: 0 <= i < |v| - 2 ==> !(v[i] == '8' && v[i + 1] == '.' && v[i + 2] == '0')
    ensures ReplicationDialect(v) == Legacy
  {
    forall i | 0 <= i <= |v| ensures !HasPrefix(v[i..], "8.0") {
      if i + 3 <= |v| {
        assert v[i..][..3] == [v[i], v[i + 1], v[i + 2]];
      }
    }
    ContainsOnlyAt(v, "8.0");
  }

  /** 8.0.22 is the first release with the `REPLICA` commands. */
  lemma Patch22IsModern()
    ensures ReplicationDialect("8.0.22") == Modern
  {
    assert MatchAt("8.0.22", 0);
    assert LeadingDigits("22") == "22";
    assert "8.0.22"[..3] == "8.0";
  }

  lemma Patch21IsLegacy()
    ensures ReplicationDialect("8.0.21") == Legacy
  {
    assert MatchAt("8.0.21", 0);
    assert LeadingDigits("21") == "21";
    assert DecimalValue("21") == 21;
  }

  /** Only the 8.0 series is recognised: 8.4 and 9.x get the `SLAVE`
      commands. */
  lemma LaterSeriesAreLegacy()
    ensures ReplicationDialect("8.4.0") == Legacy
    ensures ReplicationDialect("9.1.0") == Legacy
  {
    NoEightZeroIsLegacy("8.4.0");
    NoEightZeroIsLegacy("9.1.0");
  }

  lemma FiveSevenIsLegacy()
    ensures ReplicationDialect("5.7.44-log") == Legacy
  {
    NoEightZeroIsLegacy("5.7.44-log");
  }
}
