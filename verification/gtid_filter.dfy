/** The UUID filters of `OracleGtidSet`: `RemoveUUID`, `RetainUUID(s)` and
    `SharedUUIDs`. The Go methods filter the receiver in place; here they
    return the kept entries together with the method's boolean result. */
module GtidFilter {
  import opened GtidSet

  /** The outcome of an in-place filter: the kept entries and whether
      anything was dropped (the Go methods' boolean result). */
  datatype Filtered = Filtered(entries: GtidSet, dropped: bool)

  /** The one loop behind both Go filters: walk the entries in order, keep
      those whose UUID satisfies `keep`, note whether any was skipped. */
  function KeepWhere(s: GtidSet, keep: string -> bool): Filtered
  {
    if s == [] then Filtered([], false)
    else
      var rest := KeepWhere(s[1..], keep);
      if keep(s[0].uuid) then Filtered([s[0]] + rest.entries, rest.dropped)
      else Filtered(rest.entries, true)
  }

  /** What the filter keeps: exactly the entries whose UUID passes; a drop is
      reported exactly when some entry fails; and when nothing is dropped the
      entries are the original ones, which is why the Go methods may leave the
      receiver untouched in that case. */
  lemma {:induction false} KeepWhereSpec(s: GtidSet, keep: string -> bool)
    ensures forall e :: e in KeepWhere(s, keep).entries <==> e in s && keep(e.uuid)
    ensures KeepWhere(s, keep).dropped <==> exists i :: 0 <= i < |s| && !keep(s[i].uuid)
    ensures !KeepWhere(s, keep).dropped ==> KeepWhere(s, keep).entries == s
    ensures KeepWhere(s, keep).dropped ==> |KeepWhere(s, keep).entries| < |s|
  {
    if s != [] {
      KeepWhereSpec(s[1..], keep);
      assert s == [s[0]] + s[1..];
      assert forall i :: 1 <= i < |s| ==> s[i] == s[1..][i - 1];
      if !keep(s[0].uuid) {
        assert !keep(s[0 as nat].uuid);
      }
      if KeepWhere(s[1..], keep).dropped {
        var i :| 0 <= i < |s[1..]| && !keep(s[1..][i].uuid);
        assert !keep(s[i + 1].uuid);
      }
    }
  }

  /** Filtering distributes over concatenation: together with the
      one-entry case this pins the result down to the order-preserving
      filter. */
  lemma {:induction false} KeepWhereConcat(a: GtidSet, b: GtidSet, keep: string -> bool)
    ensures KeepWhere(a + b, keep).entries == KeepWhere(a, keep).entries + KeepWhere(b, keep).entries
    ensures KeepWhere(a + b, keep).dropped == (KeepWhere(a, keep).dropped || KeepWhere(b, keep).dropped)
  {
    if a != [] {
      assert (a + b)[1..] == a[1..] + b;
      KeepWhereConcat(a[1..], b, keep);
    } else {
      assert a + b == b;
    }
  }

  /** Two complementary filters share the entries out between them. */
  lemma {:induction false} KeepWhereComplement(s: GtidSet, keep: string -> bool, other: string -> bool)
    requires forall u :: other(u) == !keep(u)
    ensures multiset(KeepWhere(s, keep).entries) + multiset(KeepWhere(s, other).entries) == multiset(s)
    ensures KeepWhere(s, keep).dropped <==> KeepWhere(s, other).entries != []
  {
    if s != [] {
      KeepWhereComplement(s[1..], keep, other);
      assert s == [s[0]] + s[1..];
    }
  }

  function NotUuid(uuid: string): string -> bool {
    u => u != uuid
  }

  function InUuids(uuids: seq<string>): string -> bool {
    u => u in uuids
  }

  /** `RemoveUUID`: drops every entry of `uuid`, keeping the others in
      order; reports whether one was dropped, and changes nothing if not. */
  function RemoveUuid(s: GtidSet, uuid: string): (r: Filtered)
    ensures forall e :: e in r.entries <==> e in s && e.uuid != uuid
    ensures r.dropped <==> exists i :: 0 <= i < |s| && s[i].uuid == uuid
    ensures !r.dropped ==> r.entries == s
  {
    KeepWhereSpec(s, NotUuid(uuid));
    KeepWhere(s, NotUuid(uuid))
  }

  /** `RetainUUIDs`: keeps exactly the entries whose UUID is listed, in
      order; reports whether anything was dropped, and changes nothing if
      not. */
  function RetainUuids(s: GtidSet, uuids: seq<string>): (r: Filtered)
    ensures forall e :: e in r.entries <==> e in s && e.uuid in uuids
    ensures r.dropped <==> exists i :: 0 <= i < |s| && s[i].uuid !in uuids
    ensures !r.dropped ==> r.entries == s
  {
    KeepWhereSpec(s, InUuids(uuids));
    KeepWhere(s, InUuids(uuids))
  }

  /** `RetainUUID`: keeps exactly the entries of one UUID, reporting whether
      an entry of another UUID was dropped. */
  function RetainUuid(s: GtidSet, uuid: string): (r: Filtered)
    ensures forall e :: e in r.entries <==> e in s && e.uuid == uuid
    ensures r.dropped <==> exists i :: 0 <= i < |s| && s[i].uuid != uuid
  {
    RetainUuids(s, [uuid])
  }

  /** Both filters keep the original order: filtering a concatenation is
      the concatenation of the filtered parts. */
  lemma FiltersPreserveOrder(a: GtidSet, b: GtidSet, uuid: string, uuids: seq<string>)
    ensures RemoveUuid(a + b, uuid).entries == RemoveUuid(a, uuid).entries + RemoveUuid(b, uuid).entries
    ensures RetainUuids(a + b, uuids).entries == RetainUuids(a, uuids).entries + RetainUuids(b, uuids).entries
  {
    KeepWhereConcat(a, b, NotUuid(uuid));
    KeepWhereConcat(a, b, InUuids(uuids));
  }

  /** Removing and retaining one UUID split the set in two: together they
      hold every entry exactly as often as the set does, and each reports a
      drop exactly when the other keeps something. */
  lemma RemoveRetainPartition(s: GtidSet, uuid: string)
    ensures multiset(RemoveUuid(s, uuid).entries) + multiset(RetainUuid(s, uuid).entries) == multiset(s)
    ensures RemoveUuid(s, uuid).dropped <==> RetainUuid(s, uuid).entries != []
    ensures RetainUuid(s, uuid).dropped <==> RemoveUuid(s, uuid).entries != []
  {
    KeepWhereComplement(s, NotUuid(uuid), InUuids([uuid]));
    KeepWhereComplement(s, InUuids([uuid]), NotUuid(uuid));
  }

  /** The UUIDs of the entries, in order. */
  function UuidsOf(s: GtidSet): seq<string> {
    seq(|s|, i requires 0 <= i < |s| => s[i].uuid)
  }

  /** The UUIDs occurring in a set. */
  function UuidSet(s: GtidSet): set<string> {
    set i | 0 <= i < |s| :: s[i].uuid
  }

  /** UUIDs of `other`'s entries that are in `mine`, in `other`'s order. */
  function UuidsIn(other: GtidSet, mine: set<string>): (shared: seq<string>)
    ensures forall x :: x in shared ==> x in mine && x in UuidSet(other)
    ensures |shared| <= |other|
  {
    if other == [] then []
    else
      var rest := UuidsIn(other[1..], mine);
      assert forall x :: x in UuidSet(other[1..]) ==> x in UuidSet(other) by {
        forall x | x in UuidSet(other[1..]) ensures x in UuidSet(other) {
          var i :| 0 <= i < |other| - 1 && other[1..][i].uuid == x;
          assert other[i + 1].uuid == x;
        }
      }
      if other[0].uuid in mine then
        assert other[0 as nat].uuid in UuidSet(other);
        [other[0].uuid] + rest
      else rest
  }

  /** `SharedUUIDs`: for every entry of `other` whose UUID this set also
      holds, that UUID, in `other`'s order (repeats included). */
  function SharedUuids(s: GtidSet, other: GtidSet): (shared: seq<string>)
    ensures forall x :: x in shared ==> x in UuidSet(s) && x in UuidSet(other)
    ensures |shared| <= |other|
  {
    UuidsIn(other, UuidSet(s))
  }

  lemma {:induction false} UuidsInIsRetained(other: GtidSet, mine: set<string>, uuids: seq<string>)
    requires forall x :: x in mine <==> x in uuids
    ensures UuidsIn(other, mine) == UuidsOf(KeepWhere(other, InUuids(uuids)).entries)
  {
    if other != [] {
      UuidsInIsRetained(other[1..], mine, uuids);
      var rest := KeepWhere(other[1..], InUuids(uuids)).entries;
      if other[0].uuid in uuids {
        assert UuidsOf([other[0]] + rest) == [other[0].uuid] + UuidsOf(rest);
      }
    }
  }

  /** The shared UUIDs are exactly the UUIDs of `other` after retaining the
      UUIDs of this set: the two Go methods agree entry for entry, so a UUID
      listed twice in `other` is reported twice. */
  lemma SharedIsRetained(s: GtidSet, other: GtidSet)
    ensures SharedUuids(s, other) == UuidsOf(RetainUuids(other, UuidsOf(s)).entries)
  {
    forall x ensures x in UuidSet(s) <==> x in UuidsOf(s) {
      if x in UuidsOf(s) {
        var i :| 0 <= i < |s| && UuidsOf(s)[i] == x;
        assert s[i].uuid == x;
      }
      if x in UuidSet(s) {
        var i :| 0 <= i < |s| && s[i].uuid == x;
        assert UuidsOf(s)[i] == x;
      }
    }
    UuidsInIsRetained(other, UuidSet(s), UuidsOf(s));
  }

  /** As a set, the shared UUIDs are the intersection of the two sets' UUIDs. */
  lemma {:induction false} SharedIsIntersection(s: GtidSet, other: GtidSet)
    ensures (set x | x in SharedUuids(s, other)) == UuidSet(s) * UuidSet(other)
  {
    UuidsInCovers(other, UuidSet(s));
  }

  lemma {:induction false} UuidsInCovers(other: GtidSet, mine: set<string>)
    ensures forall x :: x in mine && x in UuidSet(other) ==> x in UuidsIn(other, mine)
  {
    if other != [] {
      UuidsInCovers(other[1..], mine);
      forall x | x in mine && x in UuidSet(other) ensures x in UuidsIn(other, mine) {
        var i :| 0 <= i < |other| && other[i].uuid == x;
        if i > 0 {
          assert other[1..][i - 1].uuid == x;
        }
      }
    }
  }
}
