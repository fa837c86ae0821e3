/** The count map built from the `event.get` result: the dict comprehension
    `{entry['objectid']: int(entry['rowscount']) for entry in result}`.
    A Python dict remembers the order in which its keys were first inserted,
    and that order is what `list(trigger_counts.keys())` later sends to
    `trigger.get`; so the map is kept together with its key order. */
module Aggregator {
  import opened Wrappers
  import opened Decimal
  import opened Remote

  /** An insertion-ordered dict from trigger id to count. */
  datatype CountDict = CountDict(ids: seq<string>, counts: map<string, int>) {
    /** The key list has no repetition and holds exactly the map's keys. */
    ghost predicate Valid() {
      && (forall i, j :: 0 <= i < j < |ids| ==> ids[i] != ids[j])
      && (forall k :: k in counts <==> k in ids)
    }
  }

  const EmptyDict := CountDict([], map[])

  /** `d[k] = v`: a new key goes to the end of the order, an existing key keeps its place. */
  function Put(d: CountDict, k: string, v: int): CountDict {
    if k in d.counts then CountDict(d.ids, d.counts[k := v])
    else CountDict(d.ids + [k], d.counts[k := v])
  }

  /** Assignment keeps the dict's invariant, sets the key and leaves the other keys alone. */
  lemma PutValid(d: CountDict, k: string, v: int)
    requires d.Valid()
    ensures Put(d, k, v).Valid()
    ensures Put(d, k, v).counts == d.counts[k := v]
    ensures |Put(d, k, v).ids| == |d.ids| + (if k in d.counts then 0 else 1)
    ensures Put(d, k, v).ids[..|d.ids|] == d.ids
  {
    var d' := Put(d, k, v);
    if k !in d.counts {
      forall i, j | 0 <= i < j < |d'.ids|
        ensures d'.ids[i] != d'.ids[j]
      {
        if j == |d.ids| {
          assert d.ids[i] in d.ids;
        }
      }
    }
  }

  /** The comprehension, entry by entry from the first; `None` when some
      `rowscount` is not an integer literal (Python raises there). */
  function BuildCounts(entries: seq<EventEntry>): Option<CountDict> {
    if entries == [] then Some(EmptyDict)
    else
      var last := entries[|entries| - 1];
      match BuildCounts(entries[..|entries| - 1])
      case None => None
      case Some(d) =>
        match ParseInt(last.rowscount)
        case None => None
        case Some(v) => Some(Put(d, last.objectid, v))
  }

  /** One step of the comprehension: the dict of all entries is the dict of
      all but the last, updated with the last. */
  lemma BuildCountsStep(entries: seq<EventEntry>)
    requires entries != [] && BuildCounts(entries).Some?
    ensures BuildCounts(entries[..|entries| - 1]).Some?
    ensures ParseInt(entries[|entries| - 1].rowscount).Some?
    ensures BuildCounts(entries).value ==
            Put(BuildCounts(entries[..|entries| - 1]).value, entries[|entries| - 1].objectid,
                ParseInt(entries[|entries| - 1].rowscount).value)
  {
  }

  /** The comprehension yields a dict whose key list has no repeats and holds exactly its keys. */
  lemma {:induction false} BuildCountsValid(entries: seq<EventEntry>)
    requires BuildCounts(entries).Some?
    ensures BuildCounts(entries).value.Valid()
  {
    if entries != [] {
      var init, last := entries[..|entries| - 1], entries[|entries| - 1];
      BuildCountsStep(entries);
      BuildCountsValid(init);
      PutValid(BuildCounts(init).value, last.objectid, ParseInt(last.rowscount).value);
    }
  }

  /** `get_problem_event_counts`: one `event.get` request; any failure, of the
      call or of the comprehension, gives the empty dict. */
  function GetProblemEventCounts(query: EventQuery, service: EventService): (r: Fetched<CountDict>)
    ensures r.requests == [EventGet(query)]
    ensures r.value.Valid()
    ensures service(query).None? ==> r.value == EmptyDict
    ensures service(query).Some? ==> r.value == BuildCounts(service(query).value).GetOr(EmptyDict)
  {
    if service(query).Some? && BuildCounts(service(query).value).Some? then
      BuildCountsValid(service(query).value);
      Fetched(BuildCounts(service(query).value).value, [EventGet(query)])
    else
      Fetched(EmptyDict, [EventGet(query)])
  }

  /** A malformed count anywhere makes the whole comprehension fail. */
  lemma {:induction false} BuildCountsFailsAt(entries: seq<EventEntry>, i: nat)
    requires i < |entries| && !IsIntLiteral(entries[i].rowscount)
    ensures BuildCounts(entries).None?
  {
    var n := |entries|;
    var init := entries[..n - 1];
    if i < n - 1 {
      assert init[i] == entries[i];
      BuildCountsFailsAt(init, i);
    }
  }

  /** With every count well formed, the comprehension succeeds. */
  lemma {:induction false} BuildCountsSucceeds(entries: seq<EventEntry>)
    requires forall i :: 0 <= i < |entries| ==> IsIntLiteral(entries[i].rowscount)
    ensures BuildCounts(entries).Some?
  {
    if entries != [] {
      var init := entries[..|entries| - 1];
      forall i | 0 <= i < |init|
        ensures IsIntLiteral(init[i].rowscount)
      {
        assert init[i] == entries[i];
      }
      BuildCountsSucceeds(init);
    }
  }

  /** The comprehension fails exactly when some entry's count is not an integer literal. */
  lemma BuildCountsFailsIff(entries: seq<EventEntry>)
    ensures BuildCounts(entries).None? <==>
            exists i :: 0 <= i < |entries| && !IsIntLiteral(entries[i].rowscount)
  {
    if i :| 0 <= i < |entries| && !IsIntLiteral(entries[i].rowscount) {
      BuildCountsFailsAt(entries, i);
    } else {
      BuildCountsSucceeds(entries);
    }
  }

  /** The keys of the dict are exactly the `objectid`s of the entries. */
  lemma {:induction false} BuildCountsKeys(entries: seq<EventEntry>, k: string)
    requires BuildCounts(entries).Some?
    ensures k in BuildCounts(entries).value.counts <==>
            exists i :: 0 <= i < |entries| && entries[i].objectid == k
  {
    if entries != [] {
      var n := |entries|;
      var init := entries[..n - 1];
      BuildCountsKeys(init, k);
      if k == entries[n - 1].objectid {
      } else if k in BuildCounts(init).value.counts {
        var i :| 0 <= i < |init| && init[i].objectid == k;
        assert entries[i] == init[i];
      } else {
        forall i | 0 <= i < n
          ensures entries[i].objectid != k
        {
          if i < n - 1 { assert entries[i] == init[i]; }
        }
      }
    }
  }

  /** When an id repeats, the count of its last occurrence is the one kept. */
  lemma {:induction false} BuildCountsLastOccurrenceWins(entries: seq<EventEntry>, i: nat)
    requires BuildCounts(entries).Some?
    requires i < |entries|
    requires forall j :: i < j < |entries| ==> entries[j].objectid != entries[i].objectid
    ensures entries[i].objectid in BuildCounts(entries).value.counts
    ensures ParseInt(entries[i].rowscount).Some?
    ensures BuildCounts(entries).value.counts[entries[i].objectid] == ParseInt(entries[i].rowscount).value
  {
    var n := |entries|;
    var init, last := entries[..n - 1], entries[n - 1];
    var d := BuildCounts(init).value;
    var v := ParseInt(last.rowscount).value;
    assert BuildCounts(entries) == Some(Put(d, last.objectid, v));
    if i < n - 1 {
      var id := entries[i].objectid;
      assert init[i] == entries[i];
      assert last.objectid != id;
      forall j | i < j < |init|
        ensures init[j].objectid != init[i].objectid
      {
        assert init[j] == entries[j];
      }
      BuildCountsLastOccurrenceWins(init, i);
    }
  }

  /** The key list is in order of first appearance: the first occurrence of
      an earlier key comes before every occurrence of a later one. This is the
      order `list(trigger_counts.keys())` hands to `trigger.get`. */
  lemma {:induction false} BuildCountsIdsInFirstSeenOrder(entries: seq<EventEntry>, a: nat, b: nat, j: nat)
    requires BuildCounts(entries).Some?
    requires a < b < |BuildCounts(entries).value.ids|
    requires j < |entries| && entries[j].objectid == BuildCounts(entries).value.ids[b]
    ensures exists i :: 0 <= i < j && entries[i].objectid == BuildCounts(entries).value.ids[a]
  {
    var i := FirstSeenWitness(entries, a, b, j);
  }

  /** The occurrence of the earlier key, found by induction on the entries. */
  lemma {:induction false} FirstSeenWitness(entries: seq<EventEntry>, a: nat, b: nat, j: nat) returns (i: nat)
    requires BuildCounts(entries).Some?
    requires a < b < |BuildCounts(entries).value.ids|
    requires j < |entries| && entries[j].objectid == BuildCounts(entries).value.ids[b]
    ensures i < j && entries[i].objectid == BuildCounts(entries).value.ids[a]
  {
    var n := |entries|;
    var init, last := entries[..n - 1], entries[n - 1];
    BuildCountsStep(entries);
    var d := BuildCounts(init).value;
    var ids := BuildCounts(entries).value.ids;
    var ka, kb := ids[a], ids[b];
    if b < |d.ids| {
      BuildCountsValid(init);
      assert ids[..|d.ids|] == d.ids;
      assert ka == d.ids[a] && kb == d.ids[b] && kb in d.counts;
      var j' := OccurrenceInInit(entries, kb, j);
      assert init[j'] == entries[j'];
      i := FirstSeenWitness(init, a, b, j');
      assert entries[i] == init[i];
    } else {
      i := FirstSeenNewKey(entries, a, j);
    }
  }

  /** When the later key is the one the last entry added, every earlier key
      already occurs before the last entry, and the later key occurs nowhere else. */
  lemma FirstSeenNewKey(entries: seq<EventEntry>, a: nat, j: nat) returns (i: nat)
    requires entries != [] && BuildCounts(entries).Some?
    requires BuildCounts(entries[..|entries| - 1]).Some?
    requires var d := BuildCounts(entries[..|entries| - 1]).value;
             && a < |d.ids|
             && entries[|entries| - 1].objectid !in d.counts
             && BuildCounts(entries).value.ids == d.ids + [entries[|entries| - 1].objectid]
    requires j < |entries| && entries[j].objectid == entries[|entries| - 1].objectid
    ensures i < j && entries[i].objectid == BuildCounts(entries).value.ids[a]
  {
    var n := |entries|;
    var init, last := entries[..n - 1], entries[n - 1];
    var d := BuildCounts(init).value;
    var ka := d.ids[a];
    BuildCountsValid(init);
    assert ka in d.ids;
    BuildCountsKeys(init, ka);
    i :| 0 <= i < |init| && init[i].objectid == ka;
    assert entries[i] == init[i];
    if j < n - 1 {
      assert init[j] == entries[j];
      BuildCountsKeys(init, last.objectid);
    }
  }

  /** An occurrence, among all but the last entry, of a key that all but the last entry already hold. */
  lemma OccurrenceInInit(entries: seq<EventEntry>, k: string, j: nat) returns (j': nat)
    requires entries != [] && BuildCounts(entries[..|entries| - 1]).Some?
    requires k in BuildCounts(entries[..|entries| - 1]).value.counts
    requires j < |entries| && entries[j].objectid == k
    ensures j' <= j && j' < |entries| - 1 && entries[j'].objectid == k
  {
    var init := entries[..|entries| - 1];
    if j < |entries| - 1 {
      j' := j;
    } else {
      BuildCountsKeys(init, k);
      j' :| 0 <= j' < |init| && init[j'].objectid == k;
      assert init[j'] == entries[j'];
    }
  }
}
