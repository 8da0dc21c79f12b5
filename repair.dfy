/**
 * The index-repair pass of the FLX Data Analyzer's database repair utility:
 * one sequential read-modify-write of the JSON file index over the HDF5
 * container, rebuilding every damaged record it can from the container's
 * groups and writing the index back only when it repaired something.
 */
module RepairUtility {
  import opened Wrappers
  import opened PathNames
  import opened FileIndex

  /**
   * The decoded `metadata/file_index`: the entry ids in the order the
   * decoded dictionary iterates them, and the record of each.
   */
  datatype Index = Index(ids: seq<string>, records: map<string, Record>)

  /**
   * The ids are those of a dictionary: distinct, each the key of a record,
   * and as many as there are records (so they are exactly the keys, as
   * `IdsAreKeys` shows).
   */
  predicate ValidIndex(ix: Index) {
    && (forall i, j :: 0 <= i < j < |ix.ids| ==> ix.ids[i] != ix.ids[j])
    && (forall i :: 0 <= i < |ix.ids| ==> ix.ids[i] in ix.records)
    && |ix.records| == |ix.ids|
  }

  /** The set of the first `n` ids. */
  function IdsBelow(ids: seq<string>, n: nat): set<string>
    requires n <= |ids|
  {
    set i | 0 <= i < n :: ids[i]
  }

  /** Distinct ids make a set of the same size. */
  lemma {:induction false} DistinctIdsCount(ids: seq<string>, n: nat)
    requires n <= |ids|
    requires forall i, j :: 0 <= i < j < |ids| ==> ids[i] != ids[j]
    ensures |IdsBelow(ids, n)| == n
  {
    if n > 0 {
      DistinctIdsCount(ids, n - 1);
      assert ids[n - 1] !in IdsBelow(ids, n - 1);
      assert IdsBelow(ids, n) == IdsBelow(ids, n - 1) + {ids[n - 1]};
    }
  }

  /** In a valid index the ids are exactly the keys of the records. */
  lemma IdsAreKeys(ix: Index)
    requires ValidIndex(ix)
    ensures forall id :: id in ix.records <==> id in ix.ids
  {
    var listed := IdsBelow(ix.ids, |ix.ids|);
    var keys := ix.records.Keys;
    DistinctIdsCount(ix.ids, |ix.ids|);
    assert listed <= keys;
    assert keys == listed + (keys - listed);
    assert |keys - listed| == 0;
    forall id | id in ix.records ensures id in ix.ids {
      assert id in listed;
    }
  }

  /** The group `files/{id}`, if the container has one. */
  function GroupOf(groups: map<string, Group>, id: string): Option<Group> {
    if id in groups then Some(groups[id]) else None
  }

  /** The pass's running state: the records as edited so far, and `repaired_count`. */
  datatype Tally = Tally(records: map<string, Record>, repaired: nat)

  /** What the method reports: `repaired_count`, and whether the index was written back. */
  datatype Summary = Summary(repaired: nat, written: bool)

  /** The record with `id` is one the pass counts: damaged, with a group to rebuild it from. */
  predicate Counts(records: map<string, Record>, groups: map<string, Group>, id: string)
    requires id in records
  {
    NeedsRepair(records[id]) && id in groups
  }

  /** The result of repairing one record on its own, from its original contents. */
  type Outcome = Result<Entry, RepairError>

  /** What repairing each record of the index on its own gives, in index order. */
  function Outcomes(ix: Index, groups: map<string, Group>): (outs: seq<Outcome>)
    requires ValidIndex(ix)
    ensures |outs| == |ix.ids|
  {
    seq(|ix.ids|, i requires 0 <= i < |ix.ids| =>
      RepairEntry(ix.ids[i], ix.records[ix.ids[i]], GroupOf(groups, ix.ids[i])))
  }

  /**
   * The pass over the first `n` ids, in order, given the outcome of each
   * record's repair: every repaired record replaces the original one and
   * adds to the count when it counted; the first outcome that raised ends
   * the pass with that error.
   */
  function Accumulate(ix: Index, outs: seq<Outcome>, n: nat): Result<Tally, RepairError>
    requires n <= |ix.ids| == |outs|
  {
    if n == 0 then Success(Tally(ix.records, 0))
    else
      match Accumulate(ix, outs, n - 1)
      case Failure(e) => Failure(e)
      case Success(t) =>
        match outs[n - 1]
        case Failure(e) => Failure(e)
        case Success(entry) =>
          Success(Tally(t.records[ix.ids[n - 1] := entry.record], t.repaired + if entry.counted then 1 else 0))
  }

  /** The whole pass. */
  function RepairIndex(ix: Index, groups: map<string, Group>): Result<Tally, RepairError>
    requires ValidIndex(ix)
  {
    Accumulate(ix, Outcomes(ix, groups), |ix.ids|)
  }


  /**
   * The inner attribute loop: scan the attributes in order and stop at the
   * first string that looks like a path.
   */
  method ScanAttributes(attrs: seq<Attribute>) returns (found: Option<string>)
    ensures found == FirstPathAttribute(attrs)
  {
    found := None;
    for i := 0 to |attrs|
      invariant found == None
      invariant forall j :: 0 <= j < i ==> !IsPathAttribute(attrs[j])
    {
      var value := attrs[i].value;
      if value.Text? && LooksLikePath(value.s) {
        found := Some(value.s);
        FirstPathAttributeAt(attrs, i);
        break;
      }
    }
  }

  /** The attribute at `i` is the first path-like one, so it is the one adopted, whatever follows it. */
  lemma FirstPathAttributeAt(attrs: seq<Attribute>, i: nat)
    requires i < |attrs| && IsPathAttribute(attrs[i])
    requires forall j :: 0 <= j < i ==> !IsPathAttribute(attrs[j])
    ensures FirstPathAttribute(attrs) == Some(attrs[i].value.s)
  {
  }

  /**
   * The body of the loop for one record, step by step: the `needs_repair`
   * flag, the attribute scan, the fallback and the count.
   */
  method RepairRecord(fileId: string, fileInfo: Record, fileGroup: Option<Group>) returns (result: Result<Entry, RepairError>)
    ensures result == RepairEntry(fileId, fileInfo, fileGroup)
  {
    var info := fileInfo;
    var repaired := false;
    if NeedsRepair(info) {
      var needsRepair := true;
      if fileGroup.Some? {
        var group := fileGroup.value;
        var found := ScanAttributes(group.attrs);
        if found.Some? {
          var path := found.value;
          info := info[OriginalPath := Str(path)];
          info := info[FileName := Str(Basename(path))];
          var fileType := InferredType(path);
          if fileType.Some? {
            info := info[FileType := Str(fileType.value)];
          }
          needsRepair := false;
          repaired := true;
        }
        if needsRepair {
          if group.rawData.Some? {
            var hasPhotonData := group.rawData.value.hasPhotonData;
            info := info[FileType := Str(if hasPhotonData then "flz" else "unknown")];
            info := info[OriginalPath := Str(PlaceholderPath(fileId, hasPhotonData))];
          }
          if OriginalPath !in info {
            return Failure(MissingOriginalPath);
          }
          if !info[OriginalPath].Str? {
            return Failure(OriginalPathNotText);
          }
          info := info[FileName := Str(Basename(info[OriginalPath].s))];
          info := info[Status := Str(Recovered)];
          repaired := true;
        }
      }
    }
    return Success(Entry(info, repaired));
  }

  /** The HDF5 container, as far as the repair pass sees it. */
  class Database {
    /** `metadata/file_index`, decoded. */
    var fileIndex: Index
    /** The groups `files/{id}`, by id. */
    var groups: map<string, Group>

    constructor (fileIndex: Index, groups: map<string, Group>)
      ensures this.fileIndex == fileIndex && this.groups == groups
    {
      this.fileIndex := fileIndex;
      this.groups := groups;
    }


    /**
     * `repair_database_metadata`: run the pass over the stored index; when it
     * raises, nothing is written; otherwise the index is written back exactly
     * when at least one record was repaired.
     */
    method RepairDatabaseMetadata() returns (result: Result<Summary, RepairError>)
      requires ValidIndex(fileIndex)
      modifies this`fileIndex
      ensures match RepairIndex(old(fileIndex), groups)
              case Failure(e) => result == Failure(e) && fileIndex == old(fileIndex)
              case Success(t) =>
                && result == Success(Summary(t.repaired, t.repaired > 0))
                && fileIndex == (if t.repaired > 0 then Index(old(fileIndex).ids, t.records) else old(fileIndex))
                && fileIndex == Index(old(fileIndex).ids, t.records)
      ensures ValidIndex(fileIndex)
    {
      var pass := RepairPass(fileIndex, groups, Outcomes(fileIndex, groups));
      match pass
      case Failure(e) =>
        return Failure(e);
      case Success(t) =>
        var written := t.repaired > 0;
        if written {
          RepairedIndexIsFixpoint(fileIndex, groups);
          fileIndex := Index(fileIndex.ids, t.records);
        } else {
          NoRepairLeavesRecords(fileIndex, groups);
        }
        result := Success(Summary(t.repaired, written));
    }
  }

  /**
   * The `for` loop over the index: repair each record in order on a working
   * copy of the records, counting the repairs; the first exception ends it.
   * `outs` names, for the proof only, what each record's repair gives.
   */
  method RepairPass(ix: Index, groups: map<string, Group>, ghost outs: seq<Outcome>) returns (result: Result<Tally, RepairError>)
    requires ValidIndex(ix) && |outs| == |ix.ids|
    requires forall i :: 0 <= i < |outs| ==> outs[i] == RepairEntry(ix.ids[i], ix.records[ix.ids[i]], GroupOf(groups, ix.ids[i]))
    ensures result == Accumulate(ix, outs, |ix.ids|)
  {
    var records := ix.records;
    var repairedCount := 0;
    for i := 0 to |ix.ids|
      invariant Accumulate(ix, outs, i) == Success(Tally(records, repairedCount))
    {
      var fileId := ix.ids[i];
      var fileGroup := GroupOf(groups, fileId);
      AccumulateAt(ix, outs, i);
      var outcome := RepairRecord(fileId, records[fileId], fileGroup);
      match outcome
      case Failure(e) =>
        AccumulateFailureIsFinal(ix, outs, i + 1, |ix.ids|);
        return Failure(e);
      case Success(entry) =>
        records := records[fileId := entry.record];
        if entry.counted {
          repairedCount := repairedCount + 1;
        }
    }
    return Success(Tally(records, repairedCount));
  }

  /** The record at position `i` is still the original one when the pass reaches it. */
  lemma AccumulateAt(ix: Index, outs: seq<Outcome>, i: nat)
    requires ValidIndex(ix) && i < |ix.ids| == |outs|
    requires Accumulate(ix, outs, i).Success?
    ensures ix.ids[i] in Accumulate(ix, outs, i).value.records
    ensures Accumulate(ix, outs, i).value.records[ix.ids[i]] == ix.records[ix.ids[i]]
  {
    AccumulateFrame(ix, outs, i);
  }

  /**
   * The pass adds and removes no id, leaves the records it has not reached
   * untouched, and counts at most one repair per record it has reached.
   */
  lemma {:induction false} AccumulateFrame(ix: Index, outs: seq<Outcome>, n: nat)
    requires ValidIndex(ix) && n <= |ix.ids| == |outs|
    requires Accumulate(ix, outs, n).Success?
    ensures Accumulate(ix, outs, n).value.records.Keys == ix.records.Keys
    ensures forall i :: n <= i < |ix.ids| ==> Accumulate(ix, outs, n).value.records[ix.ids[i]] == ix.records[ix.ids[i]]
    ensures Accumulate(ix, outs, n).value.repaired <= n
  {
    if n > 0 {
      AccumulateFrame(ix, outs, n - 1);
      var id := ix.ids[n - 1];
      var t := Accumulate(ix, outs, n - 1).value;
      assert id in t.records;
      forall i | n <= i < |ix.ids|
        ensures Accumulate(ix, outs, n).value.records[ix.ids[i]] == ix.records[ix.ids[i]]
      {
        assert ix.ids[i] != id;
      }
    }
  }

  /** Once a record's repair has raised, the pass ends with that error. */
  lemma {:induction false} AccumulateFailureIsFinal(ix: Index, outs: seq<Outcome>, n: nat, m: nat)
    requires n <= m <= |ix.ids| == |outs|
    requires Accumulate(ix, outs, n).Failure?
    ensures Accumulate(ix, outs, m) == Accumulate(ix, outs, n)
    decreases m - n
  {
    if n < m {
      AccumulateFailureIsFinal(ix, outs, n, m - 1);
    }
  }

  /**
   * After a successful pass over the first `n` ids, each of them holds the
   * record its own repair produced.
   */
  lemma {:induction false} AccumulatePointwise(ix: Index, outs: seq<Outcome>, n: nat)
    requires ValidIndex(ix) && n <= |ix.ids| == |outs|
    requires Accumulate(ix, outs, n).Success?
    ensures forall i :: 0 <= i < n ==>
              && outs[i].Success?
              && ix.ids[i] in Accumulate(ix, outs, n).value.records
              && Accumulate(ix, outs, n).value.records[ix.ids[i]] == outs[i].value.record
  {
    if n > 0 {
      AccumulatePointwise(ix, outs, n - 1);
      var id := ix.ids[n - 1];
      var after := Accumulate(ix, outs, n).value.records;
      forall i | 0 <= i < n - 1
        ensures ix.ids[i] in after && after[ix.ids[i]] == outs[i].value.record
      {
        assert ix.ids[i] != id;
      }
    }
  }

  /** The ids among the first `n` whose repair counted. */
  function CountedAmong(ix: Index, outs: seq<Outcome>, n: nat): set<string>
    requires n <= |ix.ids| == |outs|
  {
    set i | 0 <= i < n && outs[i].Success? && outs[i].value.counted :: ix.ids[i]
  }

  /** `repaired_count` is the number of records, among those reached, whose repair counted. */
  lemma {:induction false} AccumulateCount(ix: Index, outs: seq<Outcome>, n: nat)
    requires ValidIndex(ix) && n <= |ix.ids| == |outs|
    requires Accumulate(ix, outs, n).Success?
    ensures Accumulate(ix, outs, n).value.repaired == |CountedAmong(ix, outs, n)|
  {
    if n > 0 {
      AccumulateCount(ix, outs, n - 1);
      var id := ix.ids[n - 1];
      assert id !in CountedAmong(ix, outs, n - 1);
      if outs[n - 1].value.counted {
        assert CountedAmong(ix, outs, n) == CountedAmong(ix, outs, n - 1) + {id};
      } else {
        assert CountedAmong(ix, outs, n) == CountedAmong(ix, outs, n - 1);
      }
    }
  }

  /**
   * The pass over the first `n` ids succeeds exactly when none of their
   * repairs raises; when it fails, it fails with the error of the first
   * repair, in index order, that raises.
   */
  lemma {:induction false} AccumulateFailure(ix: Index, outs: seq<Outcome>, n: nat)
    requires n <= |ix.ids| == |outs|
    ensures Accumulate(ix, outs, n).Success? <==> forall i :: 0 <= i < n ==> outs[i].Success?
    ensures Accumulate(ix, outs, n).Failure? ==>
              exists i :: 0 <= i < n && outs[i] == Failure(Accumulate(ix, outs, n).error)
                          && forall j :: 0 <= j < i ==> outs[j].Success?
  {
    if n > 0 {
      AccumulateFailure(ix, outs, n - 1);
      if Accumulate(ix, outs, n - 1).Success? && outs[n - 1].Failure? {
        assert outs[n - 1] == Failure(Accumulate(ix, outs, n).error);
      }
    }
  }

  /**
   * When every repair that raised nowhere and did not count left its record
   * as it was, a pass that counts nothing changes no record.
   */
  lemma {:induction false} AccumulateUncountedKeepsRecords(ix: Index, outs: seq<Outcome>, n: nat)
    requires ValidIndex(ix) && n <= |ix.ids| == |outs|
    requires forall i :: 0 <= i < n && outs[i].Success? && !outs[i].value.counted ==>
               outs[i].value.record == ix.records[ix.ids[i]]
    requires Accumulate(ix, outs, n).Success? && Accumulate(ix, outs, n).value.repaired == 0
    ensures Accumulate(ix, outs, n).value.records == ix.records
  {
    if n > 0 {
      AccumulateUncountedKeepsRecords(ix, outs, n - 1);
      var id := ix.ids[n - 1];
      assert ix.records[id := ix.records[id]] == ix.records;
    }
  }

  /** When every repair leaves its record as it was, the pass raises nowhere and changes nothing. */
  lemma {:induction false} AccumulateUnchangedKeepsRecords(ix: Index, outs: seq<Outcome>, n: nat)
    requires ValidIndex(ix) && n <= |ix.ids| == |outs|
    requires forall i :: 0 <= i < n ==> outs[i].Success? && outs[i].value.record == ix.records[ix.ids[i]]
    ensures Accumulate(ix, outs, n).Success? && Accumulate(ix, outs, n).value.records == ix.records
  {
    if n > 0 {
      AccumulateUnchangedKeepsRecords(ix, outs, n - 1);
      var id := ix.ids[n - 1];
      assert ix.records[id := ix.records[id]] == ix.records;
    }
  }

  /** A pass that counts nothing changes no record, so skipping the write-back loses nothing. */
  lemma NoRepairLeavesRecords(ix: Index, groups: map<string, Group>)
    requires ValidIndex(ix) && RepairIndex(ix, groups).Success? && RepairIndex(ix, groups).value.repaired == 0
    ensures RepairIndex(ix, groups).value.records == ix.records
  {
    var outs := Outcomes(ix, groups);
    forall i | 0 <= i < |outs| && outs[i].Success? && !outs[i].value.counted
      ensures outs[i].value.record == ix.records[ix.ids[i]]
    {
      RepairEntryOutcome(ix.ids[i], ix.records[ix.ids[i]], GroupOf(groups, ix.ids[i]));
    }
    AccumulateUncountedKeepsRecords(ix, outs, |ix.ids|);
  }

  /**
   * The whole pass, record by record: no id is added or removed, and every
   * record is what repairing it alone gives, counted exactly when it was
   * damaged and had a group.
   */
  lemma RepairIndexPointwise(ix: Index, groups: map<string, Group>)
    requires ValidIndex(ix) && RepairIndex(ix, groups).Success?
    ensures RepairIndex(ix, groups).value.records.Keys == ix.records.Keys
    ensures forall id :: id in ix.records ==>
              RepairEntry(id, ix.records[id], GroupOf(groups, id)) ==
                Success(Entry(RepairIndex(ix, groups).value.records[id], Counts(ix.records, groups, id)))
  {
    var n := |ix.ids|;
    var outs := Outcomes(ix, groups);
    var t := RepairIndex(ix, groups).value;
    IdsAreKeys(ix);
    AccumulateFrame(ix, outs, n);
    AccumulatePointwise(ix, outs, n);
    forall id | id in ix.records
      ensures RepairEntry(id, ix.records[id], GroupOf(groups, id)) == Success(Entry(t.records[id], Counts(ix.records, groups, id)))
    {
      var i :| 0 <= i < n && ix.ids[i] == id;
      assert outs[i] == RepairEntry(id, ix.records[id], GroupOf(groups, id));
      RepairEntryOutcome(id, ix.records[id], GroupOf(groups, id));
    }
  }

  /** `repaired_count` of the whole pass is the number of damaged records that have a group. */
  lemma RepairIndexCount(ix: Index, groups: map<string, Group>)
    requires ValidIndex(ix) && RepairIndex(ix, groups).Success?
    ensures RepairIndex(ix, groups).value.repaired == |set id | id in ix.records && Counts(ix.records, groups, id)|
  {
    var n := |ix.ids|;
    var outs := Outcomes(ix, groups);
    var counted := set id | id in ix.records && Counts(ix.records, groups, id);
    AccumulateFailure(ix, outs, n);
    forall i | 0 <= i < n
      ensures outs[i].Success? && (outs[i].value.counted <==> ix.ids[i] in counted)
    {
      RepairEntryOutcome(ix.ids[i], ix.records[ix.ids[i]], GroupOf(groups, ix.ids[i]));
    }
    AccumulateCount(ix, outs, n);
    CountedAmongIs(ix, outs, counted);
  }

  /** When a set tells exactly which repairs counted, it is the set of ids the pass counted. */
  lemma CountedAmongIs(ix: Index, outs: seq<Outcome>, counted: set<string>)
    requires ValidIndex(ix) && |outs| == |ix.ids|
    requires forall i :: 0 <= i < |outs| ==> outs[i].Success? && (outs[i].value.counted <==> ix.ids[i] in counted)
    requires counted <= ix.records.Keys
    ensures CountedAmong(ix, outs, |outs|) == counted
  {
    IdsAreKeys(ix);
    forall id | id in counted ensures id in CountedAmong(ix, outs, |outs|) {
      var i :| 0 <= i < |ix.ids| && ix.ids[i] == id;
    }
  }

  /**
   * The pass succeeds exactly when no record's repair raises; when it fails,
   * it carries the error of the first raising record in index order.
   */
  lemma RepairIndexFailure(ix: Index, groups: map<string, Group>)
    requires ValidIndex(ix)
    ensures RepairIndex(ix, groups).Success? <==>
              forall i :: 0 <= i < |ix.ids| ==> RepairEntry(ix.ids[i], ix.records[ix.ids[i]], GroupOf(groups, ix.ids[i])).Success?
    ensures RepairIndex(ix, groups).Failure? ==>
              exists i :: 0 <= i < |ix.ids|
                && RepairEntry(ix.ids[i], ix.records[ix.ids[i]], GroupOf(groups, ix.ids[i])) == Failure(RepairIndex(ix, groups).error)
                && forall j :: 0 <= j < i ==> RepairEntry(ix.ids[j], ix.records[ix.ids[j]], GroupOf(groups, ix.ids[j])).Success?
  {
    var n := |ix.ids|;
    var outs := Outcomes(ix, groups);
    AccumulateFailure(ix, outs, n);
    assert forall i :: 0 <= i < n ==> outs[i] == RepairEntry(ix.ids[i], ix.records[ix.ids[i]], GroupOf(groups, ix.ids[i]));
    if RepairIndex(ix, groups).Failure? {
      var i :| 0 <= i < n && outs[i] == Failure(RepairIndex(ix, groups).error) && forall j :: 0 <= j < i ==> outs[j].Success?;
      assert RepairEntry(ix.ids[i], ix.records[ix.ids[i]], GroupOf(groups, ix.ids[i])) == Failure(RepairIndex(ix, groups).error);
    }
  }

  /** An index every record of which the pass leaves as it is, raising nowhere. */
  ghost predicate IsFixpoint(ix: Index, groups: map<string, Group>) {
    forall id :: id in ix.records ==>
      RepairEntry(id, ix.records[id], GroupOf(groups, id)).Success? &&
      RepairEntry(id, ix.records[id], GroupOf(groups, id)).value.record == ix.records[id]
  }

  /** A pass over a fixpoint succeeds and changes no record. */
  lemma FixpointPassChangesNothing(ix: Index, groups: map<string, Group>)
    requires ValidIndex(ix) && IsFixpoint(ix, groups)
    ensures RepairIndex(ix, groups).Success? && RepairIndex(ix, groups).value.records == ix.records
  {
    AccumulateUnchangedKeepsRecords(ix, Outcomes(ix, groups), |ix.ids|);
  }

  /**
   * Running the pass again on the index it produced raises nowhere and
   * changes no record; it counts again exactly the damaged records with a
   * group that neither an attribute nor `raw_data` could rebuild — those
   * that kept an empty or "Unknown" `original_path` — so a second run
   * reports zero repairs only when there were none of those.
   */
  lemma SecondPass(ix: Index, groups: map<string, Group>)
    requires ValidIndex(ix) && RepairIndex(ix, groups).Success?
    ensures var once := Index(ix.ids, RepairIndex(ix, groups).value.records);
            && ValidIndex(once)
            && RepairIndex(once, groups).Success?
            && RepairIndex(once, groups).value.records == once.records
            && RepairIndex(once, groups).value.repaired ==
                 |set id | id in ix.records && Counts(ix.records, groups, id)
                           && FirstPathAttribute(groups[id].attrs).None? && groups[id].rawData.None?|
  {
    var once := Index(ix.ids, RepairIndex(ix, groups).value.records);
    RepairedIndexIsFixpoint(ix, groups);
    FixpointPassChangesNothing(once, groups);
    RepairIndexCount(once, groups);
    assert (set id | id in once.records && Counts(once.records, groups, id)) ==
           (set id | id in ix.records && Counts(ix.records, groups, id)
                     && FirstPathAttribute(groups[id].attrs).None? && groups[id].rawData.None?);
  }

  /**
   * The index the pass produced is a fixpoint of the pass, with the same
   * ids; a record of it counts again exactly when it was damaged, had a
   * group, and neither an attribute nor `raw_data` could rebuild it.
   */
  lemma RepairedIndexIsFixpoint(ix: Index, groups: map<string, Group>)
    requires ValidIndex(ix) && RepairIndex(ix, groups).Success?
    ensures var once := Index(ix.ids, RepairIndex(ix, groups).value.records);
            && ValidIndex(once)
            && IsFixpoint(once, groups)
            && once.records.Keys == ix.records.Keys
            && forall id :: id in once.records ==>
                 (Counts(once.records, groups, id) <==>
                    Counts(ix.records, groups, id) && FirstPathAttribute(groups[id].attrs).None? && groups[id].rawData.None?)
  {
    var t := RepairIndex(ix, groups).value;
    var once := Index(ix.ids, t.records);
    RepairIndexPointwise(ix, groups);
    assert ValidIndex(once);
    forall id | id in once.records
      ensures RepairEntry(id, once.records[id], GroupOf(groups, id)).Success?
      ensures RepairEntry(id, once.records[id], GroupOf(groups, id)).value.record == once.records[id]
      ensures Counts(once.records, groups, id) <==>
                Counts(ix.records, groups, id) && FirstPathAttribute(groups[id].attrs).None? && groups[id].rawData.None?
    {
      RepairEntryIdempotent(id, ix.records[id], GroupOf(groups, id));
    }
  }

  /**
   * A record whose `original_path` is "Unknown", in a group with no
   * path-like attribute and no `raw_data`, keeps its sentinel and is counted
   * again on every run: the pass is not idempotent in its count.
   */
  lemma KeptSentinelCountsEveryRun()
    ensures var rec := map[OriginalPath := Str(Unknown)];
            var groups := map["a" := Group([Attribute("note", Text("no path here"))], None)];
            var kept := rec[FileName := Str(Unknown)][Status := Str(Recovered)];
            && RepairIndex(Index(["a"], map["a" := rec]), groups) == Success(Tally(map["a" := kept], 1))
            && RepairIndex(Index(["a"], map["a" := kept]), groups) == Success(Tally(map["a" := kept], 1))
  {
    var rec := map[OriginalPath := Str(Unknown)];
    var group := Group([Attribute("note", Text("no path here"))], None);
    var groups := map["a" := group];
    var kept := rec[FileName := Str(Unknown)][Status := Str(Recovered)];
    BasenameOfPlainName(Unknown);
    assert !LooksLikePath("no path here");
    assert FirstPathAttribute(group.attrs) == None;
    assert Recover("a", rec, None) == Success(kept);
    assert Recover("a", kept, None) == Success(kept) by {
      assert kept[FileName := Str(Unknown)][Status := Str(Recovered)] == kept;
    }
    assert RepairEntry("a", rec, Some(group)) == Success(Entry(kept, true));
    assert RepairEntry("a", kept, Some(group)) == Success(Entry(kept, true));
    SinglePass("a", rec, group);
    SinglePass("a", kept, group);
  }

  /** The pass over an index of one record is the repair of that record. */
  lemma SinglePass(id: string, rec: Record, group: Group)
    ensures RepairIndex(Index([id], map[id := rec]), map[id := group]) ==
              match RepairEntry(id, rec, Some(group))
              case Failure(e) => Failure(e)
              case Success(entry) => Success(Tally(map[id := entry.record], if entry.counted then 1 else 0))
  {
    var ix := Index([id], map[id := rec]);
    var groups := map[id := group];
    assert ValidIndex(ix);
    var outs := Outcomes(ix, groups);
    assert outs[0] == RepairEntry(id, rec, Some(group)) by {
      assert GroupOf(groups, id) == Some(group);
    }
    assert Accumulate(ix, outs, 0) == Success(Tally(map[id := rec], 0));
    if outs[0].Success? {
      assert map[id := rec][id := outs[0].value.record] == map[id := outs[0].value.record];
    }
  }

  /**
   * A record without `original_path`, in a group with neither a path-like
   * attribute nor `raw_data`, makes the pass raise KeyError, so nothing is
   * written; with `raw_data` holding `photon_data` it gets a placeholder.
   */
  lemma MissingPathOutcomes()
    ensures var rec: Record := map[Other("added") := NonStr(true)];
            RepairIndex(Index(["a"], map["a" := rec]), map["a" := Group([], None)]) == Failure(MissingOriginalPath)
    ensures var rec: Record := map[Other("added") := NonStr(true)];
            var placeholder := "recovered_file_a.flz";
            var rebuilt := rec[FileType := Str("flz")][OriginalPath := Str(placeholder)]
                              [FileName := Str(placeholder)][Status := Str(Recovered)];
            RepairIndex(Index(["a"], map["a" := rec]), map["a" := Group([], Some(RawData(true)))])
              == Success(Tally(map["a" := rebuilt], 1))
  {
    var rec: Record := map[Other("added") := NonStr(true)];
    var placeholder := "recovered_file_a.flz";
    var rebuilt := rec[FileType := Str("flz")][OriginalPath := Str(placeholder)]
                      [FileName := Str(placeholder)][Status := Str(Recovered)];
    assert FirstPathAttribute([]) == None;
    assert RepairEntry("a", rec, Some(Group([], None))) == Failure(MissingOriginalPath);
    SinglePass("a", rec, Group([], None));
    BasenameOfPlainName(placeholder);
    assert PlaceholderPath("a", true) == placeholder;
    assert RepairEntry("a", rec, Some(Group([], Some(RawData(true))))) == Success(Entry(rebuilt, true));
    SinglePass("a", rec, Group([], Some(RawData(true))));
  }
}
