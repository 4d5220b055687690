/**
 * The demo-data manager of `src/js/populateData.js`: it merges a batch of
 * entries into the gratitude store under a given day, empties the store, and
 * reports simple aggregates over it.
 */
module PopulateData {
  import opened UtcTime
  import opened SeqUtil
  import opened RecordStore
  import opened Gratitude

  /**
   * The entries of an existing record after a batch is merged into it: each
   * batch entry that the (growing) list does not hold yet is pushed, in batch
   * order. Existing entries stay as a prefix, every batch entry ends up in the
   * list, and no appended entry was already there when it was pushed.
   */
  function Merge(existing: seq<string>, batch: seq<string>): (r: seq<string>)
    ensures existing <= r && |r| <= |existing| + |batch|
    ensures forall x :: x in r <==> x in existing || x in batch
    ensures forall k :: |existing| <= k < |r| ==> r[k] !in r[..k]
    decreases |batch|
  {
    if batch == [] then existing
    else
      var m := Merge(existing, batch[..|batch| - 1]);
      var e := batch[|batch| - 1];
      assert batch == batch[..|batch| - 1] + [e];
      assert forall k :: 0 <= k <= |m| ==> (m + [e])[..k] == m[..k];
      if e in m then m else m + [e]
  }

  /** One more batch entry merged. */
  lemma MergeStep(existing: seq<string>, batch: seq<string>, k: nat)
    requires k < |batch|
    ensures var m := Merge(existing, batch[..k]);
      Merge(existing, batch[..k + 1]) == if batch[k] in m then m else m + [batch[k]]
  {
    assert batch[..k + 1][..k] == batch[..k];
  }

  /** Merging into a duplicate-free list keeps it duplicate-free. */
  lemma MergeKeepsNoDuplicates(existing: seq<string>, batch: seq<string>)
    requires NoDuplicates(existing)
    ensures NoDuplicates(Merge(existing, batch))
  {
    var r := Merge(existing, batch);
    forall i, j | 0 <= i < j < |r| ensures r[i] != r[j] {
      if j < |existing| {
        assert r[i] == existing[i] && r[j] == existing[j];
      } else {
        assert r[i] in r[..j];
      }
    }
  }

  /**
   * The appended entries come in the order of their first occurrence in the
   * batch.
   */
  lemma {:induction false} MergeKeepsBatchOrder(existing: seq<string>, batch: seq<string>)
    ensures var r := Merge(existing, batch);
      forall k, l :: |existing| <= k < l < |r| ==> IndexOf(batch, r[k]) < IndexOf(batch, r[l])
    decreases |batch|
  {
    if batch != [] {
      var n := |batch|;
      var pre, e := batch[..n - 1], batch[n - 1];
      assert batch == pre + [e];
      var m := Merge(existing, pre);
      MergeKeepsBatchOrder(existing, pre);
      var r := Merge(existing, batch);
      forall k, l | |existing| <= k < l < |r| ensures IndexOf(batch, r[k]) < IndexOf(batch, r[l]) {
        AppendedFromBatch(existing, pre, k);
        IndexOfAppend(pre, [e], m[k]);
        if l < |m| {
          AppendedFromBatch(existing, pre, l);
          IndexOfAppend(pre, [e], m[l]);
        } else {
          assert e !in pre;
          assert IndexOf(batch, e) == n - 1 by { assert batch[..n - 1] == pre; }
        }
      }
    }
  }

  /** An entry the merge appended comes from the batch. */
  lemma AppendedFromBatch(existing: seq<string>, batch: seq<string>, k: nat)
    requires |existing| <= k < |Merge(existing, batch)|
    ensures Merge(existing, batch)[k] in batch
  {
    var m := Merge(existing, batch);
    assert m[..|existing|] == existing;
    assert m[k] !in existing by { assert m[k] !in m[..k] && existing <= m[..k]; }
  }

  /**
   * The store effect of `addEntriesForDate(date, entries)`: the first record
   * on the UTC day of `date` gets the batch merged into its entries; with no
   * such record, a record holding a copy of the batch is pushed at the end.
   */
  function MergeIntoStore(rs: seq<Record>, date: int, batch: seq<string>): seq<Record>
  {
    match FindDay(rs, UtcDay(date))
    case None => rs + [Record(date, batch)]
    case Some(i) => rs[i := Record(rs[i].date, Merge(rs[i].entries, batch))]
  }

  /**
   * With at most one record per day, the merge either pushes exactly one new
   * record and changes nothing else, or only extends the day's record. The
   * invariant is kept, and afterwards the day's record holds every batch entry.
   */
  lemma MergeIntoStoreEffect(rs: seq<Record>, date: int, batch: seq<string>)
    requires OnePerDay(rs)
    ensures var r := MergeIntoStore(rs, date, batch);
      && OnePerDay(r)
      && FindDay(r, UtcDay(date)).Some?
      && forall x :: x in batch ==> x in r[FindDay(r, UtcDay(date)).value].entries
    ensures FindDay(rs, UtcDay(date)).None? ==>
      MergeIntoStore(rs, date, batch) == rs + [Record(date, batch)]
    ensures FindDay(rs, UtcDay(date)).Some? ==>
      var i := FindDay(rs, UtcDay(date)).value;
      var r := MergeIntoStore(rs, date, batch);
      && |r| == |rs| && r[i].date == rs[i].date && rs[i].entries <= r[i].entries
      && forall j :: 0 <= j < |rs| && j != i ==> r[j] == rs[j]
  {
    var r := MergeIntoStore(rs, date, batch);
    match FindDay(rs, UtcDay(date))
    case None =>
      assert r[|rs|] == Record(date, batch);
      assert forall j :: 0 <= j < |rs| ==> r[j] == rs[j];
      FindOwnDay(r, |rs|);
    case Some(i) =>
      assert forall j :: 0 <= j < |rs| ==> r[j].date == rs[j].date;
      FindOwnDay(r, i);
  }

  /** `totalEntries` after a merge grows by at most the batch size, and by exactly that for a new day. */
  lemma MergeIntoStoreCounts(rs: seq<Record>, date: int, batch: seq<string>)
    ensures EntryCount(MergeIntoStore(rs, date, batch)) <= EntryCount(rs) + |batch|
    ensures FindDay(rs, UtcDay(date)).None? ==>
      EntryCount(MergeIntoStore(rs, date, batch)) == EntryCount(rs) + |batch|
  {
    match FindDay(rs, UtcDay(date))
    case None =>
      EntryCountAppend(rs, Record(date, batch));
    case Some(i) =>
      EntryCountUpdate(rs, i, Record(rs[i].date, Merge(rs[i].entries, batch)));
  }

  lemma {:induction false} EntryCountAppend(rs: seq<Record>, x: Record)
    ensures EntryCount(rs + [x]) == EntryCount(rs) + |x.entries|
  {
    if rs != [] {
      assert (rs + [x])[1..] == rs[1..] + [x];
      EntryCountAppend(rs[1..], x);
    }
  }

  lemma {:induction false} EntryCountUpdate(rs: seq<Record>, i: nat, x: Record)
    requires i < |rs|
    ensures EntryCount(rs[i := x]) == EntryCount(rs) - |rs[i].entries| + |x.entries|
  {
    if i > 0 {
      assert rs[i := x][1..] == rs[1..][i - 1 := x];
      EntryCountUpdate(rs[1..], i - 1, x);
    }
  }

  /** `Math.min` over the record dates of a non-empty store. */
  function MinDate(rs: seq<Record>): (m: int)
    requires rs != []
    ensures exists k :: 0 <= k < |rs| && rs[k].date == m
    ensures forall k :: 0 <= k < |rs| ==> m <= rs[k].date
  {
    if |rs| == 1 then rs[0].date
    else
      var rest := MinDate(rs[1..]);
      assert forall k :: 1 <= k < |rs| ==> rs[k] == rs[1..][k - 1];
      if rs[0].date <= rest then rs[0].date else rest
  }

  /** `Math.max` over the record dates of a non-empty store. */
  function MaxDate(rs: seq<Record>): (m: int)
    requires rs != []
    ensures exists k :: 0 <= k < |rs| && rs[k].date == m
    ensures forall k :: 0 <= k < |rs| ==> rs[k].date <= m
  {
    if |rs| == 1 then rs[0].date
    else
      var rest := MaxDate(rs[1..]);
      assert forall k :: 1 <= k < |rs| ==> rs[k] == rs[1..][k - 1];
      if rs[0].date >= rest then rs[0].date else rest
  }

  /** The oldest and newest record instants. */
  datatype DateRange = DateRange(oldest: int, newest: int)

  /** What `getDemoInfo` reports; a missing range stands for `null`. */
  datatype DemoInfo = DemoInfo(totalRecords: nat, totalEntries: nat, dateRange: Option<DateRange>)

  class PopulateDataManager {
    /** The application whose store the demo data goes into. */
    const app: App

    constructor(app: App)
      ensures this.app == app
    {
      this.app := app;
    }

    /**
     * `addEntriesForDate`: finds the first record on the UTC day of `date`;
     * pushes each batch entry it does not hold yet onto its entries, or, with
     * no such record, pushes a new record with a copy of the batch.
     */
    method AddEntriesForDate(date: int, entries: seq<string>)
      modifies app
      ensures app.records == MergeIntoStore(old(app.records), date, entries)
    {
      var found := FindDay(app.records, UtcDay(date));
      if found.None? {
        app.records := app.records + [Record(date, entries)];
        return;
      }
      var i := found.value;
      ghost var before := app.records;
      var k := 0;
      assert entries[..0] == [];
      while k < |entries|
        invariant 0 <= k <= |entries| && |app.records| == |before|
        invariant app.records == before[i := Record(before[i].date, Merge(before[i].entries, entries[..k]))]
      {
        MergeStep(before[i].entries, entries, k);
        var existing := app.records[i];
        if entries[k] !in existing.entries {
          app.records := app.records[i := Record(existing.date, existing.entries + [entries[k]])];
        }
        k := k + 1;
      }
      assert entries[..k] == entries;
    }

    /** `clearDemoData`: the store becomes empty and the display pass runs on it. */
    method ClearDemoData(now: int)
      modifies app
      ensures app.records == []
    {
      app.records := [];
      var _ := app.DisplayGratitude(now);
    }

    /**
     * `getDemoInfo`: the number of records, the number of entries over all
     * records, and the oldest and newest record instants, which are absent
     * exactly when the store is empty.
     */
    function GetDemoInfo(): (info: DemoInfo)
      reads app
      ensures info.totalRecords == |app.records|
      ensures info.totalEntries == EntryCount(app.records)
      ensures info.dateRange.None? <==> app.records == []
      ensures info.dateRange.Some? ==>
        var range := info.dateRange.value;
        && range.oldest <= range.newest
        && (forall k :: 0 <= k < |app.records| ==> range.oldest <= app.records[k].date <= range.newest)
        && (exists k :: 0 <= k < |app.records| && app.records[k].date == range.oldest)
        && (exists k :: 0 <= k < |app.records| && app.records[k].date == range.newest)
    {
      var rs := app.records;
      DemoInfo(|rs|, EntryCount(rs),
               if |rs| > 0 then Some(DateRange(MinDate(rs), MaxDate(rs))) else None)
    }

    /** `hasDemoData`: the store is non-empty, exactly when there is a date range to report. */
    function HasDemoData(): (b: bool)
      reads app
      ensures b <==> GetDemoInfo().dateRange.Some?
      ensures b <==> GetDemoInfo().totalRecords > 0
    {
      |app.records| > 0
    }
  }
}
