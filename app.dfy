/**
 * The `App` class of `src/js/app.js`: it owns the gratitude record store and
 * updates it in place when an entry is added, on every display pass (which
 * prunes old records) and on a double-click that removes an entry.
 *
 * The clock is a parameter (`now`, in milliseconds); storage, the input box
 * and the page are outside the model.
 */
module Gratitude {
  import opened UtcTime
  import opened SeqUtil
  import opened JsString
  import opened RecordStore
  import opened Display

  /** The store after `addGratitude(input)` at `now`: blank input leaves it alone, otherwise add then display. */
  function AddGratitudeEffect(rs: seq<Record>, input: string, now: int): seq<Record>
  {
    if Trim(input) == [] then rs else Prune(AddEntry(rs, input, now), now)
  }

  /** The store after a double-click on an item tagged `day` showing `text`. */
  function DoubleClickEffect(rs: seq<Record>, day: int, text: string, now: int): seq<Record>
  {
    if FindDay(rs, day).None? then rs else Prune(RemoveEntry(rs, day, text), now)
  }

  /**
   * Both handlers keep the store at most one record per day, and after an
   * add, today's record holds the trimmed text as its last entry.
   */
  lemma HandlersKeepOnePerDay(rs: seq<Record>, input: string, day: int, text: string, now: int)
    requires OnePerDay(rs)
    ensures OnePerDay(AddGratitudeEffect(rs, input, now))
    ensures OnePerDay(DoubleClickEffect(rs, day, text, now))
    ensures Trim(input) != [] ==>
      var r := AddGratitudeEffect(rs, input, now);
      && FindDay(r, UtcDay(now)).Some?
      && var e := r[FindDay(r, UtcDay(now)).value].entries;
      |e| > 0 && e[|e| - 1] == Trim(input)
  {
    var t := Trim(input);
    if t != [] {
      AddLandsToday(rs, t, now);
    }
    RemoveEntryEffect(rs, day, text);
    PruneKeepsOnePerDay(RemoveEntry(rs, day, text), now);
  }

  /** After the add and the pruning pass, today's one record ends with the text. */
  lemma AddLandsToday(rs: seq<Record>, t: string, now: int)
    requires OnePerDay(rs)
    ensures var r := Prune(Insert(rs, t, now), now);
      && OnePerDay(r)
      && FindDay(r, UtcDay(now)).Some?
      && var e := r[FindDay(r, UtcDay(now)).value].entries;
      |e| > 0 && e[|e| - 1] == t
  {
    var ins := Insert(rs, t, now);
    InsertKeepsOnePerDay(rs, t, now);
    var i := FindDay(ins, UtcDay(now)).value;
    var last := ins[i];
    assert FreshDate(last.date, now) by {
      assert UtcDay(last.date) == UtcDay(now);
    }
    var r := Prune(ins, now);
    assert OnePerDay(r) && last in r by {
      PruneKeepsOnePerDay(ins, now);
    }
    var k :| 0 <= k < |r| && r[k] == last;
    FindOwnDay(r, k);
  }

  class App {
    /** `gratitudeRecords`. */
    var records: seq<Record>

    /** Loads the decoded store and runs the first display pass (`init`). */
    constructor(stored: seq<Record>, now: int)
      ensures records == Prune(stored, now)
    {
      records := stored;
      new;
      var _ := DisplayGratitude(now);
    }

    /**
     * `displayGratitude`: the records are walked (`CollectEntries`), then the
     * items are shuffled, or the placeholder row stands for none.
     */
    method DisplayGratitude(now: int) returns (view: View)
      modifies this
      ensures records == Prune(old(records), now)
      ensures view.Placeholder? <==> Flatten(records, now) == []
      ensures view.Shown? ==> multiset(view.items) == multiset(Flatten(records, now))
    {
      var allEntries := CollectEntries(now);
      if |allEntries| == 0 {
        view := Placeholder;
        return;
      }
      var shuffled := Shuffle(allEntries);
      view := Shown(shuffled);
    }

    /**
     * The `forEach` of `displayGratitude` over a snapshot of the store: a
     * record more than seven UTC days from `now` is filtered out of the store
     * by its `date`, every other record contributes one item per entry with
     * its tier. The store left is the pruned store, and the items collected
     * are the flattened items of the pruned store.
     */
    method CollectEntries(now: int) returns (allEntries: seq<Item>)
      modifies this
      ensures records == Prune(old(records), now)
      ensures allEntries == Flatten(records, now)
    {
      var snapshot := records;
      allEntries := [];
      assert snapshot[..0] == [];
      KeepNothingStale(snapshot, now);
      var i := 0;
      ghost var stale: set<int> := {};
      while i < |snapshot|
        invariant 0 <= i <= |snapshot|
        invariant stale == StaleDates(snapshot[..i], now)
        invariant records == KeepUnlessStale(snapshot, now, stale)
        invariant allEntries == Flatten(Prune(snapshot[..i], now), now)
      {
        PruneFlattenStep(snapshot, i, now);
        StaleDatesStep(snapshot, i, now);
        if !FreshDate(snapshot[i].date, now) {
          KeepDropDate(snapshot, now, stale, snapshot[i].date);
          stale := stale + {snapshot[i].date};
        }
        allEntries := VisitRecord(snapshot[i], now, allEntries);
        i := i + 1;
      }
      assert snapshot[..i] == snapshot;
      KeepAllStaleMet(snapshot, now);
    }

    /**
     * The `forEach` callback of `displayGratitude` for one record of the
     * snapshot: a record too far from `now` is filtered out of the store by
     * its `date` and adds nothing; otherwise each of its entries is pushed as
     * an item with the record's tier.
     */
    method VisitRecord(record: Record, now: int, allEntries: seq<Item>) returns (pushed: seq<Item>)
      modifies this
      ensures !FreshDate(record.date, now) ==>
        records == DropDate(old(records), record.date) && pushed == allEntries
      ensures FreshDate(record.date, now) ==>
        records == old(records) && pushed == allEntries + ItemsOf(record, now)
    {
      var daysDiff := DaysDifference(record.date, now);
      assert FreshDate(record.date, now) <==> daysDiff <= MaxGratitudeDays;
      if daysDiff > MaxGratitudeDays {
        records := DropDate(records, record.date);
        return allEntries;
      }
      var opacityClass := Tier(daysDiff);
      pushed := allEntries;
      var k := 0;
      while k < |record.entries|
        invariant 0 <= k <= |record.entries|
        invariant pushed == allEntries + ItemsOf(record, now)[..k]
        modifies {}
      {
        ItemsOfPrefix(record, now, k);
        pushed := pushed + [Item(record.entries[k], opacityClass, UtcDay(record.date))];
        k := k + 1;
      }
      assert ItemsOf(record, now)[..k] == ItemsOf(record, now);
    }

    /**
     * `addGratitude` with the input box's value: the trimmed text is added
     * to today's record, or to a new record for today, and the display pass
     * runs. Blank input returns early.
     */
    method AddGratitude(input: string, now: int)
      modifies this
      ensures records == AddGratitudeEffect(old(records), input, now)
    {
      var text := Trim(input);
      if text == [] {
        return;
      }
      var today := UtcDay(now);
      if FindDay(records, today).None? {
        records := records + [Record(now, [text])];
      } else {
        // the second `find`: its callback appends to every record of today
        // and never returns true, so it visits the whole store
        ghost var before := records;
        var j := 0;
        while j < |records|
          invariant 0 <= j <= |records| == |before|
          invariant forall k :: 0 <= k < j ==> records[k] == AppendToDay(before, today, text)[k]
          invariant forall k :: j <= k < |records| ==> records[k] == before[k]
        {
          if UtcDay(records[j].date) == today {
            records := records[j := Record(records[j].date, records[j].entries + [text])];
          }
          j := j + 1;
        }
        assert records == AppendToDay(before, today, text);
      }
      var _ := DisplayGratitude(now);
    }

    /**
     * The double-click handler on an item tagged `day` with text `text`: the
     * first record of that day loses every entry equal to `text` and is
     * dropped when left empty; then the display pass runs. No such record:
     * nothing happens.
     */
    method RemoveOnDoubleClick(day: int, text: string, now: int)
      modifies this
      ensures records == DoubleClickEffect(old(records), day, text, now)
    {
      var found := FindDay(records, day);
      if found.None? {
        return;
      }
      var i := found.value;
      var record := records[i];
      var entries := Without(record.entries, text);
      records := records[i := Record(record.date, entries)];
      if |entries| == 0 {
        records := DropDate(records, record.date);
      }
      var _ := DisplayGratitude(now);
    }
  }
}
