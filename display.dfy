/**
 * What `displayGratitude` in `src/js/app.js` computes from the store: the
 * pruning of records older than the retention window, the emphasis tier of
 * each day distance, the flattening into one item per (record, entry) pair,
 * and the shuffle of those items.
 */
module Display {
  import opened UtcTime
  import opened SeqUtil
  import opened RecordStore

  /** `maxGratitudeDays`: the retention window in UTC days. */
  const MaxGratitudeDays: nat := 7

  /**
   * An emphasis tier: the opacity percentage of the CSS class and whether the
   * item also gets the primary colour (`opacity-100 text-primary-500 ...`).
   */
  datatype Opacity = Opacity(percent: nat, primary: bool)

  /**
   * The `switch (daysDiff)`: today is the primary tier at full opacity; each
   * older day up to the window is ten points fainter; anything else falls to
   * the default `opacity-0`.
   */
  function Tier(daysDiff: nat): (o: Opacity)
    ensures o.primary <==> daysDiff == 0
    ensures daysDiff <= MaxGratitudeDays ==> o.percent == 100 - 10 * daysDiff
    ensures daysDiff > MaxGratitudeDays ==> o.percent == 0
  {
    if daysDiff == 0 then Opacity(100, true)
    else if daysDiff == 1 then Opacity(90, false)
    else if daysDiff == 2 then Opacity(80, false)
    else if daysDiff == 3 then Opacity(70, false)
    else if daysDiff == 4 then Opacity(60, false)
    else if daysDiff == 5 then Opacity(50, false)
    else if daysDiff == 6 then Opacity(40, false)
    else if daysDiff == 7 then Opacity(30, false)
    else Opacity(0, false)
  }

  /** Within the window, emphasis strictly decreases with the day distance. */
  lemma TierStrictlyDecreasing(d1: nat, d2: nat)
    requires d1 < d2 <= MaxGratitudeDays
    ensures Tier(d1).percent > Tier(d2).percent
  {
  }

  /** A record dated `date` survives a display pass at `now`. */
  predicate FreshDate(date: int, now: int)
  {
    DaysDifference(date, now) <= MaxGratitudeDays
  }

  /** The store after a display pass at `now`: the records at most seven UTC days away, in order. */
  function Prune(rs: seq<Record>, now: int): (r: seq<Record>)
    ensures |r| <= |rs|
    ensures forall x :: x in r <==> x in rs && FreshDate(x.date, now)
  {
    if rs == [] then []
    else (if FreshDate(rs[0].date, now) then [rs[0]] else []) + Prune(rs[1..], now)
  }

  lemma {:induction false} PruneAppend(a: seq<Record>, b: seq<Record>, now: int)
    ensures Prune(a + b, now) == Prune(a, now) + Prune(b, now)
  {
    if a == [] {
      assert a + b == b;
    } else {
      assert (a + b)[1..] == a[1..] + b;
      PruneAppend(a[1..], b, now);
    }
  }

  /** Pruning keeps at most one record per day. */
  lemma {:induction false} PruneKeepsOnePerDay(rs: seq<Record>, now: int)
    requires OnePerDay(rs)
    ensures OnePerDay(Prune(rs, now))
  {
    if rs != [] {
      PruneKeepsOnePerDay(rs[1..], now);
      if FreshDate(rs[0].date, now) {
        var t := Prune(rs[1..], now);
        var r := [rs[0]] + t;
        forall a, b | 0 <= a < b < |r| ensures UtcDay(r[a].date) != UtcDay(r[b].date) {
          assert r[b] == t[b - 1] && t[b - 1] in rs[1..];
          if a > 0 {
            assert r[a] == t[a - 1];
          }
        }
      }
    }
  }

  /**
   * The loop's view of the store after it has met the stale dates in `stale`:
   * `records.filter(item => item.date !== date)` for each of them, applied to
   * the snapshot.
   */
  function KeepUnlessStale(rs: seq<Record>, now: int, stale: set<int>): seq<Record>
  {
    if rs == [] then []
    else
      (if FreshDate(rs[0].date, now) || rs[0].date !in stale then [rs[0]] else [])
      + KeepUnlessStale(rs[1..], now, stale)
  }

  lemma {:induction false} KeepNothingStale(rs: seq<Record>, now: int)
    ensures KeepUnlessStale(rs, now, {}) == rs
  {
    if rs != [] {
      KeepNothingStale(rs[1..], now);
    }
  }

  /** Filtering out one more stale date is the same as adding it to `stale`. */
  lemma {:induction false} KeepDropDate(rs: seq<Record>, now: int, stale: set<int>, date: int)
    requires !FreshDate(date, now)
    ensures DropDate(KeepUnlessStale(rs, now, stale), date) == KeepUnlessStale(rs, now, stale + {date})
  {
    if rs != [] {
      KeepDropDate(rs[1..], now, stale, date);
      var head := if FreshDate(rs[0].date, now) || rs[0].date !in stale then [rs[0]] else [];
      var tail := KeepUnlessStale(rs[1..], now, stale);
      DropDateAppend(head, tail, date);
      assert DropDate(head, date) == if FreshDate(rs[0].date, now) || rs[0].date !in stale + {date} then [rs[0]] else [];
    }
  }

  /** The dates of the records of `rs` that a display pass at `now` drops. */
  function StaleDates(rs: seq<Record>, now: int): set<int>
  {
    if rs == [] then {}
    else
      var last := rs[|rs| - 1];
      StaleDates(rs[..|rs| - 1], now) + (if FreshDate(last.date, now) then {} else {last.date})
  }

  /** The stale dates met after one more record of the snapshot. */
  lemma StaleDatesStep(rs: seq<Record>, i: nat, now: int)
    requires i < |rs|
    ensures StaleDates(rs[..i + 1], now)
      == StaleDates(rs[..i], now) + (if FreshDate(rs[i].date, now) then {} else {rs[i].date})
  {
    assert rs[..i + 1][..i] == rs[..i];
  }

  /** Every stale record's date is among the stale dates. */
  lemma {:induction false} StaleDatesCover(rs: seq<Record>, now: int)
    ensures forall k :: 0 <= k < |rs| && !FreshDate(rs[k].date, now) ==> rs[k].date in StaleDates(rs, now)
  {
    if rs != [] {
      var front := rs[..|rs| - 1];
      StaleDatesCover(front, now);
      forall k | 0 <= k < |rs| && !FreshDate(rs[k].date, now) ensures rs[k].date in StaleDates(rs, now) {
        if k < |rs| - 1 {
          assert front[k] == rs[k];
        }
      }
    }
  }

  /** Once every stale date of the snapshot has been met, what is left is `Prune`. */
  lemma KeepAllStaleMet(rs: seq<Record>, now: int)
    ensures KeepUnlessStale(rs, now, StaleDates(rs, now)) == Prune(rs, now)
  {
    StaleDatesCover(rs, now);
    KeepStaleMet(rs, now, StaleDates(rs, now));
  }

  lemma {:induction false} KeepStaleMet(rs: seq<Record>, now: int, stale: set<int>)
    requires forall k :: 0 <= k < |rs| && !FreshDate(rs[k].date, now) ==> rs[k].date in stale
    ensures KeepUnlessStale(rs, now, stale) == Prune(rs, now)
  {
    if rs != [] {
      KeepStaleMet(rs[1..], now, stale);
    }
  }

  /**
   * One displayed item: the entry's text, its record's emphasis tier, and the
   * UTC day the item is tagged with (`dataset.date`), which a double-click
   * hands back to the removal. Here the tag is the day of the item's own
   * record; see `AsWrittenTag` for what the source computes.
   */
  datatype Item = Item(text: string, opacity: Opacity, day: int)

  /** The item for the `k`-th entry of `r`. */
  function ItemAt(r: Record, k: nat, now: int): Item
    requires k < |r.entries|
  {
    Item(r.entries[k], Tier(DaysDifference(r.date, now)), UtcDay(r.date))
  }

  /** `record.entries.forEach(entry => allEntries.push(...))` for one record. */
  function ItemsOf(r: Record, now: int): (items: seq<Item>)
    ensures |items| == |r.entries|
    ensures forall k :: 0 <= k < |r.entries| ==> items[k] == ItemAt(r, k, now)
  {
    seq(|r.entries|, k requires 0 <= k < |r.entries| => ItemAt(r, k, now))
  }

  /** All items of the given records, record by record, entry by entry. */
  function Flatten(rs: seq<Record>, now: int): seq<Item>
  {
    if rs == [] then [] else ItemsOf(rs[0], now) + Flatten(rs[1..], now)
  }

  lemma {:induction false} FlattenAppend(a: seq<Record>, b: seq<Record>, now: int)
    ensures Flatten(a + b, now) == Flatten(a, now) + Flatten(b, now)
  {
    if a == [] {
      assert a + b == b;
    } else {
      assert (a + b)[1..] == a[1..] + b;
      FlattenAppend(a[1..], b, now);
    }
  }

  /** One more entry of a record pushed onto the items. */
  lemma ItemsOfPrefix(r: Record, now: int, k: nat)
    requires k < |r.entries|
    ensures ItemsOf(r, now)[..k + 1] == ItemsOf(r, now)[..k] + [ItemAt(r, k, now)]
  {
  }

  /** One more record of the snapshot visited by the display loop. */
  lemma PruneFlattenStep(rs: seq<Record>, i: nat, now: int)
    requires i < |rs|
    ensures FreshDate(rs[i].date, now) ==>
      Flatten(Prune(rs[..i + 1], now), now) == Flatten(Prune(rs[..i], now), now) + ItemsOf(rs[i], now)
    ensures !FreshDate(rs[i].date, now) ==>
      Flatten(Prune(rs[..i + 1], now), now) == Flatten(Prune(rs[..i], now), now)
  {
    assert rs[..i + 1] == rs[..i] + [rs[i]];
    PruneAppend(rs[..i], [rs[i]], now);
    assert [rs[i]][1..] == [];
    FlattenAppend(Prune(rs[..i], now), Prune([rs[i]], now), now);
    if FreshDate(rs[i].date, now) {
      assert Flatten([rs[i]], now) == ItemsOf(rs[i], now) + Flatten([], now);
    } else {
      assert Prune([rs[i]], now) == [];
      assert Flatten(Prune(rs[..i], now), now) + [] == Flatten(Prune(rs[..i], now), now);
    }
  }

  /** There are exactly as many items as entries: `getDemoInfo().totalEntries`. */
  lemma {:induction false} FlattenLength(rs: seq<Record>, now: int)
    ensures |Flatten(rs, now)| == EntryCount(rs)
  {
    if rs != [] {
      FlattenLength(rs[1..], now);
    }
  }

  /**
   * Exactly one item per (record, entry) pair: the `k`-th entry of the `i`-th
   * record is the item at position `EntryCount(rs[..i]) + k`, and together
   * with `FlattenLength` these positions cover the whole list.
   */
  lemma {:induction false} FlattenAt(rs: seq<Record>, now: int, i: nat, k: nat)
    requires i < |rs| && k < |rs[i].entries|
    ensures EntryCount(rs[..i]) + k < |Flatten(rs, now)|
    ensures Flatten(rs, now)[EntryCount(rs[..i]) + k] == ItemAt(rs[i], k, now)
  {
    FlattenLength(rs[1..], now);
    if i == 0 {
      assert rs[..0] == [];
    } else {
      FlattenAt(rs[1..], now, i - 1, k);
      assert rs[..i][1..] == rs[1..][..i - 1];
      assert rs[..i][0] == rs[0];
    }
  }

  /** Every item comes from an entry of a record. */
  lemma {:induction false} FlattenMember(rs: seq<Record>, now: int, x: Item)
    requires x in Flatten(rs, now)
    ensures exists i, k :: 0 <= i < |rs| && 0 <= k < |rs[i].entries| && x == ItemAt(rs[i], k, now)
  {
    if x in ItemsOf(rs[0], now) {
      var k :| 0 <= k < |rs[0].entries| && ItemsOf(rs[0], now)[k] == x;
      assert x == ItemAt(rs[0], k, now);
    } else {
      FlattenMember(rs[1..], now, x);
      var i, k :| 0 <= i < |rs[1..]| && 0 <= k < |rs[1..][i].entries| && x == ItemAt(rs[1..][i], k, now);
      assert rs[1..][i] == rs[i + 1];
    }
  }

  /** The placeholder row is shown exactly when no record has an entry. */
  lemma {:induction false} FlattenEmpty(rs: seq<Record>, now: int)
    ensures Flatten(rs, now) == [] <==> forall i :: 0 <= i < |rs| ==> rs[i].entries == []
  {
    FlattenLength(rs, now);
    if Flatten(rs, now) != [] {
      var x := Flatten(rs, now)[0];
      FlattenMember(rs, now, x);
    } else {
      forall i | 0 <= i < |rs| ensures rs[i].entries == [] {
        if rs[i].entries != [] {
          FlattenAt(rs, now, i, 0);
        }
      }
    }
  }

  /**
   * After a display pass, every shown item is at most seven UTC days old, so
   * its tier is one of the eight visible ones and never the default
   * `opacity-0`; its emphasis is `100 - 10 * distance`.
   */
  lemma DisplayedTiersVisible(rs: seq<Record>, now: int, x: Item)
    requires x in Flatten(Prune(rs, now), now)
    ensures Abs(x.day - UtcDay(now)) <= MaxGratitudeDays
    ensures x.opacity == Tier(Abs(x.day - UtcDay(now)))
    ensures 30 <= x.opacity.percent <= 100
  {
    FlattenMember(Prune(rs, now), now, x);
    var i, k :| 0 <= i < |Prune(rs, now)| && 0 <= k < |Prune(rs, now)[i].entries|
      && x == ItemAt(Prune(rs, now)[i], k, now);
    assert Prune(rs, now)[i] in Prune(rs, now);
  }

  /** What the page shows: the placeholder row, or the items in display order. */
  datatype View = Placeholder | Shown(items: seq<Item>)

  /**
   * `shuffleArray`: a copy of the input is shuffled by Fisher-Yates, the input
   * itself is left alone. `Math.random` is replaced by an arbitrary choice of
   * the swap index in `[0, i]`; whatever it picks, the result is a
   * permutation of the input.
   */
  method Shuffle<T>(s: seq<T>) returns (r: seq<T>)
    ensures |r| == |s|
    ensures multiset(r) == multiset(s)
  {
    var shuffled := new T[|s|](k requires 0 <= k < |s| => s[k]);
    assert shuffled[..] == s;
    var i := shuffled.Length - 1;
    while i > 0
      invariant -1 <= i < shuffled.Length || shuffled.Length == 0
      invariant multiset(shuffled[..]) == multiset(s)
    {
      var j :| 0 <= j <= i;
      shuffled[i], shuffled[j] := shuffled[j], shuffled[i];
      i := i - 1;
    }
    r := shuffled[..];
  }

  /**
   * `records.find(record => record.entries.includes(text))`, as the position
   * of the first record in store order whose entries contain `text`.
   */
  function FirstContaining(rs: seq<Record>, text: string): (k: Option<nat>)
    ensures k.None? <==> forall i :: 0 <= i < |rs| ==> text !in rs[i].entries
    ensures k.Some? ==> k.value < |rs| && text in rs[k.value].entries
    ensures k.Some? ==> forall i :: 0 <= i < k.value ==> text !in rs[i].entries
  {
    if rs == [] then None
    else if text in rs[0].entries then Some(0)
    else match FirstContaining(rs[1..], text)
      case None => None
      case Some(k) => Some(k + 1)
  }

  /**
   * The tag the source gives a displayed item (line 81): the UTC day of the
   * first record, in store order, whose entries include the item's text,
   * whichever record the item came from.
   */
  function AsWrittenTag(rs: seq<Record>, text: string): Option<int>
  {
    match FirstContaining(rs, text)
    case None => None
    case Some(k) => Some(UtcDay(rs[k].date))
  }

  /** The lookup on line 81 always finds a record, so reading its `.date` never fails. */
  lemma AsWrittenTagDefined(rs: seq<Record>, now: int, x: Item)
    requires x in Flatten(rs, now)
    ensures AsWrittenTag(rs, x.text).Some?
  {
    FlattenMember(rs, now, x);
  }

  /**
   * The as-written tag misdirects a double-click. The same text logged on two
   * consecutive days (a checklist item ticked on both, say) gives two items;
   * the one from the later day is tagged with the earlier day, so
   * double-clicking it removes the text from the earlier record and drops that
   * record, while the clicked item's own record still holds the text.
   */
  lemma AsWrittenTagMisdirects()
    ensures var rs := [Record(0, ["a"]), Record(MsPerDay, ["a"])];
      var now := MsPerDay;
      var clicked := ItemAt(rs[1], 0, now);
      && OnePerDay(rs)
      && clicked in Flatten(Prune(rs, now), now)
      && clicked.day == 1
      && AsWrittenTag(rs, clicked.text) == Some(0)
      && RemoveEntry(rs, 0, clicked.text) == [rs[1]]
      && clicked.text in rs[1].entries
  {
    var rs := [Record(0, ["a"]), Record(MsPerDay, ["a"])];
    var now := MsPerDay;
    var clicked := ItemAt(rs[1], 0, now);
    assert UtcDay(0) == 0 && UtcDay(MsPerDay) == 1;
    assert OnePerDay(rs);
    assert Prune(rs, now) == rs by {
      assert FreshDate(0, now) && FreshDate(MsPerDay, now);
      assert rs[1..][1..] == [];
      assert Prune(rs[1..], now) == [rs[1]];
    }
    FlattenAt(rs, now, 1, 0);
    assert rs[..1] == [rs[0]];
    assert clicked in Flatten(Prune(rs, now), now);
    assert FirstContaining(rs, "a") == Some(0);
    assert FindDay(rs, 0) == Some(0);
    assert Without(["a"], "a") == [];
    assert RemoveEntry(rs, 0, "a") == DropDate([Record(0, []), rs[1]], 0);
    assert [Record(0, []), rs[1]][1..] == [rs[1]];
    assert DropDate([rs[1]], 0) == [rs[1]];
  }

  /**
   * With each item tagged by its own record's day, a double-click on the
   * `k`-th entry of record `i` finds record `i`, removes the text from it, and
   * leaves every other record in the store.
   */
  lemma OwnTagTargetsOwnRecord(rs: seq<Record>, now: int, i: nat, k: nat)
    requires OnePerDay(rs) && i < |rs| && k < |rs[i].entries|
    ensures var x := ItemAt(rs[i], k, now);
      var r := RemoveEntry(rs, x.day, x.text);
      && FindDay(rs, x.day) == Some(i)
      && (forall j :: 0 <= j < |rs| && j != i ==> rs[j] in r)
      && (forall y :: y in r && UtcDay(y.date) == x.day ==> x.text !in y.entries)
  {
    var x := ItemAt(rs[i], k, now);
    FindOwnDay(rs, i);
    RemoveEntryEffect(rs, x.day, x.text);
    var r := RemoveEntry(rs, x.day, x.text);
    var kept := Without(rs[i].entries, x.text);
    if kept == [] {
      forall j | 0 <= j < |rs| && j != i ensures rs[j] in r {
        if j < i { assert r[j] == rs[j]; } else { assert r[j - 1] == rs[j]; }
      }
    } else {
      forall j | 0 <= j < |rs| && j != i ensures rs[j] in r {
        assert r[j] == rs[j];
      }
      forall y | y in r && UtcDay(y.date) == x.day ensures x.text !in y.entries {
        var a :| 0 <= a < |r| && r[a] == y;
        if a != i {
          assert r[a] == rs[a];
        }
      }
    }
  }
}
