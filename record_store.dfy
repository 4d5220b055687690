/**
 * The gratitude record store of `src/js/app.js`: a list of records, each the
 * bundle of entries logged on one UTC calendar day. This module holds the
 * store as a value and the effect of each store operation on it; the class
 * `Gratitude.App` applies these effects to its `records` field.
 */
module RecordStore {
  import opened UtcTime
  import opened SeqUtil
  import opened JsString

  /** `{date, entries}`: the instant of the day's first entry, and the entries in the order added. */
  datatype Record = Record(date: int, entries: seq<string>)

  /** The store's intended invariant: at most one record per UTC calendar day. */
  predicate OnePerDay(rs: seq<Record>)
  {
    forall i, j :: 0 <= i < j < |rs| ==> UtcDay(rs[i].date) != UtcDay(rs[j].date)
  }

  /**
   * `records.find(r => getDateStringFromUTC(r.date) === day)`, as the position
   * of the first record on UTC day `day`.
   */
  function FindDay(rs: seq<Record>, day: int): (k: Option<nat>)
    ensures k.None? <==> forall i :: 0 <= i < |rs| ==> UtcDay(rs[i].date) != day
    ensures k.Some? ==> k.value < |rs| && UtcDay(rs[k.value].date) == day
    ensures k.Some? ==> forall i :: 0 <= i < k.value ==> UtcDay(rs[i].date) != day
  {
    if rs == [] then None
    else if UtcDay(rs[0].date) == day then Some(0)
    else match FindDay(rs[1..], day)
      case None => None
      case Some(k) => Some(k + 1)
  }

  /** Under the invariant, a record is the one `FindDay` finds for its own day. */
  lemma FindOwnDay(rs: seq<Record>, i: nat)
    requires OnePerDay(rs) && i < |rs|
    ensures FindDay(rs, UtcDay(rs[i].date)) == Some(i)
  {
  }

  /** Every record whose UTC day is `day` gets `text` appended to its entries. */
  function AppendToDay(rs: seq<Record>, day: int, text: string): seq<Record>
  {
    seq(|rs|, i requires 0 <= i < |rs| =>
      if UtcDay(rs[i].date) == day then Record(rs[i].date, rs[i].entries + [text]) else rs[i])
  }

  /**
   * The store effect of `addGratitude` for an already trimmed, non-empty text
   * (lines 172-184): a new record `{date: now, entries: [text]}` at the end when
   * no record has today's UTC day; otherwise `text` is appended to the entries
   * of every record on today's day (the second `find` never returns true, so it
   * visits them all).
   */
  function Insert(rs: seq<Record>, text: string, now: int): seq<Record>
  {
    if FindDay(rs, UtcDay(now)).None? then rs + [Record(now, [text])]
    else AppendToDay(rs, UtcDay(now), text)
  }

  /** The whole store effect of `addGratitude` on the raw input (lines 169-184). */
  function AddEntry(rs: seq<Record>, input: string, now: int): seq<Record>
  {
    var text := Trim(input);
    if text == [] then rs else Insert(rs, text, now)
  }

  /** Input that is empty after trimming changes nothing. */
  lemma AddEntryRejectsBlank(rs: seq<Record>, input: string, now: int)
    requires forall m :: 0 <= m < |input| ==> IsJsWhitespace(input[m])
    ensures AddEntry(rs, input, now) == rs
  {
  }

  /**
   * With at most one record per day, adding either pushes exactly one new
   * record `{date: now, entries: [text]}` at the end, or appends `text` to
   * today's record and leaves every other record as it was.
   */
  lemma InsertEffect(rs: seq<Record>, text: string, now: int)
    requires OnePerDay(rs)
    ensures FindDay(rs, UtcDay(now)).None? ==>
      Insert(rs, text, now) == rs + [Record(now, [text])]
    ensures FindDay(rs, UtcDay(now)).Some? ==>
      var i := FindDay(rs, UtcDay(now)).value;
      var r := Insert(rs, text, now);
      && |r| == |rs|
      && r[i] == Record(rs[i].date, rs[i].entries + [text])
      && forall j :: 0 <= j < |rs| && j != i ==> r[j] == rs[j]
  {
  }

  /** Adding keeps at most one record per day, and today then has a record. */
  lemma InsertKeepsOnePerDay(rs: seq<Record>, text: string, now: int)
    requires OnePerDay(rs)
    ensures OnePerDay(Insert(rs, text, now))
    ensures var r := Insert(rs, text, now);
      && FindDay(r, UtcDay(now)).Some?
      && var e := r[FindDay(r, UtcDay(now)).value].entries;
      |e| > 0 && e[|e| - 1] == text
  {
    var r := Insert(rs, text, now);
    if FindDay(rs, UtcDay(now)).None? {
      assert r[|rs|] == Record(now, [text]);
    } else {
      assert forall i :: 0 <= i < |rs| ==> r[i].date == rs[i].date;
    }
  }

  /** One call of `addGratitude`: the trimmed text and the instant the clock read. */
  datatype Add = Add(text: string, now: int)

  /** The texts of successive adds, in call order. */
  function Texts(adds: seq<Add>): seq<string>
  {
    if adds == [] then [] else [adds[0].text] + Texts(adds[1..])
  }

  /** Every add reads the clock on the UTC day `day`. */
  predicate OnDay(adds: seq<Add>, day: int)
  {
    forall i :: 0 <= i < |adds| ==> UtcDay(adds[i].now) == day
  }

  /** The store after successive adds, each at its own instant. */
  function InsertAll(rs: seq<Record>, adds: seq<Add>): seq<Record>
    decreases |adds|
  {
    if adds == [] then rs else InsertAll(Insert(rs, adds[0].text, adds[0].now), adds[1..])
  }

  /**
   * Successive adds at instants of one UTC day that has no record yet leave
   * exactly one record for that day, at the end, dated by the first add's
   * instant, with the entries in call order.
   */
  lemma {:induction false} SameDayAdds(rs: seq<Record>, adds: seq<Add>)
    requires adds != [] && OnDay(adds, UtcDay(adds[0].now))
    requires FindDay(rs, UtcDay(adds[0].now)).None?
    ensures InsertAll(rs, adds) == rs + [Record(adds[0].now, Texts(adds))]
  {
    var first := adds[0];
    assert Insert(rs, first.text, first.now) == rs + [Record(first.now, [first.text])];
    assert OnDay(adds[1..], UtcDay(first.now)) by {
      assert forall i :: 0 <= i < |adds[1..]| ==> adds[1..][i] == adds[i + 1];
    }
    SameDayAddsOnto(rs, first.now, [first.text], adds[1..]);
  }

  lemma {:induction false} SameDayAddsOnto(rs: seq<Record>, date: int, pre: seq<string>, adds: seq<Add>)
    requires FindDay(rs, UtcDay(date)).None? && OnDay(adds, UtcDay(date))
    ensures InsertAll(rs + [Record(date, pre)], adds) == rs + [Record(date, pre + Texts(adds))]
    decreases |adds|
  {
    if adds == [] {
      assert pre + Texts(adds) == pre;
    } else {
      var store := rs + [Record(date, pre)];
      var next := pre + [adds[0].text];
      AddToLastRecord(rs, date, pre, adds[0].text, adds[0].now);
      assert InsertAll(store, adds) == InsertAll(rs + [Record(date, next)], adds[1..]);
      assert OnDay(adds[1..], UtcDay(date)) by {
        assert forall i :: 0 <= i < |adds[1..]| ==> adds[1..][i] == adds[i + 1];
      }
      SameDayAddsOnto(rs, date, next, adds[1..]);
      assert next + Texts(adds[1..]) == pre + Texts(adds);
    }
  }

  /** When the day's only record is the last one, an add on that day appends to it. */
  lemma AddToLastRecord(rs: seq<Record>, date: int, pre: seq<string>, text: string, now: int)
    requires FindDay(rs, UtcDay(date)).None? && UtcDay(now) == UtcDay(date)
    ensures Insert(rs + [Record(date, pre)], text, now) == rs + [Record(date, pre + [text])]
  {
    var day := UtcDay(now);
    var store := rs + [Record(date, pre)];
    assert store[|rs|].date == date;
    assert FindDay(store, day).Some? by {
      assert UtcDay(store[|rs|].date) == day;
    }
    var r := AppendToDay(store, day, text);
    var expected := rs + [Record(date, pre + [text])];
    forall i | 0 <= i < |store| ensures r[i] == expected[i] {
      if i < |rs| {
        assert store[i] == rs[i] && UtcDay(rs[i].date) != day;
      }
    }
  }

  /** `records.filter(item => item.date !== date)`. */
  function DropDate(rs: seq<Record>, date: int): seq<Record>
  {
    if rs == [] then []
    else (if rs[0].date == date then [] else [rs[0]]) + DropDate(rs[1..], date)
  }

  /** The filter keeps exactly the records with another date. */
  lemma {:induction false} DropDateMembers(rs: seq<Record>, date: int)
    ensures forall x :: x in DropDate(rs, date) <==> x in rs && x.date != date
  {
    if rs != [] {
      DropDateMembers(rs[1..], date);
      assert rs == [rs[0]] + rs[1..];
    }
  }

  lemma {:induction false} DropDateAbsent(rs: seq<Record>, date: int)
    requires forall j :: 0 <= j < |rs| ==> rs[j].date != date
    ensures DropDate(rs, date) == rs
  {
    if rs != [] {
      var tail := rs[1..];
      assert forall j :: 0 <= j < |tail| ==> tail[j] == rs[j + 1];
      DropDateAbsent(tail, date);
      assert DropDate(rs, date) == [rs[0]] + DropDate(tail, date);
      assert rs == [rs[0]] + tail;
    }
  }

  /** When only the record at `i` has `date`, dropping the date removes exactly that record. */
  lemma {:induction false} DropDateSingle(rs: seq<Record>, date: int, i: nat)
    requires i < |rs| && rs[i].date == date
    requires forall j :: 0 <= j < |rs| && j != i ==> rs[j].date != date
    ensures DropDate(rs, date) == rs[..i] + rs[i + 1..]
  {
    var before, mid, rest := rs[..i], rs[i..], rs[i + 1..];
    assert rs == before + mid;
    DropDateAppend(before, mid, date);
    assert DropDate(mid, date) == DropDate(rest, date) by {
      assert mid[0] == rs[i] && mid[1..] == rest;
    }
    assert DropDate(before, date) == before by {
      assert forall j :: 0 <= j < |before| ==> before[j] == rs[j];
      DropDateAbsent(before, date);
    }
    assert DropDate(rest, date) == rest by {
      assert forall j :: 0 <= j < |rest| ==> rest[j] == rs[i + 1 + j];
      DropDateAbsent(rest, date);
    }
  }

  /** The filter distributes over concatenation. */
  lemma {:induction false} DropDateAppend(a: seq<Record>, b: seq<Record>, date: int)
    ensures DropDate(a + b, date) == DropDate(a, date) + DropDate(b, date)
  {
    if a == [] {
      assert a + b == b;
    } else {
      assert (a + b)[1..] == a[1..] + b;
      DropDateAppend(a[1..], b, date);
    }
  }

  /**
   * The store effect of the double-click handler (lines 209-217): the first
   * record on UTC day `day` loses every entry equal to `text`; if none is left,
   * every record with that record's `date` is dropped. No record on that day:
   * nothing changes.
   */
  function RemoveEntry(rs: seq<Record>, day: int, text: string): seq<Record>
  {
    match FindDay(rs, day)
    case None => rs
    case Some(i) =>
      var kept := Without(rs[i].entries, text);
      var updated := rs[i := Record(rs[i].date, kept)];
      if kept == [] then DropDate(updated, rs[i].date) else updated
  }

  /**
   * With at most one record per day, removal touches only the record of `day`:
   * it keeps that record's other entries, and takes the record out of the
   * store when no entry is left (a record whose only entry is `text`
   * disappears). The invariant is kept.
   */
  lemma RemoveEntryEffect(rs: seq<Record>, day: int, text: string)
    requires OnePerDay(rs)
    ensures FindDay(rs, day).None? ==> RemoveEntry(rs, day, text) == rs
    ensures FindDay(rs, day).Some? ==>
      var i := FindDay(rs, day).value;
      var r := RemoveEntry(rs, day, text);
      var kept := Without(rs[i].entries, text);
      && (kept == [] ==> r == rs[..i] + rs[i + 1..])
      && (kept != [] ==>
            && |r| == |rs| && r[i].date == rs[i].date && r[i].entries == kept
            && forall j :: 0 <= j < |rs| && j != i ==> r[j] == rs[j])
    ensures OnePerDay(RemoveEntry(rs, day, text))
  {
    match FindDay(rs, day)
    case None =>
    case Some(i) =>
      var kept := Without(rs[i].entries, text);
      var updated := rs[i := Record(rs[i].date, kept)];
      if kept == [] {
        forall j | 0 <= j < |updated| && j != i ensures updated[j].date != rs[i].date {
          assert UtcDay(rs[j].date) != UtcDay(rs[i].date);
        }
        DropDateSingle(updated, rs[i].date, i);
        assert updated[..i] == rs[..i] && updated[i + 1..] == rs[i + 1..];
        RemoveAtKeepsOnePerDay(rs, i);
      } else {
        assert forall j :: 0 <= j < |rs| ==> updated[j].date == rs[j].date;
      }
  }

  lemma RemoveAtKeepsOnePerDay(rs: seq<Record>, i: nat)
    requires OnePerDay(rs) && i < |rs|
    ensures OnePerDay(rs[..i] + rs[i + 1..])
  {
    var r := rs[..i] + rs[i + 1..];
    forall a, b | 0 <= a < b < |r| ensures UtcDay(r[a].date) != UtcDay(r[b].date) {
      var a' := if a < i then a else a + 1;
      var b' := if b < i then b else b + 1;
      assert r[a] == rs[a'] && r[b] == rs[b'];
    }
  }

  /** `records.reduce((sum, record) => sum + record.entries.length, 0)`. */
  function EntryCount(rs: seq<Record>): nat
  {
    if rs == [] then 0 else |rs[0].entries| + EntryCount(rs[1..])
  }
}
