/**
 * The daily checklist of `src/js/checklist.js`: the list `checkedItems` of
 * the items ticked today. Ticking an item appends it to the list and adds it
 * to the gratitude store; unticking splices its first occurrence out.
 */
module Checklist {
  import opened SeqUtil
  import opened Gratitude

  /**
   * The list after a click on `item`: a non-empty item that is not yet ticked
   * joins the end of the list; anything else leaves the list as it was.
   */
  function Check(items: seq<string>, item: string): (r: seq<string>)
    ensures items <= r && |r| <= |items| + 1
    ensures forall x :: x in r <==> x in items || (x == item && item != [])
    ensures (item == [] || item in items) <==> r == items
  {
    if item != [] && item !in items then items + [item] else items
  }

  /** A second click on the same item changes nothing. */
  lemma CheckIdempotent(items: seq<string>, item: string)
    ensures Check(Check(items, item), item) == Check(items, item)
  {
  }

  /** Ticking only appends items that are absent, so the list never holds an item twice. */
  lemma CheckKeepsNoDuplicates(items: seq<string>, item: string)
    requires NoDuplicates(items)
    ensures NoDuplicates(Check(items, item))
  {
    var r := Check(items, item);
    if r != items {
      forall i, j | 0 <= i < j < |r| ensures r[i] != r[j] {
        if j == |items| {
          assert r[i] == items[i];
        }
      }
    }
  }

  /**
   * The list after unticking `text`: its first occurrence is taken out and
   * the rest keep their order; an absent text leaves the list as it was.
   */
  function Uncheck(items: seq<string>, text: string): (r: seq<string>)
    ensures text !in items ==> r == items
    ensures text in items ==>
      exists k :: 0 <= k < |items| && items[k] == text && text !in items[..k]
                  && r == items[..k] + items[k + 1..]
    ensures multiset(r) == multiset(items) - multiset{text}
  {
    var index := IndexOf(items, text);
    if index > -1 then
      assert items[..index] + items[index + 1..] == RemoveAt(items, index);
      RemoveAt(items, index)
    else
      items
  }

  /**
   * Without duplicates, unticking takes the item out of the list entirely
   * and leaves every other item in it.
   */
  lemma UncheckEffect(items: seq<string>, text: string)
    requires NoDuplicates(items)
    ensures forall x :: x in Uncheck(items, text) <==> x in items && x != text
  {
    if text in items {
      RemoveAtMembers(items, IndexOf(items, text));
    }
  }

  /** Unticking keeps the list free of duplicates. */
  lemma UncheckKeepsNoDuplicates(items: seq<string>, text: string)
    requires NoDuplicates(items)
    ensures NoDuplicates(Uncheck(items, text))
  {
    if text in items {
      RemoveAtKeepsNoDuplicates(items, IndexOf(items, text));
    }
  }

  /** Unticking changes the list exactly when the text is in it (the `indexOf > -1` guard). */
  lemma UncheckChanges(items: seq<string>, text: string)
    ensures text in items <==> Uncheck(items, text) != items
  {
    if text in items {
      assert |Uncheck(items, text)| < |items| by {
        assert multiset(Uncheck(items, text)) == multiset(items) - multiset{text};
        assert text in multiset(items);
      }
    }
  }

  /** Ticking an unticked item and then unticking it restores the list. */
  lemma CheckThenUncheck(items: seq<string>, item: string)
    requires item !in items
    ensures Uncheck(Check(items, item), item) == items
  {
    if item != [] {
      var c := items + [item];
      assert item !in c[..|items|] by { assert c[..|items|] == items; }
      assert IndexOf(c, item) == |items|;
      assert c[..|items|] == items;
    }
  }

  class ChecklistManager {
    /** The gratitude store that a tick feeds. */
    const app: App
    /** `checkedItems`: the items ticked today, in the order ticked. */
    var checkedItems: seq<string>

    /** Starts from the list saved for today. */
    constructor(app: App, saved: seq<string>)
      ensures this.app == app && checkedItems == saved
    {
      this.app := app;
      checkedItems := saved;
    }

    /**
     * `isChecked`: whether the item occurs in the list. It agrees with the
     * guards of the two handlers: exactly the checked items are changed by an
     * untick, and a non-empty item changes the list on a tick exactly when it
     * is not checked.
     */
    function IsChecked(item: string): (b: bool)
      reads this
      ensures b <==> Uncheck(checkedItems, item) != checkedItems
      ensures item != [] ==> (b <==> Check(checkedItems, item) == checkedItems)
    {
      UncheckChanges(checkedItems, item);
      item in checkedItems
    }

    /**
     * `handleCheck`: a non-empty item not yet ticked is appended to the list
     * and added once to today's gratitude record; otherwise nothing happens.
     */
    method HandleCheck(item: string, now: int)
      modifies this, app
      ensures checkedItems == Check(old(checkedItems), item)
      ensures item != [] && old(!IsChecked(item)) ==>
        app.records == AddGratitudeEffect(old(app.records), item, now)
      ensures item == [] || old(IsChecked(item)) ==> app.records == old(app.records)
    {
      if item != [] && !IsChecked(item) {
        checkedItems := checkedItems + [item];
        app.AddGratitude(item, now);
      }
    }

    /** `uncheckItem`: the first occurrence of the text is spliced out of the list. */
    method UncheckItem(text: string)
      modifies this
      ensures checkedItems == Uncheck(old(checkedItems), text)
    {
      var index := IndexOf(checkedItems, text);
      if index > -1 {
        checkedItems := RemoveAt(checkedItems, index);
      }
    }
  }
}
