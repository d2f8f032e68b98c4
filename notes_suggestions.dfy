/**
 * The notes organizer's category and tag suggestion files: one suggestion
 * per line, read stripped and without blank lines, rewritten sorted. The
 * "Manage Suggestions" window deletes selected suggestions but never the
 * built-in defaults.
 */
module NotesSuggestions {
  import opened Wrappers
  import opened Text

  const DefaultCategories: seq<string> := ["General", "School", "Work", "Personal", "Study"]
  const DefaultTags: seq<string> := ["Urgent", "Todo", "Important", "Exam"]

  /** A suggestion as a file holds it: stripped, not blank, on one line. */
  predicate IsItem(x: string) {
    x != "" && Strip(x) == x && '\n' !in x
  }

  /** `[line.strip() for line in lines if line.strip()]` */
  function ItemsOfLines(lines: seq<string>): (items: seq<string>)
    ensures |items| <= |lines|
    ensures (forall k :: 0 <= k < |lines| ==> '\n' !in lines[k]) ==>
            forall k :: 0 <= k < |items| ==> IsItem(items[k])
  {
    if |lines| == 0 then []
    else
      var x := Strip(lines[0]);
      StripIdempotent(lines[0]);
      StripKeeps(lines[0], '\n');
      (if x != "" then [x] else []) + ItemsOfLines(lines[1..])
  }

  /** The suggestions a file's text holds, one per non-blank line. */
  function Items(text: string): (items: seq<string>)
    ensures forall k :: 0 <= k < |items| ==> IsItem(items[k])
  {
    ItemsOfLines(SplitChar(text, '\n'))
  }

  /** The text `for it in xs: f.write(it + "\n")` leaves in a file. */
  function WriteLines(xs: seq<string>): string {
    if |xs| == 0 then "" else xs[0] + "\n" + WriteLines(xs[1..])
  }

  /** Items written one per line split back into those items and one empty tail. */
  lemma {:induction false} SplitWritten(xs: seq<string>)
    requires forall k :: 0 <= k < |xs| ==> '\n' !in xs[k]
    ensures SplitChar(WriteLines(xs), '\n') == xs + [""]
    decreases |xs|
  {
    if |xs| > 0 {
      SplitWritten(xs[1..]);
      SplitCharCons(xs[0], WriteLines(xs[1..]), '\n');
      assert xs == [xs[0]] + xs[1..];
    }
  }

  /** Lines that are all items read back as themselves. */
  lemma {:induction false} ItemsOfItems(xs: seq<string>, tail: seq<string>)
    requires forall k :: 0 <= k < |xs| ==> IsItem(xs[k])
    requires forall k :: 0 <= k < |tail| ==> tail[k] == ""
    ensures ItemsOfLines(xs + tail) == xs
    decreases |xs| + |tail|
  {
    if |xs| > 0 {
      assert (xs + tail)[1..] == xs[1..] + tail;
      ItemsOfItems(xs[1..], tail);
      assert xs == [xs[0]] + xs[1..];
    } else if |tail| > 0 {
      assert (xs + tail)[1..] == xs + tail[1..];
      ItemsOfItems(xs, tail[1..]);
    }
  }

  /** A file written one item per line reads back as the same items. */
  lemma {:induction false} ReadWritten(xs: seq<string>)
    requires forall k :: 0 <= k < |xs| ==> IsItem(xs[k])
    ensures Items(WriteLines(xs)) == xs
  {
    SplitWritten(xs);
    ItemsOfItems(xs, [""]);
  }

  /** A file written as the items joined by newlines reads back as the same items. */
  lemma {:induction false} ReadJoined(xs: seq<string>)
    requires forall k :: 0 <= k < |xs| ==> IsItem(xs[k])
    ensures Items(Join(xs, "\n")) == xs
  {
    if |xs| == 0 {
      ItemsOfItems([], [""]);
    } else {
      SplitJoin(xs, '\n');
      ItemsOfItems(xs, []);
      assert xs + [] == xs;
    }
  }

  /**
   * `load_suggestions(path, defaults)`: the items of the file, which is
   * created with the defaults joined by newlines when missing; when the file
   * holds no item, the defaults, written back to the file. Returns the
   * items and the file's text afterwards.
   */
  function LoadSuggestions(file: Option<string>, defaults: seq<string>): (r: (seq<string>, string))
    ensures r.0 == Items(r.1) || r.0 == defaults
    ensures file.Some? && Items(file.value) != [] ==> r == (Items(file.value), file.value)
  {
    var text := if file.None? then Join(defaults, "\n") else file.value;
    var items := Items(text);
    if items == [] then (defaults, Join(defaults, "\n")) else (items, text)
  }

  /**
   * With defaults that are items, the loaded list is what the file now
   * reads as, and it is empty only when the defaults are.
   */
  lemma LoadSuggestionsSpec(file: Option<string>, defaults: seq<string>)
    requires forall k :: 0 <= k < |defaults| ==> IsItem(defaults[k])
    ensures Items(LoadSuggestions(file, defaults).1) == LoadSuggestions(file, defaults).0
    ensures LoadSuggestions(file, defaults).0 == [] ==> defaults == []
    ensures file.Some? && Items(file.value) == [] ==>
            LoadSuggestions(file, defaults) == (defaults, Join(defaults, "\n"))
  {
    ReadJoined(defaults);
  }

  /** The built-in defaults are items. */
  lemma DefaultsAreItems()
    ensures forall k :: 0 <= k < |DefaultCategories| ==> IsItem(DefaultCategories[k])
    ensures forall k :: 0 <= k < |DefaultTags| ==> IsItem(DefaultTags[k])
  {
    forall k | 0 <= k < |DefaultCategories|
      ensures IsItem(DefaultCategories[k])
    {
      StripNoSpace(DefaultCategories[k]);
    }
    forall k | 0 <= k < |DefaultTags|
      ensures IsItem(DefaultTags[k])
    {
      StripNoSpace(DefaultTags[k]);
    }
  }

  // ---------------------------------------------------------------------------
  // sorted(...)

  /** Non-decreasing in Python's string order. */
  predicate Sorted(s: seq<string>) {
    forall i, j :: 0 <= i < j < |s| ==> !LexLess(s[j], s[i])
  }

  /** Increasing in Python's string order, hence without repeats. */
  predicate StrictlySorted(s: seq<string>) {
    forall i, j :: 0 <= i < j < |s| ==> LexLess(s[i], s[j])
  }

  /** Insert `x` before the first element that does not sort before it. */
  function InsertLine(x: string, s: seq<string>): (r: seq<string>)
    ensures multiset(r) == multiset(s) + multiset{x}
  {
    if |s| == 0 then [x]
    else
      assert s == [s[0]] + s[1..];
      if LexLess(s[0], x) then [s[0]] + InsertLine(x, s[1..]) else [x] + s
  }

  /** `sorted(xs)`, by insertion: the same strings, each as often, in order. */
  function SortLines(xs: seq<string>): (r: seq<string>)
    ensures multiset(r) == multiset(xs)
  {
    if |xs| == 0 then []
    else
      assert xs == [xs[0]] + xs[1..];
      InsertLine(xs[0], SortLines(xs[1..]))
  }

  /** `sorted(set(xs))`: each string of `xs` once, in order. */
  function SortSet(xs: seq<string>): (r: seq<string>)
    ensures forall x :: x in r <==> x in xs
  {
    if |xs| == 0 then []
    else
      var rest := SortSet(xs[1..]);
      assert forall x :: x in xs <==> x == xs[0] || x in xs[1..];
      if xs[0] in rest then rest
      else
        assert forall x :: x in InsertLine(xs[0], rest) <==> x in multiset(InsertLine(xs[0], rest));
        InsertLine(xs[0], rest)
  }

  /** What is in the inserted list is `x` or was in `s`. */
  lemma InsertLineIn(x: string, s: seq<string>, y: string)
    requires y in InsertLine(x, s)
    ensures y == x || y in s
  {
    assert y in multiset(InsertLine(x, s));
  }

  lemma {:induction false} InsertLineSorted(x: string, s: seq<string>)
    requires Sorted(s)
    ensures Sorted(InsertLine(x, s))
    decreases |s|
  {
    if |s| > 0 && LexLess(s[0], x) {
      InsertLineSorted(x, s[1..]);
      var r := InsertLine(x, s[1..]);
      forall j | 0 <= j < |r|
        ensures !LexLess(r[j], s[0])
      {
        LexLessAsymmetric(s[0], x);
        InsertLineIn(x, s[1..], r[j]);
      }
    } else if |s| > 0 {
      LexLessTotal(x, s[0]);
      forall j | 0 <= j < |s|
        ensures !LexLess(s[j], x)
      {
        LexLessIrreflexive(x);
        if LexLess(s[j], x) && LexLess(x, s[0]) {
          LexLessTransitive(s[j], x, s[0]);
        }
      }
    }
  }

  lemma {:induction false} SortLinesSorted(xs: seq<string>)
    ensures Sorted(SortLines(xs))
    decreases |xs|
  {
    if |xs| > 0 {
      SortLinesSorted(xs[1..]);
      InsertLineSorted(xs[0], SortLines(xs[1..]));
    }
  }

  lemma {:induction false} InsertLineStrict(x: string, s: seq<string>)
    requires StrictlySorted(s) && x !in s
    ensures StrictlySorted(InsertLine(x, s))
    decreases |s|
  {
    if |s| > 0 && LexLess(s[0], x) {
      InsertLineStrict(x, s[1..]);
      var r := InsertLine(x, s[1..]);
      forall j | 0 <= j < |r|
        ensures LexLess(s[0], r[j])
      {
        InsertLineIn(x, s[1..], r[j]);
      }
    } else if |s| > 0 {
      LexLessTotal(x, s[0]);
      forall j | 0 <= j < |s|
        ensures LexLess(x, s[j])
      {
        if 0 < j {
          LexLessTransitive(x, s[0], s[j]);
        }
      }
    }
  }

  lemma {:induction false} SortSetStrict(xs: seq<string>)
    ensures StrictlySorted(SortSet(xs))
    decreases |xs|
  {
    if |xs| > 0 {
      SortSetStrict(xs[1..]);
      if xs[0] !in SortSet(xs[1..]) {
        InsertLineStrict(xs[0], SortSet(xs[1..]));
      }
    }
  }

  /** Every item of a file, strings of items kept. */
  lemma SortSetItems(xs: seq<string>)
    requires forall k :: 0 <= k < |xs| ==> IsItem(xs[k])
    ensures forall k :: 0 <= k < |SortSet(xs)| ==> IsItem(SortSet(xs)[k])
  {
    assert forall k :: 0 <= k < |SortSet(xs)| ==> SortSet(xs)[k] in xs;
  }

  // ---------------------------------------------------------------------------
  // save_suggestion_line

  /**
   * `save_suggestion_line(path, new_item)`: the file rewritten with every
   * suggestion it held and the stripped new one, each once, sorted.
   */
  function SaveSuggestionLine(file: Option<string>, newItem: string): string {
    WriteLines(SortSet(LoadSuggestions(file, []).0 + [Strip(newItem)]))
  }

  /** Loaded without defaults, a file gives its own items, a missing one none. */
  lemma LoadWithoutDefaults(file: Option<string>)
    ensures LoadSuggestions(file, []).0 == if file.Some? then Items(file.value) else []
  {
    ItemsOfItems([], [""]);
  }

  /**
   * After saving a suggestion, the file reads as the suggestions it held
   * and the stripped new one, each once, in increasing order.
   */
  lemma SaveThenLoad(file: Option<string>, newItem: string)
    requires Strip(newItem) != "" && '\n' !in newItem
    ensures var after := Items(SaveSuggestionLine(file, newItem));
            && StrictlySorted(after)
            && (forall x :: x in after <==> (file.Some? && x in Items(file.value)) || x == Strip(newItem))
  {
    var before := LoadSuggestions(file, []).0;
    LoadWithoutDefaults(file);
    var item := Strip(newItem);
    assert IsItem(item) by {
      StripIdempotent(newItem);
      StripKeeps(newItem, '\n');
    }
    AddedItems(before, item);
    assert Items(SaveSuggestionLine(file, newItem)) == SortSet(before + [item]);
  }

  /** One more item, sorted in with the others: the items read back, each once, in order. */
  lemma AddedItems(before: seq<string>, item: string)
    requires forall k :: 0 <= k < |before| ==> IsItem(before[k])
    requires IsItem(item)
    ensures Items(WriteLines(SortSet(before + [item]))) == SortSet(before + [item])
    ensures StrictlySorted(SortSet(before + [item]))
    ensures forall x :: x in SortSet(before + [item]) <==> x in before || x == item
  {
    var xs := before + [item];
    assert forall k :: 0 <= k < |xs| ==> IsItem(xs[k]) by {
      forall k | 0 <= k < |xs|
        ensures IsItem(xs[k])
      {
        if k < |before| {
          assert xs[k] == before[k];
        }
      }
    }
    SortedSetReads(xs);
    AddedIn(before, item);
  }

  /** Sorting the list with one more item keeps exactly its strings. */
  lemma AddedIn(before: seq<string>, item: string)
    ensures forall x :: x in SortSet(before + [item]) <==> x in before || x == item
  {
    assert forall x :: x in before + [item] <==> x in before || x == item;
  }

  /** Items written sorted and without repeats read back as exactly that list. */
  lemma SortedSetReads(xs: seq<string>)
    requires forall k :: 0 <= k < |xs| ==> IsItem(xs[k])
    ensures Items(WriteLines(SortSet(xs))) == SortSet(xs)
    ensures StrictlySorted(SortSet(xs))
  {
    SortSetItems(xs);
    SortSetStrict(xs);
    ReadWritten(SortSet(xs));
  }

  // ---------------------------------------------------------------------------
  // The "Manage Suggestions" window

  /** `items.remove(d)`: drop the first occurrence of `d`. */
  function RemoveFirst(xs: seq<string>, d: string): (r: seq<string>)
    ensures d in xs ==> multiset(r) == multiset(xs) - multiset{d} && |r| == |xs| - 1
    ensures d !in xs ==> r == xs
  {
    if |xs| == 0 then []
    else
      assert xs == [xs[0]] + xs[1..];
      if xs[0] == d then xs[1..] else [xs[0]] + RemoveFirst(xs[1..], d)
  }

  /**
   * The window's item list and removal count after going through the
   * selected suggestions in order, removing each one that is not protected
   * and still in the list.
   */
  function RemoveSelected(items: seq<string>, selected: seq<string>, protected: seq<string>): (r: (seq<string>, nat))
    decreases |selected|
  {
    if |selected| == 0 then (items, 0)
    else
      var (kept, removed) := RemoveSelected(items, selected[..|selected| - 1], protected);
      var d := selected[|selected| - 1];
      if d !in protected && d in kept then (RemoveFirst(kept, d), removed + 1) else (kept, removed)
  }

  /** Going through the selection removes one list entry per count. */
  lemma {:induction false} RemoveSelectedCount(items: seq<string>, selected: seq<string>, protected: seq<string>)
    ensures |RemoveSelected(items, selected, protected).0| + RemoveSelected(items, selected, protected).1 == |items|
    ensures multiset(RemoveSelected(items, selected, protected).0) <= multiset(items)
    decreases |selected|
  {
    if |selected| > 0 {
      RemoveSelectedCount(items, selected[..|selected| - 1], protected);
    }
  }

  /**
   * Going through the selection never removes a protected default, and
   * removes only selected suggestions.
   */
  lemma {:induction false} RemoveSelectedKeeps(items: seq<string>, selected: seq<string>, protected: seq<string>)
    ensures forall p :: p in protected ==>
              multiset(RemoveSelected(items, selected, protected).0)[p] == multiset(items)[p]
    ensures forall x :: multiset(RemoveSelected(items, selected, protected).0)[x] < multiset(items)[x] ==>
              x in selected
    decreases |selected|
  {
    if |selected| > 0 {
      var prefix := selected[..|selected| - 1];
      var d := selected[|selected| - 1];
      RemoveSelectedKeeps(items, prefix, protected);
      var kept := RemoveSelected(items, prefix, protected).0;
      var after := RemoveSelected(items, selected, protected).0;
      forall x
        ensures multiset(after)[x] == multiset(kept)[x] || (x == d && d !in protected)
      {
      }
      assert forall x :: x in prefix ==> x in selected;
    }
  }

  /** The `for d in to_delete` loop of `delete_selected`. */
  method RemoveEach(items: seq<string>, selected: seq<string>, protected: seq<string>)
    returns (kept: seq<string>, removed: nat)
    ensures (kept, removed) == RemoveSelected(items, selected, protected)
  {
    kept, removed := items, 0;
    var i := 0;
    while i < |selected|
      invariant 0 <= i <= |selected|
      invariant (kept, removed) == RemoveSelected(items, selected[..i], protected)
    {
      ghost var next := selected[..i + 1];
      assert next[..i] == selected[..i];
      var d := selected[i];
      if d !in protected && d in kept {
        kept := RemoveFirst(kept, d);
        removed := removed + 1;
      }
      i := i + 1;
    }
    assert selected[..|selected|] == selected;
  }

  /** A suggestions window: the list it shows and the file it edits. */
  class SuggestionWindow {
    var items: seq<string>
    var file: string
    const protected: seq<string>

    /** Opening the window loads the file's suggestions, or the defaults. */
    constructor(text: string, defaults: seq<string>)
      ensures (items, file) == LoadSuggestions(Some(text), defaults)
      ensures protected == defaults
    {
      var loaded := LoadSuggestions(Some(text), defaults);
      items, file := loaded.0, loaded.1;
      protected := defaults;
    }

    /**
     * `delete_selected`: an empty selection only warns; otherwise each
     * selected suggestion that is neither protected nor already gone is
     * removed from the list once. If none was, nothing is written; if some
     * were, the file is rewritten with the remaining list sorted.
     */
    method DeleteSelected(selected: seq<string>) returns (removed: nat)
      modifies this
      ensures selected == [] ==> removed == 0 && items == old(items) && file == old(file)
      ensures selected != [] ==> (items, removed) == RemoveSelected(old(items), selected, protected)
      ensures removed == 0 ==> file == old(file)
      ensures removed > 0 ==> file == WriteLines(SortLines(items))
    {
      removed := 0;
      if |selected| == 0 {
        return;
      }
      items, removed := RemoveEach(items, selected, protected);
      if removed == 0 {
        return;
      }
      file := WriteLines(SortLines(items));
    }

    /**
     * `delete_all`: when confirmed, the file holds just the protected
     * defaults, one per line. The window's own list is not reset.
     */
    method DeleteAll(confirmed: bool)
      modifies this
      ensures confirmed ==> file == WriteLines(protected)
      ensures !confirmed ==> file == old(file)
      ensures items == old(items)
    {
      if confirmed {
        file := WriteLines(protected);
      }
    }
  }

  /** A list drawn from items, sorted, is still made of items. */
  lemma SortedAreItems(kept: seq<string>, items: seq<string>)
    requires forall k :: 0 <= k < |items| ==> IsItem(items[k])
    requires multiset(kept) <= multiset(items)
    ensures forall k :: 0 <= k < |SortLines(kept)| ==> IsItem(SortLines(kept)[k])
  {
    var sorted := SortLines(kept);
    forall k | 0 <= k < |sorted|
      ensures IsItem(sorted[k])
    {
      assert sorted[k] in multiset(sorted);
      assert sorted[k] in multiset(items);
    }
  }

  /**
   * After removing suggestions the file reads as the remaining list,
   * sorted, and still holds every protected default it held.
   */
  lemma DeletedFileReadsBack(items: seq<string>, selected: seq<string>, protected: seq<string>)
    requires forall k :: 0 <= k < |items| ==> IsItem(items[k])
    ensures var kept := RemoveSelected(items, selected, protected).0;
            && Items(WriteLines(SortLines(kept))) == SortLines(kept)
            && Sorted(SortLines(kept))
            && (forall p :: p in protected && p in items ==> p in SortLines(kept))
  {
    var kept := RemoveSelected(items, selected, protected).0;
    RemoveSelectedCount(items, selected, protected);
    SortedAreItems(kept, items);
    ReadWritten(SortLines(kept));
    SortLinesSorted(kept);
    RemoveSelectedKeeps(items, selected, protected);
    forall p | p in protected && p in items
      ensures p in SortLines(kept)
    {
      assert p in multiset(items);
      assert p in multiset(SortLines(kept));
    }
  }
}
