/**
 * The item list behind a switchable quick action's settings screen, with
 * the rule that keeps an auto-generated title in step with the list. The
 * list's element type and the title the action derives from a list
 * (`getTitle`) are the concrete action's business and enter as parameters.
 */
module SwitchableList {
  import opened Wrappers

  /** A list edit either completes or throws `IndexOutOfBoundsException`. */
  datatype Outcome<X> = Done(value: X) | IndexOutOfBounds

  /** The list the adapter holds and the text in the action's title field. */
  datatype Editor<T> = Editor(items: seq<T>, titleText: string)

  /**
   * The title rule applied after an edit: the text is replaced by the new
   * list's title only while it still shows the old list's title or the
   * action's default name, so a title the user typed is kept.
   */
  function RefreshTitle(text: string, oldTitle: string, newTitle: string, defaultName: string): (t: string)
    ensures t == newTitle || t == text
    ensures text == oldTitle || text == defaultName ==> t == newTitle
    ensures text != oldTitle && text != defaultName ==> t == text
  {
    if oldTitle == text || text == defaultName then newTitle else text
  }

  /** `list.containsAll(data)`. */
  predicate ContainsAll<T(==)>(list: seq<T>, data: seq<T>) {
    forall i :: 0 <= i < |data| ==> data[i] in list
  }

  /** `Adapter.addItems`: appends all of `data`, in order, unless every element is already listed. */
  function AddItems<T(==)>(items: seq<T>, data: seq<T>): (r: seq<T>)
    ensures ContainsAll(items, data) ==> r == items
    ensures !ContainsAll(items, data) ==>
      |r| == |items| + |data| && r[..|items|] == items && r[|items|..] == data
    ensures forall i :: 0 <= i < |r| ==> r[i] in items || r[i] in data
    ensures ContainsAll(r, items) && ContainsAll(r, data)
  {
    if ContainsAll(items, data) then items else items + data
  }

  /** Adding the same batch twice changes nothing the second time. */
  lemma AddItemsIdempotent<T>(items: seq<T>, data: seq<T>)
    ensures AddItems(AddItems(items, data), data) == AddItems(items, data)
  {
  }

  /**
   * `Adapter.addItem`: an item already listed changes nothing; a new one is
   * appended and the title rule runs.
   */
  function AddItem<T(==)>(e: Editor<T>, item: T, getTitle: seq<T> -> string, defaultName: string): (e': Editor<T>)
    ensures item in e.items ==> e' == e
    ensures item !in e.items ==>
      && |e'.items| == |e.items| + 1
      && e'.items[..|e.items|] == e.items
      && e'.items[|e.items|] == item
      && e'.titleText == RefreshTitle(e.titleText, getTitle(e.items), getTitle(e'.items), defaultName)
    ensures item in e'.items
  {
    if item in e.items then
      e
    else
      var items := e.items + [item];
      Editor(items, RefreshTitle(e.titleText, getTitle(e.items), getTitle(items), defaultName))
  }

  /** Adding an item twice is the same as adding it once. */
  lemma AddItemIdempotent<T>(e: Editor<T>, item: T, getTitle: seq<T> -> string, defaultName: string)
    ensures AddItem(AddItem(e, item, getTitle, defaultName), item, getTitle, defaultName)
      == AddItem(e, item, getTitle, defaultName)
  {
  }

  /**
   * `Adapter.deleteItem`: `-1` (no adapter position) does nothing; any
   * other position must index the list, and its element is removed with
   * the rest kept in order.
   */
  function DeleteItem<T>(items: seq<T>, position: int): (r: Outcome<seq<T>>)
    ensures position == -1 ==> r == Done(items)
    ensures position != -1 && !(0 <= position < |items|) ==> r == IndexOutOfBounds
    ensures 0 <= position < |items| ==>
      && r.Done?
      && |r.value| == |items| - 1
      && r.value[..position] == items[..position]
      && r.value[position..] == items[position + 1..]
      && multiset(r.value) + multiset{items[position]} == multiset(items)
  {
    if position == -1 then
      Done(items)
    else if 0 <= position < |items| then
      assert items == items[..position] + [items[position]] + items[position + 1..];
      Done(items[..position] + items[position + 1..])
    else
      IndexOutOfBounds
  }

  /** Deleting the item just appended gives back the list as it was. */
  lemma DeleteUndoesAdd<T>(e: Editor<T>, item: T, getTitle: seq<T> -> string, defaultName: string)
    requires item !in e.items
    ensures DeleteItem(AddItem(e, item, getTitle, defaultName).items, |e.items|) == Done(e.items)
  {
    var added := AddItem(e, item, getTitle, defaultName).items;
    assert added[..|e.items|] + added[|e.items| + 1..] == e.items;
  }

  /** The close button of a row: delete the row's item, then apply the title rule. */
  function OnCloseClicked<T>(e: Editor<T>, position: int, getTitle: seq<T> -> string, defaultName: string): (r: Outcome<Editor<T>>)
    ensures r.Done? <==> DeleteItem(e.items, position).Done?
    ensures r.Done? ==>
      && r.value.items == DeleteItem(e.items, position).value
      && r.value.titleText == RefreshTitle(e.titleText, getTitle(e.items), getTitle(r.value.items), defaultName)
  {
    match DeleteItem(e.items, position)
    case IndexOutOfBounds => IndexOutOfBounds
    case Done(items) => Done(Editor(items, RefreshTitle(e.titleText, getTitle(e.items), getTitle(items), defaultName)))
  }

  /** `Collections.swap`: both positions must index the list. */
  function Swap<T>(items: seq<T>, a: int, b: int): (r: Outcome<seq<T>>)
    ensures r.Done? <==> 0 <= a < |items| && 0 <= b < |items|
    ensures r.Done? ==>
      && |r.value| == |items|
      && r.value[a] == items[b] && r.value[b] == items[a]
      && (forall k :: 0 <= k < |items| && k != a && k != b ==> r.value[k] == items[k])
      && multiset(r.value) == multiset(items)
  {
    if 0 <= a < |items| && 0 <= b < |items| then
      Done(items[a := items[b]][b := items[a]])
    else
      IndexOutOfBounds
  }

  /** Swapping the same two positions again restores the list. */
  lemma SwapTwiceRestores<T>(items: seq<T>, a: int, b: int)
    requires 0 <= a < |items| && 0 <= b < |items|
    ensures Swap(Swap(items, a, b).value, a, b) == Done(items)
  {
    var once := Swap(items, a, b).value;
    var twice := Swap(once, a, b).value;
    assert |twice| == |items|;
    assert forall k :: 0 <= k < |items| ==> twice[k] == items[k];
    assert twice == items;
  }

  /**
   * `Adapter.onItemMove`: swaps the two rows, applies the title rule and
   * reports the move as handled.
   */
  function OnItemMove<T>(e: Editor<T>, a: int, b: int, getTitle: seq<T> -> string, defaultName: string)
    : (r: Outcome<(Editor<T>, bool)>)
    ensures r.Done? <==> Swap(e.items, a, b).Done?
    ensures r.Done? ==>
      && r.value.0.items == Swap(e.items, a, b).value
      && r.value.0.titleText == RefreshTitle(e.titleText, getTitle(e.items), getTitle(r.value.0.items), defaultName)
      && r.value.1
  {
    match Swap(e.items, a, b)
    case IndexOutOfBounds => IndexOutOfBounds
    case Done(items) => Done((Editor(items, RefreshTitle(e.titleText, getTitle(e.items), getTitle(items), defaultName)), true))
  }

  /** The title field shows the title derived from the current list. */
  predicate AutoTitled<T>(e: Editor<T>, getTitle: seq<T> -> string) {
    e.titleText == getTitle(e.items)
  }

  /** An auto-generated title stays in step with the list through every edit. */
  lemma AutoTitleFollowsEdits<T>(e: Editor<T>, item: T, position: int, a: int, b: int,
                                     getTitle: seq<T> -> string, defaultName: string)
    requires AutoTitled(e, getTitle)
    ensures AutoTitled(AddItem(e, item, getTitle, defaultName), getTitle)
    ensures OnCloseClicked(e, position, getTitle, defaultName).Done? ==>
      AutoTitled(OnCloseClicked(e, position, getTitle, defaultName).value, getTitle)
    ensures OnItemMove(e, a, b, getTitle, defaultName).Done? ==>
      AutoTitled(OnItemMove(e, a, b, getTitle, defaultName).value.0, getTitle)
  {
  }

  /** A title that is neither the list's title nor the default name survives every edit. */
  lemma TypedTitleSurvivesEdits<T>(e: Editor<T>, item: T, position: int, a: int, b: int,
                                       getTitle: seq<T> -> string, defaultName: string)
    requires e.titleText != getTitle(e.items) && e.titleText != defaultName
    ensures AddItem(e, item, getTitle, defaultName).titleText == e.titleText
    ensures OnCloseClicked(e, position, getTitle, defaultName).Done? ==>
      OnCloseClicked(e, position, getTitle, defaultName).value.titleText == e.titleText
    ensures OnItemMove(e, a, b, getTitle, defaultName).Done? ==>
      OnItemMove(e, a, b, getTitle, defaultName).value.0.titleText == e.titleText
  {
  }

  /** What `fillParams` returns and the list it saves to the action's parameters, if any. */
  datatype Filled<T> = Filled(hasParams: bool, saved: Option<seq<T>>)

  /** `fillParams`: succeeds, and saves the list, exactly when the adapter holds a non-empty list. */
  function FillParams<T>(items: Option<seq<T>>): (f: Filled<T>)
    ensures f.hasParams <==> items.Some? && |items.value| > 0
    ensures f.saved.Some? <==> f.hasParams
    ensures f.saved.Some? ==> f.saved == items
  {
    var hasParams := items.Some? && |items.value| > 0;
    Filled(hasParams, if hasParams then items else None)
  }

  /** A list the editor has just added an item to always fills the parameters, and is saved as is. */
  lemma AddedItemFillsParams<T>(e: Editor<T>, item: T, getTitle: seq<T> -> string, defaultName: string)
    ensures var items := AddItem(e, item, getTitle, defaultName).items;
      FillParams(Some(items)) == Filled(true, Some(items))
  {
    var items := AddItem(e, item, getTitle, defaultName).items;
    assert item in items;
  }

  /** Deleting the only item leaves a list that no longer fills the parameters. */
  lemma DeletingOnlyItemEmptiesParams<T>(item: T)
    ensures DeleteItem([item], 0).Done?
    ensures FillParams(Some(DeleteItem([item], 0).value)) == Filled(false, None)
  {
  }
}
