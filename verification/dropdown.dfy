/** The suggestion list under an edit box: typing filters a fixed item list by
    case-insensitive substring, and the arrow keys, Tab/Enter, Escape, clicks and
    the mouse wheel move, accept or close the selection. The edit box's responder
    is this suggestor's `update`, so writing a suggestion into the box refilters
    the list before it is hidden. */
module DropdownSuggestor {
  import opened Wrappers
  import opened JavaText
  import FW = FieldWidgetFactory

  const MAX_VISIBLE: nat := 10

  datatype Suggestor = Suggestor(
    allItems: seq<string>,
    filtered: seq<string>,
    selected: int,
    scroll: int,
    visible: bool,
    boxValue: string,
    boxLimit: nat)

  /** The keys the suggestor reacts to; every other key code is `OtherKey`. */
  datatype Key = Tab | Enter | Escape | Down | Up | OtherKey

  /** The state the methods keep between events. */
  predicate Valid(d: Suggestor) {
    && -1 <= d.selected < |d.filtered|
    && 0 <= d.scroll
    && (d.visible ==> |d.filtered| > 0)
  }

  predicate Matches(item: string, text: string) {
    Contains(ToLower(item), ToLower(text))
  }

  /** The items containing `text`, ignoring ASCII case, in their original order. */
  function Filter(items: seq<string>, text: string): (r: seq<string>)
    ensures |r| <= |items|
    ensures forall x :: x in r <==> x in items && Matches(x, text)
  {
    if items == [] then []
    else (if Matches(items[0], text) then [items[0]] else []) + Filter(items[1..], text)
  }

  /** Filtering a concatenation filters each part: kept items stay in order. */
  lemma {:induction false} FilterConcat(a: seq<string>, b: seq<string>, text: string)
    ensures Filter(a + b, text) == Filter(a, text) + Filter(b, text)
  {
    if a == [] {
      assert a + b == b;
    } else {
      assert (a + b)[0] == a[0];
      assert (a + b)[1..] == a[1..] + b;
      FilterConcat(a[1..], b, text);
    }
  }

  /** A list whose items all match is kept whole. */
  lemma {:induction false} FilterAllMatching(items: seq<string>, text: string)
    requires forall i :: 0 <= i < |items| ==> Matches(items[i], text)
    ensures Filter(items, text) == items
  {
    if items != [] {
      FilterAllMatching(items[1..], text);
    }
  }

  lemma {:induction false} FilterIdempotent(items: seq<string>, text: string)
    ensures Filter(Filter(items, text), text) == Filter(items, text)
  {
    var r := Filter(items, text);
    assert forall i :: 0 <= i < |r| ==> r[i] in r;
    FilterAllMatching(r, text);
  }

  /** `update`: empty text hides and empties the list; otherwise the list is the
      matching items and is shown iff some item matches. Selection and scroll
      reset in both cases. */
  function Update(d: Suggestor, text: string): (r: Suggestor)
    ensures r.selected == -1 && r.scroll == 0
    ensures r.allItems == d.allItems && r.boxValue == d.boxValue && r.boxLimit == d.boxLimit
    ensures text == [] ==> r.filtered == [] && !r.visible
    ensures text != [] ==> r.filtered == Filter(d.allItems, text) && (r.visible <==> r.filtered != [])
    ensures Valid(r)
  {
    if text == [] then d.(filtered := [], selected := -1, scroll := 0, visible := false)
    else
      var f := Filter(d.allItems, text);
      d.(filtered := f, selected := -1, scroll := 0, visible := f != [])
  }

  /** `editBox.setValue(item)` followed by hiding: the box cuts the item to
      its length limit, and the responder refilters on the text the box now
      holds before the list is hidden. */
  function Accept(d: Suggestor, item: string): (r: Suggestor)
    ensures r.boxValue <= item && |r.boxValue| == if |item| <= d.boxLimit then |item| else d.boxLimit
    ensures !r.visible && r.selected == -1
    ensures r.filtered == (if r.boxValue == [] then [] else Filter(d.allItems, r.boxValue))
    ensures r.allItems == d.allItems && r.boxLimit == d.boxLimit
    ensures Valid(r)
  {
    var shown := FW.FitToBox(item, d.boxLimit);
    Update(d.(boxValue := shown), shown).(visible := false)
  }

  /** `ensureVisible`: the smallest scroll change that puts the selection in the
      ten-row window. */
  function EnsureVisible(d: Suggestor): (r: Suggestor)
    requires d.selected >= 0 && d.scroll >= 0
    ensures r == d.(scroll := r.scroll)
    ensures r.scroll <= r.selected < r.scroll + MAX_VISIBLE
    ensures d.scroll <= d.selected < d.scroll + MAX_VISIBLE ==> r.scroll == d.scroll
  {
    if d.selected < d.scroll then d.(scroll := d.selected)
    else if d.selected >= d.scroll + MAX_VISIBLE then d.(scroll := d.selected - MAX_VISIBLE + 1)
    else d
  }

  function KeyPressed(d: Suggestor, key: Key): (r: (Suggestor, bool))
    requires Valid(d)
    ensures Valid(r.0)
    ensures !d.visible || d.filtered == [] ==> r == (d, false)
    ensures d.visible && d.filtered != [] ==> match key
      case Tab | Enter =>
        (0 <= d.selected ==> r == (Accept(d, d.filtered[d.selected]), true))
        && (d.selected < 0 ==> r == (d, false))
      case Escape => r == (d.(visible := false), true)
      case Down | Up =>
        && r.1
        && r.0 == d.(selected := r.0.selected, scroll := r.0.scroll)
        && (key == Down && d.selected < |d.filtered| - 1 ==> r.0.selected == d.selected + 1)
        && (key == Up && d.selected > 0 ==> r.0.selected == d.selected - 1)
        && (key == Up && d.selected == -1 ==> r.0.selected == 0)
        && (r.0.selected == d.selected ==> r.0 == d)
        && (r.0.selected != d.selected ==> r.0.scroll <= r.0.selected < r.0.scroll + MAX_VISIBLE)
      case OtherKey => r == (d, false)
  {
    if !d.visible || d.filtered == [] then (d, false)
    else match key
      case Tab | Enter =>
        if d.selected >= 0 then (Accept(d, d.filtered[d.selected]), true) else (d, false)
      case Escape => (d.(visible := false), true)
      case Down =>
        if d.selected < |d.filtered| - 1 then (EnsureVisible(d.(selected := d.selected + 1)), true)
        else (d, true)
      case Up =>
        if d.selected > 0 then (EnsureVisible(d.(selected := d.selected - 1)), true)
        else if d.selected == -1 then (EnsureVisible(d.(selected := 0)), true)
        else (d, true)
      case OtherKey => (d, false)
  }

  /** `mouseClicked` with the geometry done by the caller: `inside` says whether
      the pointer is over the open list and `row` is the visible row under it. */
  function MouseClicked(d: Suggestor, inside: bool, row: int): (r: (Suggestor, bool))
    requires Valid(d)
    ensures Valid(r.0)
    ensures r.1 <==> d.visible && d.filtered != [] && inside
    ensures !r.1 ==> r.0 == d
    ensures r.1 && 0 <= row + d.scroll < |d.filtered| ==> r.0 == Accept(d, d.filtered[row + d.scroll])
    ensures r.1 && !(0 <= row + d.scroll < |d.filtered|) ==> r.0 == d
  {
    if !d.visible || d.filtered == [] || !inside then (d, false)
    else
      var clicked := row + d.scroll;
      if 0 <= clicked < |d.filtered| then (Accept(d, d.filtered[clicked]), true) else (d, true)
  }

  /** `mouseScrolled`; `notches` is the wheel amount already truncated to an int. */
  function MouseScrolled(d: Suggestor, inside: bool, notches: int): (r: (Suggestor, bool))
    requires Valid(d)
    ensures Valid(r.0)
    ensures r.1 <==> d.visible && |d.filtered| > MAX_VISIBLE && inside
    ensures !r.1 ==> r.0 == d
    ensures r.1 ==> r.0 == d.(scroll := r.0.scroll)
    ensures r.1 ==> 0 <= r.0.scroll <= |d.filtered| - MAX_VISIBLE
    ensures r.1 && 0 <= d.scroll - notches <= |d.filtered| - MAX_VISIBLE ==> r.0.scroll == d.scroll - notches
  {
    if !d.visible || |d.filtered| <= MAX_VISIBLE || !inside then (d, false)
    else
      var s := d.scroll - notches;
      var clamped := if s < 0 then 0 else if s > |d.filtered| - MAX_VISIBLE then |d.filtered| - MAX_VISIBLE else s;
      (d.(scroll := clamped), true)
  }
}
