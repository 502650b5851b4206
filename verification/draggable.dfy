/** A track row as a drag source and drop target: while a row is dragged over
    another, the list is reordered once the pointer crosses the middle of the
    row under it. */
module Dragging {
  import opened Wrappers
  import opened TrackLists
  import opened Editing

  /** The item being dragged: the id of its track and the row it is
      currently recorded at, which the hover handler updates in place. */
  class DragItem {
    const id: int
    var index: int

    constructor (id: int, index: int)
      ensures this.id == id && this.index == index
    {
      this.id := id;
      this.index := index;
    }
  }

  /** The vertical extent of the hovered row, in client coordinates. */
  datatype Rect = Rect(top: real, bottom: real)

  /** The vertical middle of a row. */
  function Middle(r: Rect): real {
    (r.top + r.bottom) / 2.0
  }

  /** The hover guard. `rect` is None when the row has no element yet and
      `pointerY` is None when the drag monitor reports no client offset.
      The source compares the pointer's offset from the row top with half
      the row height; the contract states the same rule against the row's
      middle: a downward drag fires once the pointer is at or past the
      middle, an upward drag once it is at or above it. */
  function ShouldMove(dragIndex: int, hoverIndex: int, rect: Option<Rect>, pointerY: Option<real>): (fire: bool)
    ensures fire <==>
      && rect.Some? && pointerY.Some?
      && dragIndex != hoverIndex
      && (dragIndex < hoverIndex ==> pointerY.value >= Middle(rect.value))
      && (dragIndex > hoverIndex ==> pointerY.value <= Middle(rect.value))
  {
    if rect.None? then false
    else if dragIndex == hoverIndex then false
    else
      var r := rect.value;
      var hoverMiddleY := (r.bottom - r.top) / 2.0;
      if pointerY.None? then false
      else
        var hoverClientY := pointerY.value - r.top;
        if dragIndex < hoverIndex && hoverClientY < hoverMiddleY then false
        else if dragIndex > hoverIndex && hoverClientY > hoverMiddleY then false
        else true
  }

  /** The `hover` callback of the row at `hoverIndex`: when the guard fires it
      moves the dragged row there and records the new position on the item.
      Either way the dragged track is found at the item's recorded index. */
  method Hover(item: DragItem, hoverIndex: nat, rect: Option<Rect>, pointerY: Option<real>,
               editor: MixtapeEditor) returns (moved: bool)
    requires 0 <= item.index < |editor.tracks| && hoverIndex < |editor.tracks|
    modifies item, editor
    ensures moved == ShouldMove(old(item.index), hoverIndex, rect, pointerY)
    ensures moved ==> && editor.tracks == Move(old(editor.tracks), old(item.index), hoverIndex)
                      && item.index == hoverIndex
    ensures !moved ==> editor.tracks == old(editor.tracks) && item.index == old(item.index)
    ensures 0 <= item.index < |editor.tracks|
    ensures editor.tracks[item.index] == old(editor.tracks[item.index])
    ensures multiset(editor.tracks) == multiset(old(editor.tracks))
    ensures editor.recipientName == old(editor.recipientName)
  {
    var dragIndex := item.index;
    moved := ShouldMove(dragIndex, hoverIndex, rect, pointerY);
    if moved {
      editor.MoveRow(dragIndex, hoverIndex);
      item.index := hoverIndex;
    }
  }
}
