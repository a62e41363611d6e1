/** Reordering the admin FAQ list: the up and down arrows swap an entry with
    its neighbour and send the new order of ids to the server. */
module Faqs {
  import opened Common

  datatype Faq = Faq(id: string, question: string, answer: string, isActive: bool)

  datatype Direction = Up | Down

  /** The arrow is disabled: up on the first entry, down on the last. */
  predicate ArrowDisabled<T>(items: seq<T>, index: int, dir: Direction) {
    (dir == Up && index == 0) || (dir == Down && index == |items| - 1)
  }

  /** The neighbour an arrow swaps with. */
  function TargetIndex(index: int, dir: Direction): int {
    if dir == Up then index - 1 else index + 1
  }

  /** `handleMove` on the list: nothing at the ends, otherwise the entry
      trades places with its neighbour. */
  function Move<T>(items: seq<T>, index: int, dir: Direction): (r: Option<seq<T>>)
    requires 0 <= index < |items|
    ensures r.None? <==> ArrowDisabled(items, index, dir)
    ensures r.Some? ==> 0 <= TargetIndex(index, dir) < |items|
    ensures r.Some? ==> |r.value| == |items|
                        && r.value[index] == items[TargetIndex(index, dir)]
                        && r.value[TargetIndex(index, dir)] == items[index]
                        && forall k :: 0 <= k < |items| && k != index && k != TargetIndex(index, dir)
                                       ==> r.value[k] == items[k]
  {
    if ArrowDisabled(items, index, dir) then None
    else
      var t := TargetIndex(index, dir);
      Some(items[index := items[t]][t := items[index]])
  }

  /** A move only reorders: the same entries, each as often as before. */
  lemma MoveIsPermutation<T>(items: seq<T>, index: int, dir: Direction)
    requires 0 <= index < |items|
    requires Move(items, index, dir).Some?
    ensures multiset(Move(items, index, dir).value) == multiset(items)
  {
    var t := TargetIndex(index, dir);
    var mid := items[index := items[t]];
    assert multiset(mid) == multiset(items) - multiset{items[index]} + multiset{items[t]};
    assert mid[t] == items[t] by {
      if index != t { }
    }
  }

  /** Moving an entry up and then back down restores the list. */
  lemma UpThenDown<T>(items: seq<T>, index: int)
    requires 0 < index < |items|
    ensures Move(items, index, Up).Some?
    ensures Move(Move(items, index, Up).value, index - 1, Down) == Some(items)
  {
    var moved := Move(items, index, Up).value;
    assert !ArrowDisabled(moved, index - 1, Down);
    var back := Move(moved, index - 1, Down).value;
    assert forall k :: 0 <= k < |items| ==> back[k] == items[k];
    assert back == items;
  }

  /** Moving an entry down and then back up restores the list. */
  lemma DownThenUp<T>(items: seq<T>, index: int)
    requires 0 <= index < |items| - 1
    ensures Move(items, index, Down).Some?
    ensures Move(Move(items, index, Down).value, index + 1, Up) == Some(items)
  {
    var moved := Move(items, index, Down).value;
    var back := Move(moved, index + 1, Up).value;
    assert forall k :: 0 <= k < |items| ==> back[k] == items[k];
    assert back == items;
  }

  function Ids(faqs: seq<Faq>): (ids: seq<string>)
    ensures |ids| == |faqs|
    ensures forall i :: 0 <= i < |faqs| ==> ids[i] == faqs[i].id
  {
    seq(|faqs|, i requires 0 <= i < |faqs| => faqs[i].id)
  }

  /** The id order sent to the server after an arrow press; `None` when the
      press does nothing. */
  function ReorderRequest(faqs: seq<Faq>, index: int, dir: Direction): (r: Option<seq<string>>)
    requires 0 <= index < |faqs|
    ensures r.None? <==> ArrowDisabled(faqs, index, dir)
  {
    match Move(faqs, index, dir)
    case None => None
    case Some(moved) => Some(Ids(moved))
  }

  /** The request lists every id of the page once more, with exactly the two
      neighbours' ids swapped. */
  lemma ReorderRequestSwapsIds(faqs: seq<Faq>, index: int, dir: Direction)
    requires 0 <= index < |faqs|
    requires !ArrowDisabled(faqs, index, dir)
    ensures ReorderRequest(faqs, index, dir) == Move(Ids(faqs), index, dir)
  {
    var a := ReorderRequest(faqs, index, dir).value;
    var b := Move(Ids(faqs), index, dir).value;
    assert forall k :: 0 <= k < |faqs| ==> a[k] == b[k];
    assert a == b;
  }
}
