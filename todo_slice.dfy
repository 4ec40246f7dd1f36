/**
 * The to-do list reducer (src/redux/slices/todoSlice.ts). The store holds one
 * ordered sequence of items; `addTodo` and `updateTodo` re-sort it by
 * priority after changing it, `deleteTodo` filters it and `toggleComplete`
 * flips one item's completion flag.
 *
 * The clock `Date.now()` is the parameter `now`. The normaliser
 * `new Date(x).toISOString()` is the parameter `toIso`; `None` stands for the
 * RangeError it throws on an invalid date, which aborts the reducer and
 * leaves the state as it was.
 */
module TodoSlice {
  import opened Wrappers
  import opened Types
  import opened PriorityOrder
  import Decimal

  /** Position of the first item whose id is `id`, or -1 when there is none. */
  function FirstMatch(s: seq<TodoItem>, id: string): (k: int)
    ensures -1 <= k < |s|
    ensures k == -1 <==> forall i :: 0 <= i < |s| ==> s[i].id != id
    ensures k != -1 ==> s[k].id == id && forall i :: 0 <= i < k ==> s[i].id != id
  {
    if s == [] then -1
    else if s[0].id == id then 0
    else
      var k := FirstMatch(s[1..], id);
      if k == -1 then -1 else k + 1
  }

  /**
   * The record `addTodo` pushes: id and creation time from the clock, not
   * completed. The id is the decimal rendering of the creation time.
   */
  function NewItem(title: string, isoDue: string, priority: Priority, now: nat): (r: TodoItem)
    ensures Decimal.AllDigits(r.id) && Decimal.ParseDigits(r.id) == r.createdAt == now
    ensures r.title == title && r.dueDate == isoDue && r.priority == priority && !r.completed
  {
    Decimal.ParseNatToString(now);
    TodoItem(Decimal.NatToString(now), title, isoDue, priority, now, false)
  }

  /** The items after `addTodo` pushed `item` and re-sorted. */
  function Added(s: seq<TodoItem>, item: TodoItem): seq<TodoItem> {
    Sort(s + [item])
  }

  /**
   * The items after `updateTodo` stored the payload, with due date `isoDue`,
   * over the first item with the payload's id (if any) and re-sorted.
   */
  function Updated(s: seq<TodoItem>, payload: TodoItem, isoDue: string): seq<TodoItem> {
    var k := FirstMatch(s, payload.id);
    Sort(if k == -1 then s else s[k := payload.(dueDate := isoDue)])
  }

  /** The items `filter` keeps for `deleteTodo`: those whose id is not `id`. */
  function Without(s: seq<TodoItem>, id: string): (r: seq<TodoItem>)
    ensures |r| <= |s|
    ensures forall x :: x in r <==> x in s && x.id != id
  {
    if s == [] then []
    else (if s[0].id == id then [] else [s[0]]) + Without(s[1..], id)
  }

  /** The items after `toggleComplete` flipped the flag of the first item with id `id`. */
  function Toggled(s: seq<TodoItem>, id: string): seq<TodoItem> {
    var k := FirstMatch(s, id);
    if k == -1 then s else s[k := s[k].(completed := !s[k].completed)]
  }

  // ----- addTodo -----

  /**
   * `addTodo` adds exactly the new record: one more item, the same multiset
   * plus the record, sorted by rank, and the record lands at the end of its
   * priority class while the other classes keep their order.
   */
  lemma AddedProperties(s: seq<TodoItem>, item: TodoItem)
    ensures |Added(s, item)| == |s| + 1
    ensures multiset(Added(s, item)) == multiset(s) + multiset{item}
    ensures Sorted(Added(s, item))
    ensures forall p :: WithPriority(Added(s, item), p) == WithPriority(s, p) + Own(item, p)
  {
    forall p
      ensures WithPriority(Added(s, item), p) == WithPriority(s, p) + Own(item, p)
    {
      SortStable(s + [item], p);
      WithPrioritySnoc(s, item, p);
    }
  }

  /** When the list was already sorted, the new record goes right after the last item of its rank or lower. */
  lemma AddedToSorted(s: seq<TodoItem>, item: TodoItem, j: nat)
    requires Sorted(s) && j <= |s|
    requires forall k :: j <= k < |s| ==> Rank(s[k].priority) > Rank(item.priority)
    requires j == 0 || Rank(s[j - 1].priority) <= Rank(item.priority)
    ensures Added(s, item) == s[..j] + [item] + s[j..]
  {
    SortIdempotent(s);
    assert (s + [item])[..|s|] == s;
    InsertAt(s, item, j);
  }

  // ----- updateTodo -----

  /**
   * When some item has the payload's id, `updateTodo` swaps the first such
   * item for the payload with its normalised due date: same length, same
   * multiset but for that one item, sorted, and each priority class in the
   * order it had after the replacement.
   */
  lemma UpdatedFound(s: seq<TodoItem>, payload: TodoItem, isoDue: string)
    requires FirstMatch(s, payload.id) != -1
    ensures var k := FirstMatch(s, payload.id);
            var r := Updated(s, payload, isoDue);
            |r| == |s|
            && multiset(r) == multiset(s) - multiset{s[k]} + multiset{payload.(dueDate := isoDue)}
            && Sorted(r)
            && forall p :: WithPriority(r, p) == WithPriority(s[k := payload.(dueDate := isoDue)], p)
  {
    var k := FirstMatch(s, payload.id);
    var t := s[k := payload.(dueDate := isoDue)];
    MultisetReplace(s, k, payload.(dueDate := isoDue));
    forall p ensures WithPriority(Sort(t), p) == WithPriority(t, p) {
      SortStable(t, p);
    }
  }

  lemma MultisetReplace(s: seq<TodoItem>, k: nat, v: TodoItem)
    requires k < |s|
    ensures multiset(s[k := v]) == multiset(s) - multiset{s[k]} + multiset{v}
  {
    assert s == s[..k] + [s[k]] + s[k + 1..];
    assert s[k := v] == s[..k] + [v] + s[k + 1..];
  }

  /**
   * When no item has the payload's id, `updateTodo` only re-sorts; a list
   * that was already sorted comes back identical.
   */
  lemma UpdatedMissing(s: seq<TodoItem>, payload: TodoItem, isoDue: string)
    requires forall i :: 0 <= i < |s| ==> s[i].id != payload.id
    ensures multiset(Updated(s, payload, isoDue)) == multiset(s)
    ensures Sorted(s) ==> Updated(s, payload, isoDue) == s
  {
    if Sorted(s) {
      SortIdempotent(s);
    }
  }

  // ----- deleteTodo -----

  /** `r` is `s` with some items left out and the rest in their order. */
  ghost predicate Subsequence(r: seq<TodoItem>, s: seq<TodoItem>)
    decreases |s|
  {
    r == []
    || (s != []
        && ((r[0] == s[0] && Subsequence(r[1..], s[1..])) || Subsequence(r, s[1..])))
  }

  lemma {:induction false} SubsequenceMembers(r: seq<TodoItem>, s: seq<TodoItem>, y: TodoItem)
    requires Subsequence(r, s) && y in r
    ensures y in s
    decreases |s|
  {
    if Subsequence(r, s[1..]) {
      SubsequenceMembers(r, s[1..], y);
    } else if y != r[0] {
      SubsequenceMembers(r[1..], s[1..], y);
    }
  }

  /** Leaving items out of a sorted sequence keeps it sorted. */
  lemma {:induction false} SubsequenceSorted(r: seq<TodoItem>, s: seq<TodoItem>)
    requires Subsequence(r, s) && Sorted(s)
    ensures Sorted(r)
    decreases |s|
  {
    if r != [] {
      assert Sorted(s[1..]);
      if Subsequence(r, s[1..]) {
        SubsequenceSorted(r, s[1..]);
      } else {
        SubsequenceSorted(r[1..], s[1..]);
        forall j | 0 < j < |r|
          ensures Rank(r[0].priority) <= Rank(r[j].priority)
        {
          assert r[j] in r[1..];
          SubsequenceMembers(r[1..], s[1..], r[j]);
        }
      }
    }
  }

  /**
   * `deleteTodo` removes every item with the id and keeps every other item
   * as often as it occurred.
   */
  lemma {:induction false} WithoutCounts(s: seq<TodoItem>, id: string)
    ensures forall x :: multiset(Without(s, id))[x] == if x.id == id then 0 else multiset(s)[x]
  {
    if s != [] {
      var rest := Without(s[1..], id);
      WithoutCounts(s[1..], id);
      assert s == [s[0]] + s[1..];
      assert multiset(s) == multiset{s[0]} + multiset(s[1..]);
      if s[0].id == id {
        assert Without(s, id) == rest;
      } else {
        assert multiset(Without(s, id)) == multiset{s[0]} + multiset(rest);
      }
    }
  }

  /** `deleteTodo` keeps the remaining items in their relative order. */
  lemma {:induction false} WithoutInOrder(s: seq<TodoItem>, id: string)
    ensures Subsequence(Without(s, id), s)
    decreases |s|
  {
    if s != [] {
      var rest := Without(s[1..], id);
      WithoutInOrder(s[1..], id);
      if s[0].id == id {
        assert Without(s, id) == rest;
      } else {
        var r := [s[0]] + rest;
        assert r[0] == s[0] && r[1..] == rest;
      }
    }
  }

  /** Deleting twice is deleting once. */
  lemma {:induction false} WithoutIdempotent(s: seq<TodoItem>, id: string)
    ensures Without(Without(s, id), id) == Without(s, id)
  {
    if s != [] {
      var rest := Without(s[1..], id);
      WithoutIdempotent(s[1..], id);
      if s[0].id == id {
        assert Without(s, id) == rest;
      } else {
        var r := [s[0]] + rest;
        assert r[0] == s[0] && r[1..] == rest;
        assert Without(r, id) == [s[0]] + Without(rest, id);
      }
    }
  }

  /** Deleting an id nobody has changes nothing. */
  lemma {:induction false} WithoutMissing(s: seq<TodoItem>, id: string)
    requires forall i :: 0 <= i < |s| ==> s[i].id != id
    ensures Without(s, id) == s
  {
    if s != [] {
      WithoutMissing(s[1..], id);
    }
  }

  /** `deleteTodo` does not sort, yet keeps a sorted list sorted. */
  lemma WithoutSorted(s: seq<TodoItem>, id: string)
    requires Sorted(s)
    ensures Sorted(Without(s, id))
  {
    WithoutInOrder(s, id);
    SubsequenceSorted(Without(s, id), s);
  }

  // ----- toggleComplete -----

  /**
   * `toggleComplete` flips `completed` on the first item with the id and
   * nowhere else; every other field of every item, and the order, stay.
   */
  lemma ToggledEffect(s: seq<TodoItem>, id: string)
    ensures |Toggled(s, id)| == |s|
    ensures forall i :: 0 <= i < |s| ==> Toggled(s, id)[i].(completed := s[i].completed) == s[i]
    ensures forall i :: 0 <= i < |s| ==> (Toggled(s, id)[i].completed != s[i].completed <==> i == FirstMatch(s, id))
  {
  }

  /** Toggling twice restores the list. */
  lemma ToggledTwice(s: seq<TodoItem>, id: string)
    ensures Toggled(Toggled(s, id), id) == s
  {
    var k := FirstMatch(s, id);
    if k != -1 {
      var t := Toggled(s, id);
      assert forall i :: 0 <= i < |s| ==> t[i].id == s[i].id;
      assert FirstMatch(t, id) == k;
    }
  }

  /** Toggling keeps a sorted list sorted. */
  lemma ToggledSorted(s: seq<TodoItem>, id: string)
    requires Sorted(s)
    ensures Sorted(Toggled(s, id))
  {
    var t := Toggled(s, id);
    assert forall i :: 0 <= i < |s| ==> t[i].priority == s[i].priority;
  }

  // ----- the reducer as a whole -----

  /** The four actions the slice exports. */
  datatype Action =
    | Add(title: string, dueDate: string, priority: Priority, now: nat)
    | Update(item: TodoItem)
    | Delete(id: string)
    | Toggle(id: string)

  /**
   * One dispatch: the new items, or None when the due-date normaliser throws.
   * `updateTodo` normalises only when it found an item to replace.
   */
  function Reduce(s: seq<TodoItem>, a: Action, toIso: string -> Option<string>): (r: Option<seq<TodoItem>>)
    ensures r.None? <==> (a.Add? && toIso(a.dueDate).None?)
                         || (a.Update? && FirstMatch(s, a.item.id) != -1 && toIso(a.item.dueDate).None?)
    ensures r.Some? && a.Add? ==> |r.value| == |s| + 1
    ensures r.Some? && (a.Update? || a.Toggle?) ==> |r.value| == |s|
    ensures r.Some? && a.Delete? ==> |r.value| <= |s|
  {
    match a
    case Add(title, dueDate, priority, now) =>
      (match toIso(dueDate)
       case None => None
       case Some(iso) => Some(Added(s, NewItem(title, iso, priority, now))))
    case Update(item) =>
      if FirstMatch(s, item.id) == -1 then Some(Sort(s))
      else
        (match toIso(item.dueDate)
         case None => None
         case Some(iso) => Some(Updated(s, item, iso)))
    case Delete(id) => Some(Without(s, id))
    case Toggle(id) => Some(Toggled(s, id))
  }

  /** Dispatches `acts` in order; a dispatch that throws leaves the items as they were. */
  function Run(s: seq<TodoItem>, acts: seq<Action>, toIso: string -> Option<string>): (r: seq<TodoItem>)
    ensures |r| <= |s| + |acts|
    decreases |acts|
  {
    if acts == [] then s
    else
      var next := match Reduce(s, acts[0], toIso) case None => s case Some(t) => t;
      Run(next, acts[1..], toIso)
  }

  /** Every action keeps a sorted list sorted. */
  lemma ReduceSorted(s: seq<TodoItem>, a: Action, toIso: string -> Option<string>)
    requires Sorted(s)
    ensures Reduce(s, a, toIso).Some? ==> Sorted(Reduce(s, a, toIso).value)
  {
    match a
    case Add(_, _, _, _) =>
    case Update(_) =>
    case Delete(id) => WithoutSorted(s, id);
    case Toggle(id) => ToggledSorted(s, id);
  }

  /** From the initial empty list, every sequence of dispatches leaves the items sorted by rank. */
  lemma {:induction false} RunSorted(s: seq<TodoItem>, acts: seq<Action>, toIso: string -> Option<string>)
    requires Sorted(s)
    ensures Sorted(Run(s, acts, toIso))
    decreases |acts|
  {
    if acts != [] {
      ReduceSorted(s, acts[0], toIso);
      var next := match Reduce(s, acts[0], toIso) case None => s case Some(t) => t;
      RunSorted(next, acts[1..], toIso);
    }
  }

  /** Two items of a multiset of `r`, even equal ones, sit at two different positions. */
  lemma {:induction false} TwoPositions(r: seq<TodoItem>, a: TodoItem, b: TodoItem)
    requires multiset{a, b} <= multiset(r)
    ensures exists i, j :: 0 <= i < |r| && 0 <= j < |r| && i != j && r[i] == a && r[j] == b
  {
    assert a in multiset(r);
    var i :| 0 <= i < |r| && r[i] == a;
    var rest := r[..i] + r[i + 1..];
    assert r == r[..i] + [r[i]] + r[i + 1..];
    assert multiset(r) == multiset(rest) + multiset{a};
    assert b in multiset(rest);
    var j' :| 0 <= j' < |rest| && rest[j'] == b;
    var j := if j' < i then j' else j' + 1;
    assert r[j] == b;
  }

  /** Two successive additions leave both added items in the result, at different positions. */
  lemma AddedTwice(s: seq<TodoItem>, r1: seq<TodoItem>, r: seq<TodoItem>, a: TodoItem, b: TodoItem)
    requires multiset(r1) == multiset(s) + multiset{a}
    requires multiset(r) == multiset(r1) + multiset{b}
    ensures exists i, j :: 0 <= i < |r| && 0 <= j < |r| && i != j && r[i] == a && r[j] == b
  {
    assert multiset{a, b} <= multiset(r);
    TwoPositions(r, a, b);
  }

  /**
   * Ids are not unique: two `addTodo` dispatches that read the same clock
   * value give two items with the same id.
   */
  lemma SameInstantAddsShareId(s: seq<TodoItem>, now: nat,
                               t1: string, d1: string, p1: Priority,
                               t2: string, d2: string, p2: Priority)
    ensures var r := Added(Added(s, NewItem(t1, d1, p1, now)), NewItem(t2, d2, p2, now));
            exists i, j :: 0 <= i < |r| && 0 <= j < |r| && i != j
                           && r[i].id == r[j].id == Decimal.NatToString(now)
  {
    var a, b := NewItem(t1, d1, p1, now), NewItem(t2, d2, p2, now);
    var r1 := Added(s, a);
    AddedProperties(s, a);
    AddedProperties(r1, b);
    AddedTwice(s, r1, Added(r1, b), a, b);
  }

  /** The store: the slice's state `items`, changed in place by the reducers. */
  class TodoStore {
    var items: seq<TodoItem>

    /** The initial state: no items. */
    constructor ()
      ensures items == []
    {
      items := [];
    }

    /** `findIndex` (and `find`): the first position whose id matches, or -1. */
    method FindIndex(id: string) returns (k: int)
      ensures k == FirstMatch(items, id)
    {
      var i := 0;
      while i < |items|
        invariant 0 <= i <= |items|
        invariant forall j :: 0 <= j < i ==> items[j].id != id
      {
        if items[i].id == id {
          return i;
        }
        i := i + 1;
      }
      return -1;
    }

    /** The in-place stable sort by the priority comparator. */
    method SortByPriority()
      modifies this
      ensures items == Sort(old(items))
    {
      items := InsertionSort(items);
    }

    /** `addTodo`: push the new record, then re-sort. */
    method AddTodo(title: string, dueDate: string, priority: Priority, now: nat,
                   toIso: string -> Option<string>) returns (ok: bool)
      modifies this
      ensures ok == toIso(dueDate).Some?
      ensures ok ==> items == Added(old(items), NewItem(title, toIso(dueDate).value, priority, now))
      ensures !ok ==> items == old(items)
      ensures Reduce(old(items), Add(title, dueDate, priority, now), toIso) == if ok then Some(items) else None
    {
      var iso := toIso(dueDate);
      if iso.None? {
        return false;
      }
      items := items + [NewItem(title, iso.value, priority, now)];
      SortByPriority();
      return true;
    }

    /** `updateTodo`: replace the first item with the payload's id, then re-sort. */
    method UpdateTodo(payload: TodoItem, toIso: string -> Option<string>) returns (ok: bool)
      modifies this
      ensures FirstMatch(old(items), payload.id) == -1 ==> ok && items == Sort(old(items))
      ensures FirstMatch(old(items), payload.id) != -1 ==> ok == toIso(payload.dueDate).Some?
      ensures FirstMatch(old(items), payload.id) != -1 && ok ==>
                items == Updated(old(items), payload, toIso(payload.dueDate).value)
      ensures !ok ==> items == old(items)
      ensures Reduce(old(items), Update(payload), toIso) == if ok then Some(items) else None
    {
      var index := FindIndex(payload.id);
      if index != -1 {
        var iso := toIso(payload.dueDate);
        if iso.None? {
          return false;
        }
        items := items[index := payload.(dueDate := iso.value)];
      }
      SortByPriority();
      return true;
    }

    /** `deleteTodo`: keep only the items whose id differs. */
    method DeleteTodo(id: string)
      modifies this
      ensures items == Without(old(items), id)
    {
      items := Without(items, id);
    }

    /** `toggleComplete`: flip the completion flag of the first item with the id. */
    method ToggleComplete(id: string)
      modifies this
      ensures items == Toggled(old(items), id)
    {
      var k := FindIndex(id);
      if k != -1 {
        items := items[k := items[k].(completed := !items[k].completed)];
      }
    }

    /**
     * Dispatching one action: the items become what the reducer computes, or
     * stay as they were when it throws. A sorted store stays sorted.
     */
    method Dispatch(a: Action, toIso: string -> Option<string>) returns (ok: bool)
      modifies this
      ensures Reduce(old(items), a, toIso) == if ok then Some(items) else None
      ensures !ok ==> items == old(items)
      ensures Sorted(old(items)) ==> Sorted(items)
    {
      if Sorted(items) {
        ReduceSorted(items, a, toIso);
      }
      match a
      case Add(title, dueDate, priority, now) =>
        ok := AddTodo(title, dueDate, priority, now, toIso);
      case Update(item) =>
        ok := UpdateTodo(item, toIso);
      case Delete(id) =>
        DeleteTodo(id);
        ok := true;
      case Toggle(id) =>
        ToggleComplete(id);
        ok := true;
    }
  }
}
