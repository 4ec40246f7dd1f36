/**
 * The priority ordering shared by the `addTodo` and `updateTodo` reducers
 * (src/redux/slices/todoSlice.ts): the comparator ranks HIGH before MEDIUM
 * before LOW, and `Array.prototype.sort` is stable, so the re-sort is a
 * stable sort keyed on that rank.
 */
module PriorityOrder {
  import opened Types

  /** The comparator's table: HIGH = 0, MEDIUM = 1, LOW = 2. */
  function Rank(p: Priority): nat {
    match p
    case HIGH => 0
    case MEDIUM => 1
    case LOW => 2
  }

  /** The ranks are 0, 1, 2 in the order HIGH, MEDIUM, LOW, and no two priorities share one. */
  lemma RankOrder(p: Priority, q: Priority)
    ensures Rank(HIGH) < Rank(MEDIUM) < Rank(LOW) == 2
    ensures Rank(p) == Rank(q) <==> p == q
  {
  }

  /**
   * The sort callback: negative when `a` belongs before `b`, positive when
   * after, zero when they tie.
   */
  function Compare(a: TodoItem, b: TodoItem): (c: int)
    ensures c < 0 <==> Rank(a.priority) < Rank(b.priority)
    ensures c == 0 <==> a.priority == b.priority
  {
    Rank(a.priority) - Rank(b.priority)
  }

  /** Ordered by non-decreasing rank. */
  ghost predicate Sorted(s: seq<TodoItem>) {
    forall i, j :: 0 <= i < j < |s| ==> Rank(s[i].priority) <= Rank(s[j].priority)
  }

  /**
   * Places `x` after the last element of `s` whose rank does not exceed its
   * own, scanning from the back: one step of insertion sort.
   */
  function Insert(s: seq<TodoItem>, x: TodoItem): (r: seq<TodoItem>)
    ensures |r| == |s| + 1
    ensures multiset(r) == multiset(s) + multiset{x}
  {
    if s == [] then [x]
    else if Rank(s[|s| - 1].priority) <= Rank(x.priority) then s + [x]
    else
      assert s == s[..|s| - 1] + [s[|s| - 1]];
      Insert(s[..|s| - 1], x) + [s[|s| - 1]]
  }

  /** Inserting into a sorted sequence keeps it sorted. */
  lemma {:induction false} InsertSorted(s: seq<TodoItem>, x: TodoItem)
    requires Sorted(s)
    ensures Sorted(Insert(s, x))
  {
    if s != [] && Rank(s[|s| - 1].priority) > Rank(x.priority) {
      var init, last := s[..|s| - 1], s[|s| - 1];
      SortedSplit(s);
      InsertSorted(init, x);
      InsertPast(s, x);
      InsertBelow(init, x, Rank(last.priority));
      SortedSnoc(Insert(init, x), last);
    }
  }

  /** A sorted sequence splits into a sorted front and a last element of the highest rank. */
  lemma SortedSplit(s: seq<TodoItem>)
    requires Sorted(s) && s != []
    ensures Sorted(s[..|s| - 1])
    ensures forall i :: 0 <= i < |s| - 1 ==> Rank(s[i].priority) <= Rank(s[|s| - 1].priority)
  {
  }

  /** Appending an element of the highest rank keeps a sequence sorted. */
  lemma SortedSnoc(s: seq<TodoItem>, y: TodoItem)
    requires Sorted(s)
    requires forall i :: 0 <= i < |s| ==> Rank(s[i].priority) <= Rank(y.priority)
    ensures Sorted(s + [y])
  {
  }

  /** Inserting keeps every rank at or below a bound that `s` and `x` respect. */
  lemma InsertBelow(s: seq<TodoItem>, x: TodoItem, b: nat)
    requires forall i :: 0 <= i < |s| ==> Rank(s[i].priority) <= b
    requires Rank(x.priority) <= b
    ensures forall i :: 0 <= i < |Insert(s, x)| ==> Rank(Insert(s, x)[i].priority) <= b
  {
    var r := Insert(s, x);
    forall i | 0 <= i < |r|
      ensures Rank(r[i].priority) <= b
    {
      assert r[i] in multiset(s) + multiset{x};
      if r[i] != x {
        assert r[i] in s;
      }
    }
  }

  /** Stable sort by rank, as insertion sort from left to right. */
  function Sort(s: seq<TodoItem>): (r: seq<TodoItem>)
    ensures |r| == |s|
    ensures multiset(r) == multiset(s)
    ensures Sorted(r)
  {
    if s == [] then []
    else
      assert s == s[..|s| - 1] + [s[|s| - 1]];
      InsertSorted(Sort(s[..|s| - 1]), s[|s| - 1]);
      Insert(Sort(s[..|s| - 1]), s[|s| - 1])
  }

  /**
   * The items of priority `p`, in their order in `s`. Two sequences with
   * equal `WithPriority` for every `p` hold each priority's items in the
   * same relative order.
   */
  function WithPriority(s: seq<TodoItem>, p: Priority): (r: seq<TodoItem>)
    ensures |r| <= |s|
  {
    if s == [] then [] else WithPriority(s[..|s| - 1], p) + Own(s[|s| - 1], p)
  }

  /** `[x]` when `x` has priority `p`, otherwise empty. */
  function Own(x: TodoItem, p: Priority): seq<TodoItem> {
    if x.priority == p then [x] else []
  }

  lemma WithPrioritySnoc(a: seq<TodoItem>, y: TodoItem, p: Priority)
    ensures WithPriority(a + [y], p) == WithPriority(a, p) + Own(y, p)
  {
    assert (a + [y])[..|a + [y]| - 1] == a;
  }

  /** When no item of `s` has priority `p`, its class is empty. */
  lemma {:induction false} NoneWithPriority(s: seq<TodoItem>, p: Priority)
    requires forall i :: 0 <= i < |s| ==> s[i].priority != p
    ensures WithPriority(s, p) == []
  {
    if s != [] {
      NoneWithPriority(s[..|s| - 1], p);
    }
  }

  /**
   * Insertion is stable: the inserted item joins the end of its own priority
   * class and every other class is untouched.
   */
  lemma {:induction false} InsertStable(s: seq<TodoItem>, x: TodoItem, p: Priority)
    ensures WithPriority(Insert(s, x), p) == WithPriority(s, p) + Own(x, p)
  {
    if s == [] {
      WithPrioritySnoc([], x, p);
      assert [] + [x] == [x];
    } else if Rank(s[|s| - 1].priority) <= Rank(x.priority) {
      WithPrioritySnoc(s, x, p);
    } else {
      var init, last := s[..|s| - 1], s[|s| - 1];
      InsertStable(init, x, p);
      InsertPastStable(s, init, last, Insert(init, x), x, p);
    }
  }

  /** The step of InsertStable where `x` moves in front of a higher-ranked `last`. */
  lemma InsertPastStable(s: seq<TodoItem>, init: seq<TodoItem>, last: TodoItem,
                         r': seq<TodoItem>, x: TodoItem, p: Priority)
    requires s == init + [last] && last.priority != x.priority
    requires WithPriority(r', p) == WithPriority(init, p) + Own(x, p)
    ensures WithPriority(r' + [last], p) == WithPriority(s, p) + Own(x, p)
  {
    WithPrioritySnoc(r', last, p);
    WithPrioritySnoc(init, last, p);
    OwnSwap(WithPriority(init, p), last, x, p);
  }

  /** Items of different priorities never both land in one class. */
  lemma OwnSwap(w: seq<TodoItem>, y: TodoItem, x: TodoItem, p: Priority)
    requires y.priority != x.priority
    ensures w + Own(x, p) + Own(y, p) == w + Own(y, p) + Own(x, p)
  {
    if x.priority == p {
      assert Own(y, p) == [];
    } else {
      assert Own(x, p) == [];
    }
  }

  /** The sort is stable: each priority class keeps its relative order. */
  lemma {:induction false} SortStable(s: seq<TodoItem>, p: Priority)
    ensures WithPriority(Sort(s), p) == WithPriority(s, p)
  {
    if s != [] {
      SortStable(s[..|s| - 1], p);
      InsertStable(Sort(s[..|s| - 1]), s[|s| - 1], p);
    }
  }

  /** The three priority classes of `s`, HIGH first, each in its original order. */
  function Buckets(s: seq<TodoItem>): seq<TodoItem> {
    WithPriority(s, HIGH) + WithPriority(s, MEDIUM) + WithPriority(s, LOW)
  }

  /** A sorted sequence is the concatenation of its priority classes. */
  lemma {:induction false} SortedIsBuckets(s: seq<TodoItem>)
    requires Sorted(s)
    ensures s == Buckets(s)
  {
    if s != [] {
      var init, x := s[..|s| - 1], s[|s| - 1];
      SortedSplit(s);
      SortedIsBuckets(init);
      BucketsSnocSorted(s, init, x);
    }
  }

  /** The inductive step of SortedIsBuckets. */
  lemma BucketsSnocSorted(s: seq<TodoItem>, init: seq<TodoItem>, x: TodoItem)
    requires s != [] && init == s[..|s| - 1] && x == s[|s| - 1]
    requires forall i :: 0 <= i < |init| ==> Rank(init[i].priority) <= Rank(x.priority)
    requires init == Buckets(init)
    ensures s == Buckets(s)
  {
    assert s == init + [x];
    WithPrioritySnoc(init, x, HIGH);
    WithPrioritySnoc(init, x, MEDIUM);
    WithPrioritySnoc(init, x, LOW);
    if x.priority != LOW {
      NoneWithPriority(init, LOW);
    }
    if x.priority == HIGH {
      NoneWithPriority(init, MEDIUM);
    }
    BucketsSnoc(init, x, WithPriority(init, HIGH), WithPriority(init, MEDIUM), WithPriority(init, LOW));
  }

  /** Appending an item of the highest rank present extends its own class. */
  lemma BucketsSnoc(init: seq<TodoItem>, x: TodoItem, h: seq<TodoItem>, m: seq<TodoItem>, l: seq<TodoItem>)
    requires init == h + m + l
    requires x.priority != LOW ==> l == []
    requires x.priority == HIGH ==> m == []
    ensures init + [x] == (h + Own(x, HIGH)) + (m + Own(x, MEDIUM)) + (l + Own(x, LOW))
  {
    match x.priority
    case HIGH =>
      assert Own(x, MEDIUM) == [] && Own(x, LOW) == [];
    case MEDIUM =>
      assert Own(x, HIGH) == [] && Own(x, LOW) == [];
    case LOW =>
      assert Own(x, HIGH) == [] && Own(x, MEDIUM) == [];
  }

  /** Reference definition: the stable sort equals the concatenation of the priority classes. */
  lemma SortIsBuckets(s: seq<TodoItem>)
    ensures Sort(s) == Buckets(s)
  {
    SortedIsBuckets(Sort(s));
    SortStable(s, HIGH);
    SortStable(s, MEDIUM);
    SortStable(s, LOW);
  }

  /**
   * The sort's result is the only sorted sequence that keeps every priority
   * class of the input in order.
   */
  lemma SortUnique(s: seq<TodoItem>, r: seq<TodoItem>)
    requires Sorted(r)
    requires forall p :: WithPriority(r, p) == WithPriority(s, p)
    ensures r == Sort(s)
  {
    SortedIsBuckets(r);
    SortIsBuckets(s);
  }

  /** Sorting an already sorted sequence leaves it unchanged. */
  lemma SortIdempotent(s: seq<TodoItem>)
    requires Sorted(s)
    ensures Sort(s) == s
  {
    SortUnique(s, s);
  }

  /**
   * Insert puts `x` at the first position `j` from which every later element
   * outranks it, if the element before `j` (if any) does not: the position
   * the in-place insertion step stops at.
   */
  lemma {:induction false} InsertAt(s: seq<TodoItem>, x: TodoItem, j: nat)
    requires j <= |s|
    requires forall k :: j <= k < |s| ==> Rank(s[k].priority) > Rank(x.priority)
    requires j == 0 || Rank(s[j - 1].priority) <= Rank(x.priority)
    ensures Insert(s, x) == s[..j] + [x] + s[j..]
  {
    if j == |s| {
      assert s[..j] == s && s[j..] == [];
      assert s == [] || Rank(s[|s| - 1].priority) <= Rank(x.priority);
    } else {
      var init, last := s[..|s| - 1], s[|s| - 1];
      InsertAtRest(s, init, last, x, j);
      InsertAt(init, x, j);
      SplitLast(s, init, last, x, j);
    }
  }

  lemma InsertAtRest(s: seq<TodoItem>, init: seq<TodoItem>, last: TodoItem, x: TodoItem, j: nat)
    requires j < |s| && init == s[..|s| - 1] && last == s[|s| - 1]
    requires forall k :: j <= k < |s| ==> Rank(s[k].priority) > Rank(x.priority)
    requires j == 0 || Rank(s[j - 1].priority) <= Rank(x.priority)
    ensures Insert(s, x) == Insert(init, x) + [last]
    ensures forall k :: j <= k < |init| ==> Rank(init[k].priority) > Rank(x.priority)
    ensures j == 0 || Rank(init[j - 1].priority) <= Rank(x.priority)
  {
    assert Rank(s[|s| - 1].priority) > Rank(x.priority);
    InsertPast(s, x);
  }

  /** Insert's recursive case: `x` goes in front of a higher-ranked last element. */
  lemma InsertPast(s: seq<TodoItem>, x: TodoItem)
    requires s != [] && Rank(s[|s| - 1].priority) > Rank(x.priority)
    ensures Insert(s, x) == Insert(s[..|s| - 1], x) + [s[|s| - 1]]
  {
  }

  lemma SplitLast(s: seq<TodoItem>, init: seq<TodoItem>, last: TodoItem, x: TodoItem, j: nat)
    requires j < |s| && init == s[..|s| - 1] && last == s[|s| - 1]
    ensures init[..j] + [x] + init[j..] + [last] == s[..j] + [x] + s[j..]
  {
    assert init[..j] == s[..j];
    assert init[j..] + [last] == s[j..];
  }

  /**
   * Insertion sort: each item in turn is swapped backwards past the items
   * the comparator puts after it. Equal items are never swapped, so the sort
   * is stable.
   */
  method InsertionSort(s: seq<TodoItem>) returns (a: seq<TodoItem>)
    ensures a == Sort(s)
  {
    a := s;
    var i := 0;
    while i < |s|
      invariant 0 <= i <= |s|
      invariant a == Sort(s[..i]) + s[i..]
    {
      SortPrefix(s, i);
      a := SwapBack(a, i);
      i := i + 1;
    }
    assert s[..|s|] == s && s[|s|..] == [];
    assert a == Sort(s) + [];
  }

  /** Sorting one more element of `s` inserts it into the sorted prefix. */
  lemma SortPrefix(s: seq<TodoItem>, i: nat)
    requires i < |s|
    ensures var a := Sort(s[..i]) + s[i..];
            && |a| == |s| && a[..i] == Sort(s[..i]) && a[i] == s[i] && a[i + 1..] == s[i + 1..]
            && Sort(s[..i + 1]) + s[i + 1..] == Insert(a[..i], a[i]) + a[i + 1..]
  {
    assert s[..i + 1][..i] == s[..i];
  }

  /** Moves `a[i]` backwards into the prefix `a[..i]`, leaving `a[i + 1..]` alone. */
  method SwapBack(a: seq<TodoItem>, i: nat) returns (b: seq<TodoItem>)
    requires i < |a|
    ensures b == Insert(a[..i], a[i]) + a[i + 1..]
  {
    ghost var done, x, rest := a[..i], a[i], a[i + 1..];
    b := a;
    var j := i;
    while j > 0 && Compare(b[j - 1], b[j]) > 0
      invariant 0 <= j <= i
      invariant b == done[..j] + [x] + done[j..] + rest
      invariant forall k :: j <= k < i ==> Rank(done[k].priority) > Rank(x.priority)
    {
      SwapStep(done, x, rest, j);
      b := b[j - 1 := b[j]][j := b[j - 1]];
      j := j - 1;
    }
    InsertAt(done, x, j);
  }

  /** One swap moves `x` one place to the front. */
  lemma SwapStep(done: seq<TodoItem>, x: TodoItem, rest: seq<TodoItem>, j: nat)
    requires 0 < j <= |done|
    ensures var b := done[..j] + [x] + done[j..] + rest;
            b[j - 1 := b[j]][j := b[j - 1]] == done[..j - 1] + [x] + done[j - 1..] + rest
  {
    var b := done[..j] + [x] + done[j..] + rest;
    var c := done[..j - 1] + [x] + done[j - 1..] + rest;
    assert |b| == |c|;
    forall k | 0 <= k < |b|
      ensures b[j - 1 := b[j]][j := b[j - 1]][k] == c[k]
    {
      if k < j - 1 {
        assert b[k] == done[k] == c[k];
      } else if k > j {
        assert b[k] == c[k];
      }
    }
  }
}
