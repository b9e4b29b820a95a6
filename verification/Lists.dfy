/**
 lib/list.cc: singly linked lists, proved to be sequences; and the insertion of SortedList, proved to be
 stable. The other modules use sequences where the source uses these lists.
*/
module Lists {
  import opened Common

  // ---------------------------------------------------------------- sorted insertion

  type Compare<!T> = (T, T) -> int

  /** The place for an item: in front of the first element that is bigger, from place i on. */
  function PlaceFrom<T>(compare: Compare<T>, s: seq<T>, item: T, i: nat): (k: nat)
    requires i <= |s|
    ensures i <= k <= |s|
    ensures forall j :: i <= j < k ==> compare(item, s[j]) >= 0
    ensures k < |s| ==> compare(item, s[k]) < 0
    decreases |s| - i
  {
    if i == |s| || compare(item, s[i]) < 0 then i else PlaceFrom(compare, s, item, i + 1)
  }

  function Inserted<T>(compare: Compare<T>, s: seq<T>, item: T): seq<T> {
    var k := PlaceFrom(compare, s, item, 0);
    s[..k] + [item] + s[k..]
  }

  /** `compare` orders all items, possibly with ties. */
  ghost predicate IsOrder<T(!new)>(compare: Compare<T>) {
    && (forall a, b :: compare(a, b) < 0 <==> compare(b, a) > 0)
    && (forall a, b, c :: compare(a, b) <= 0 && compare(b, c) <= 0 ==> compare(a, c) <= 0)
  }

  ghost predicate Sorted<T>(compare: Compare<T>, s: seq<T>) {
    forall i, j :: 0 <= i < j < |s| ==> compare(s[i], s[j]) <= 0
  }

  /** Insertion keeps a list sorted. */
  lemma InsertedIsSorted<T(!new)>(compare: Compare<T>, s: seq<T>, item: T)
    requires IsOrder(compare) && Sorted(compare, s)
    ensures Sorted(compare, Inserted(compare, s, item))
  {
  }

  /** A new item goes behind all items that tie with it: items that tie leave in the order they came. */
  lemma InsertedIsStable<T(!new)>(compare: Compare<T>, s: seq<T>, item: T, j: nat)
    requires IsOrder(compare) && Sorted(compare, s) && j < |s|
    ensures j < PlaceFrom(compare, s, item, 0) <==> compare(s[j], item) <= 0
  {
  }

  // ---------------------------------------------------------------- linked lists

  class ListElement<T> {
    const item: T
    var next: ListElement?<T>

    constructor (itm: T)
      ensures item == itm && next == null
    {
      item, next := itm, null;
    }
  }

  /** What the element at place i links to. */
  ghost function Next<T>(spine: seq<ListElement<T>>, i: nat): ListElement?<T> {
    if i + 1 < |spine| then spine[i + 1] else null
  }

  /** The elements are linked in this order, and no element is linked twice. */
  ghost predicate Linked<T>(spine: seq<ListElement<T>>)
    reads spine
  {
    && Distinct(spine)
    && forall i :: 0 <= i < |spine| ==> spine[i].next == Next(spine, i)
  }

  ghost function ItemsOf<T>(spine: seq<ListElement<T>>): (s: seq<T>)
    ensures |s| == |spine|
  {
    seq(|spine|, i requires 0 <= i < |spine| => spine[i].item)
  }

  /** An element linked in front of a list. */
  lemma LinkedFront<T>(was: seq<ListElement<T>>, e: ListElement<T>)
    requires Linked(was) && e !in was && e.next == if was == [] then null else was[0]
    ensures Linked([e] + was) && ItemsOf([e] + was) == [e.item] + ItemsOf(was)
  {
  }

  lemma LinkedTail<T>(was: seq<ListElement<T>>)
    requires Linked(was) && was != []
    ensures Linked(was[1..]) && ItemsOf(was[1..]) == ItemsOf(was)[1..]
  {
  }

  /** An element linked in behind place i. */
  lemma LinkedBehind<T>(was: seq<ListElement<T>>, i: nat, e: ListElement<T>)
    requires Distinct(was) && i < |was| && e !in was
    requires forall k :: 0 <= k < |was| && k != i ==> was[k].next == Next(was, k)
    requires was[i].next == e && e.next == Next(was, i)
    ensures Linked(was[..i + 1] + [e] + was[i + 1..])
  {
  }

  /** The element behind place i unlinked. */
  lemma LinkedWithout<T>(was: seq<ListElement<T>>, i: nat)
    requires Distinct(was) && i + 1 < |was|
    requires forall k :: 0 <= k < |was| && k != i ==> was[k].next == Next(was, k)
    requires was[i].next == Next(was, i + 1)
    ensures Linked(was[..i + 1] + was[i + 2..])
  {
  }

  lemma ItemsWithout<T>(was: seq<ListElement<T>>, i: nat)
    requires i + 1 < |was|
    ensures ItemsOf(was[..i + 1] + was[i + 2..]) == ItemsOf(was)[..i + 1] + ItemsOf(was)[i + 2..]
  {
  }

  lemma ItemsBehind<T>(was: seq<ListElement<T>>, i: nat, e: ListElement<T>)
    requires i < |was|
    ensures ItemsOf(was[..i + 1] + [e] + was[i + 1..]) == ItemsOf(was)[..i + 1] + [e.item] + ItemsOf(was)[i + 1..]
  {
  }

  lemma SpineBehind<T>(was: seq<ListElement<T>>, i: nat, e: ListElement<T>)
    requires i < |was|
    ensures forall x :: x in was[..i + 1] + [e] + was[i + 1..] ==> x in was || x == e
  {
  }

  /** `now` is `was` without its first occurrence of the item. */
  ghost predicate WithoutFirst<T>(was: seq<T>, item: T, now: seq<T>) {
    exists k :: 0 <= k < |was| && was[k] == item && item !in was[..k] && now == was[..k] + was[k + 1..]
  }

  lemma FoundAt<T>(was: seq<T>, item: T, k: nat, now: seq<T>)
    requires k < |was| && was[k] == item && item !in was[..k] && now == was[..k] + was[k + 1..]
    ensures WithoutFirst(was, item, now)
  {
  }

  /** Taking an item off a list without repetitions takes away exactly this item. */
  lemma RestIsDistinct<T>(was: seq<T>, item: T, now: seq<T>)
    requires Distinct(was) && WithoutFirst(was, item, now)
    ensures Distinct(now) && forall x :: x in now <==> x in was && x != item
  {
    var k :| 0 <= k < |was| && was[k] == item && item !in was[..k] && now == was[..k] + was[k + 1..];
    forall x | x in was && x != item ensures x in now {
      var i :| 0 <= i < |was| && was[i] == x;
      assert x == if i < k then now[i] else now[i - 1];
    }
  }

  lemma InsertedIsDistinct<T>(compare: Compare<T>, s: seq<T>, item: T)
    requires Distinct(s) && item !in s
    ensures Distinct(Inserted(compare, s, item))
  {
  }

  class List<T(==)> {
    var first: ListElement?<T>
    var last: ListElement?<T>
    var numInList: int
    ghost var spine: seq<ListElement<T>>

    /** The elements make up the list. */
    ghost predicate Linkage()
      reads this, spine
    {
      && numInList == |spine|
      && first == (if spine == [] then null else spine[0])
      && last == (if spine == [] then null else spine[|spine| - 1])
      && Linked(spine)
    }

    ghost function Items(): (s: seq<T>)
      reads this
    {
      ItemsOf(spine)
    }

    /** And no item is on the list twice, as Append, Prepend and Insert assert. */
    ghost predicate Valid()
      reads this, spine
    {
      Linkage() && Distinct(Items())
    }

    constructor ()
      ensures Valid() && Items() == []
    {
      first, last, numInList, spine := null, null, 0, [];
    }

    method IsInList(item: T) returns (found: bool)
      requires Valid()
      ensures found <==> item in Items()
    {
      var ptr := first;
      ghost var i := 0;
      while ptr != null
        invariant 0 <= i <= |spine| && ptr == if i < |spine| then spine[i] else null
        invariant item !in Items()[..i]
        decreases |spine| - i
      {
        assert Items()[i] == ptr.item;
        if item == ptr.item {
          return true;
        }
        ptr := ptr.next;
        i := i + 1;
      }
      assert Items()[..i] == Items();
      return false;
    }

    /** The element has been linked in behind place i. */
    ghost method RecordBehind(i: nat, element: ListElement<T>)
      requires Distinct(spine) && i < |spine| && element !in spine && numInList == |spine| + 1
      requires first == spine[0] && last == if i + 1 < |spine| then spine[|spine| - 1] else element
      requires forall k :: 0 <= k < |spine| && k != i ==> spine[k].next == Next(spine, k)
      requires spine[i].next == element && element.next == Next(spine, i)
      modifies this`spine
      ensures Linkage() && Items() == old(Items())[..i + 1] + [element.item] + old(Items())[i + 1..]
      ensures forall e :: e in spine ==> e in old(spine) || e == element
    {
      LinkedBehind(spine, i, element);
      ItemsBehind(spine, i, element);
      SpineBehind(spine, i, element);
      spine := spine[..i + 1] + [element] + spine[i + 1..];
    }

    method Append(item: T)
      requires Valid() && item !in Items()
      modifies this, spine
      ensures Valid() && Items() == old(Items()) + [item]
      ensures forall e :: e in spine ==> e in old(spine) || fresh(e)
    {
      var element := new ListElement<T>(item);
      LinkBack(element);
    }

    /** Put an element behind the last, if there is one. */
    method LinkBack(element: ListElement<T>)
      requires Linkage() && element !in spine && element.next == null
      modifies this, spine
      ensures Linkage() && Items() == old(Items()) + [element.item]
      ensures forall e :: e in spine ==> e in old(spine) || e == element
    {
      ghost var was := spine;
      if numInList == 0 {
        first := element;
        last := element;
      } else {
        last.next := element;
        last := element;
      }
      numInList := numInList + 1;
      if was == [] {
        spine := [element];
      } else {
        RecordBehind(|was| - 1, element);
      }
      assert Items() == old(Items()) + [element.item];
    }

    method Prepend(item: T)
      requires Valid() && item !in Items()
      modifies this
      ensures Valid() && Items() == [item] + old(Items())
      ensures forall e :: e in spine ==> e in old(spine) || fresh(e)
    {
      var element := new ListElement<T>(item);
      LinkFront(element);
    }

    /** Put an element in front of the first, if there is one. */
    method LinkFront(element: ListElement<T>)
      requires Linkage() && element !in spine && element.next == null
      modifies this, element
      ensures Linkage() && spine == [element] + old(spine)
      ensures Items() == [element.item] + old(Items())
    {
      if numInList == 0 {
        first := element;
        last := element;
      } else {
        element.next := first;
        first := element;
      }
      LinkedFront(spine, element);
      spine := [element] + spine;
      numInList := numInList + 1;
    }

    method RemoveFront() returns (thing: T)
      requires Valid() && Items() != []
      modifies this
      ensures Valid() && thing == old(Items())[0] && Items() == old(Items())[1..]
      ensures spine == old(spine)[1..]
    {
      var element := first;
      thing := first.item;
      if first == last {
        assert |spine| == 1;
        first := null;
        last := null;
      } else {
        first := element.next;
      }
      numInList := numInList - 1;
      LinkedTail(spine);
      spine := spine[1..];
    }

    /** Remove an item; it is not on the list any more, as the last assertion says. */
    method Remove(item: T)
      requires Valid() && item in Items()
      modifies this, spine
      ensures Valid() && WithoutFirst(old(Items()), item, Items())
      ensures forall x :: x in Items() <==> x in old(Items()) && x != item
    {
      ghost var items := Items();
      if item == first.item {
        var removed := RemoveFront();
        FoundAt(items, item, 0, Items());
      } else {
        UnlinkInside(item);
      }
      RestIsDistinct(items, item, Items());
    }

    /** Look behind the first element for the item. */
    method FindBefore(item: T) returns (prev: ListElement<T>, ghost i: nat)
      requires Linkage() && item in Items() && item != Items()[0]
      ensures i + 1 < |spine| && prev == spine[i] && Items()[i + 1] == item && item !in Items()[..i + 1]
    {
      prev := first;
      var ptr := first.next;
      i := 0;
      while ptr != null && item != ptr.item
        invariant i < |spine| && prev == spine[i] && ptr == Next(spine, i)
        invariant item !in Items()[..i + 1]
        decreases |spine| - i
      {
        assert Items()[i + 1] == ptr.item;
        prev := ptr;
        ptr := ptr.next;
        i := i + 1;
      }
      assert Items()[..i + 1] == Items() || ptr != null;
    }

    /** Remove behind the first element. */
    method UnlinkInside(item: T)
      requires Linkage() && item in Items() && item != Items()[0]
      modifies this, spine
      ensures Linkage() && WithoutFirst(old(Items()), item, Items())
    {
      var prev, i := FindBefore(item);
      ghost var items := Items();
      assert spine[i + 1].next == Next(spine, i + 1) && prev.next == Next(spine, i) == spine[i + 1];
      prev.next := prev.next.next;
      assert forall k :: 0 <= k < |spine| && k != i ==> spine[k] != prev;
      if prev.next == null {
        last := prev;
      }
      numInList := numInList - 1;
      RecordWithout(i);
      FoundAt(items, item, i + 1, Items());
    }

    /** The element behind place i has been unlinked. */
    ghost method RecordWithout(i: nat)
      requires Distinct(spine) && i + 1 < |spine| && numInList == |spine| - 1
      requires first == spine[0] && last == if i + 2 < |spine| then spine[|spine| - 1] else spine[i]
      requires forall k :: 0 <= k < |spine| && k != i ==> spine[k].next == Next(spine, k)
      requires spine[i].next == Next(spine, i + 1)
      modifies this`spine
      ensures Linkage() && Items() == old(Items())[..i + 1] + old(Items())[i + 2..]
    {
      LinkedWithout(spine, i);
      ItemsWithout(spine, i);
      spine := spine[..i + 1] + spine[i + 2..];
    }

    /** SortedList::Insert */
    method Insert(compare: Compare<T>, item: T)
      requires Valid() && item !in Items()
      modifies this, spine
      ensures Valid() && Items() == Inserted(compare, old(Items()), item)
      ensures forall e :: e in spine ==> e in old(spine) || fresh(e)
    {
      InsertedIsDistinct(compare, Items(), item);
      var element := new ListElement<T>(item);
      LinkInOrder(compare, element);
    }

    method LinkInOrder(compare: Compare<T>, element: ListElement<T>)
      requires Linkage() && element !in spine && element.next == null
      modifies this, spine, element
      ensures Linkage() && Items() == Inserted(compare, old(Items()), element.item)
      ensures forall e :: e in spine ==> e in old(spine) || e == element
    {
      ghost var items := Items();
      if numInList == 0 {
        LinkFront(element);
        assert items[..0] + [element.item] + items[0..] == [element.item] + items;
      } else if compare(element.item, first.item) < 0 {
        LinkFront(element);
        assert items[..0] + [element.item] + items[0..] == [element.item] + items;
      } else {
        LinkInside(compare, element);
      }
    }

    /** Look behind the first element for the first one that is bigger than the item. */
    method FindPlace(compare: Compare<T>, item: T) returns (ptr: ListElement<T>, ghost i: nat)
      requires Linkage() && spine != [] && compare(item, spine[0].item) >= 0
      ensures i < |spine| && ptr == spine[i] && PlaceFrom(compare, Items(), item, 0) == i + 1
    {
      ptr := first;
      i := 0;
      while ptr.next != null && compare(item, ptr.next.item) >= 0
        invariant i < |spine| && ptr == spine[i]
        invariant PlaceFrom(compare, Items(), item, 0) == PlaceFrom(compare, Items(), item, i + 1)
        decreases |spine| - i
      {
        ptr := ptr.next;
        i := i + 1;
      }
    }

    /** Insert behind the first element. */
    method LinkInside(compare: Compare<T>, element: ListElement<T>)
      requires Linkage() && spine != [] && element !in spine && element.next == null
      requires compare(element.item, spine[0].item) >= 0
      modifies this, spine, element
      ensures Linkage() && Items() == Inserted(compare, old(Items()), element.item)
      ensures forall e :: e in spine ==> e in old(spine) || e == element
    {
      var ptr, i := FindPlace(compare, element.item);
      LinkBehind(ptr, i, element);
    }

    method LinkBehind(ptr: ListElement<T>, ghost i: nat, element: ListElement<T>)
      requires Linkage() && i < |spine| && ptr == spine[i] && element !in spine && element.next == null
      modifies this, spine, element
      ensures Linkage() && Items() == old(Items())[..i + 1] + [element.item] + old(Items())[i + 1..]
      ensures forall e :: e in spine ==> e in old(spine) || e == element
    {
      assert forall k :: 0 <= k < |spine| && k != i ==> spine[k] != ptr;
      if ptr.next != null {
        element.next := ptr.next;
        ptr.next := element;
      } else {
        assert ptr == last;
        last.next := element;
        last := element;
      }
      numInList := numInList + 1;
      RecordBehind(i, element);
    }
  }
}
