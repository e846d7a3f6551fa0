/** The doubly linked lists of queue.h, whose back pointers point at the slot that points at the element:
    the head, or the `le_next` field of the element before. */
module ListQueue {

  /** The address of a slot: that of the head or of an element's `le_next`. */
  datatype Slot = HeadSlot | NextSlot(elm: Element)

  class Element {
    var leNext: Element?
    var lePrev: Slot

    constructor ()
      ensures leNext == null
    {
      leNext, lePrev := null, HeadSlot;
    }
  }

  ghost predicate Distinct(s: seq<Element>) {
    forall i, j :: 0 <= i < j < |s| ==> s[i] != s[j]
  }

  /** s with e at position k. */
  ghost function Inserted(s: seq<Element>, k: nat, e: Element): (r: seq<Element>)
    requires k <= |s|
    ensures |r| == |s| + 1 && r[k] == e
  {
    s[..k] + [e] + s[k..]
  }

  /** s without position k. */
  ghost function Removed(s: seq<Element>, k: nat): (r: seq<Element>)
    requires k < |s|
    ensures |r| == |s| - 1
  {
    s[..k] + s[k + 1..]
  }

  /** The elements around position j after an insertion, and after a removal. */
  lemma Around(s: seq<Element>, k: nat, e: Element, j: nat)
    requires k <= |s| && j <= |s|
    ensures Inserted(s, k, e)[j] == if j < k then s[j] else if j == k then e else s[j - 1]
    ensures j > 0 ==> Inserted(s, k, e)[j - 1] == if j - 1 < k then s[j - 1] else if j - 1 == k then e else s[j - 2]
    ensures j < |s| ==> Inserted(s, k, e)[j + 1] == if j + 1 < k then s[j + 1] else if j + 1 == k then e else s[j]
  {
  }

  lemma AroundRemoved(s: seq<Element>, k: nat, j: nat)
    requires k < |s| && j < |s| - 1
    ensures Removed(s, k)[j] == if j < k then s[j] else s[j + 1]
    ensures j > 0 ==> Removed(s, k)[j - 1] == if j - 1 < k then s[j - 1] else s[j]
    ensures j + 2 < |s| ==> Removed(s, k)[j + 1] == if j + 1 < k then s[j + 1] else s[j + 2]
  {
  }

  lemma StillDistinct(s: seq<Element>, k: nat, e: Element)
    requires Distinct(s)
    ensures k <= |s| && e !in s ==> Distinct(Inserted(s, k, e))
    ensures k < |s| ==> Distinct(Removed(s, k)) && s[k] !in Removed(s, k)
  {
  }

  lemma DistinctFrom(s: seq<Element>, i: nat)
    requires Distinct(s) && i < |s|
    ensures forall j :: 0 <= j < |s| && j != i ==> s[j] != s[i]
  {
  }

  /** Removing what was just inserted gives the list back, and so does putting back what was removed. */
  lemma InsertRemove(s: seq<Element>, k: nat, e: Element)
    ensures k <= |s| ==> Removed(Inserted(s, k, e), k) == s
    ensures k < |s| ==> Inserted(Removed(s, k), k, s[k]) == s
  {
  }

  class List {
    var lhFirst: Element?
    ghost var elms: seq<Element>

    ghost function At(i: nat): Element?
      reads this
    {
      if i < |elms| then elms[i] else null
    }

    ghost function SlotOf(i: nat): Slot
      requires i <= |elms|
      reads this
    {
      if i == 0 then HeadSlot else NextSlot(elms[i - 1])
    }

    /** The slot of element i holds the next one, and its back pointer is the address of its own slot. */
    ghost predicate Linked(i: nat)
      requires i < |elms|
      reads this, elms
    {
      elms[i].leNext == At(i + 1) && elms[i].lePrev == SlotOf(i)
    }

    /** The elements are distinct, so that there is no cycle, and all linked. */
    ghost predicate Valid()
      reads this, elms
    {
      && Distinct(elms)
      && lhFirst == At(0)
      && forall i :: 0 <= i < |elms| ==> Linked(i)
    }

    /** LIST_INIT. */
    constructor ()
      ensures Valid() && elms == []
    {
      lhFirst, elms := null, [];
    }

    /** LIST_INSERT_AFTER. */
    method InsertAfter(listelm: Element, elm: Element, ghost i: nat)
      requires Valid() && i < |elms| && elms[i] == listelm && elm !in elms
      modifies this, elms, elm
      ensures Valid() && elms == Inserted(old(elms), i + 1, elm)
    {
      hide Distinct, Inserted;
      ghost var was := elms;
      assert Linked(i);
      if i + 1 < |elms| {
        assert Linked(i + 1);
      }
      elm.leNext := listelm.leNext;
      if elm.leNext != null {
        listelm.leNext.lePrev := NextSlot(elm);
      }
      listelm.leNext := elm;
      elm.lePrev := NextSlot(listelm);
      elms := Inserted(elms, i + 1, elm);
      StillDistinct(was, i + 1, elm);
      forall j | 0 <= j < |elms|
        ensures Linked(j)
      {
        Around(was, i + 1, elm, j);
        if j < i {
          assert old(Linked(j));
        } else if j > i + 2 {
          assert old(Linked(j - 1));
        }
      }
      Around(was, i + 1, elm, 0);
    }

    /** `*slot = elm`. */
    method Store(slot: Slot, elm: Element?)
      modifies if slot.HeadSlot? then {this} else {slot.elm}
      ensures elms == old(elms)
      ensures slot.HeadSlot? ==> lhFirst == elm
      ensures slot.NextSlot? ==>
        slot.elm.leNext == elm && slot.elm.lePrev == old(slot.elm.lePrev) && lhFirst == old(lhFirst)
    {
      match slot
      case HeadSlot => lhFirst := elm;
      case NextSlot(e) => e.leNext := elm;
    }

    /** LIST_INSERT_BEFORE. */
    method InsertBefore(listelm: Element, elm: Element, ghost i: nat)
      requires Valid() && i < |elms| && elms[i] == listelm && elm !in elms
      modifies this, elms, elm
      ensures Valid() && elms == Inserted(old(elms), i, elm)
    {
      hide Distinct, Inserted;
      ghost var was := elms;
      assert Linked(i);
      if i > 0 {
        assert Linked(i - 1);
      }
      elm.lePrev := listelm.lePrev;
      elm.leNext := listelm;
      Store(listelm.lePrev, elm);
      listelm.lePrev := NextSlot(elm);
      elms := Inserted(elms, i, elm);
      StillDistinct(was, i, elm);
      DistinctFrom(was, i);
      forall j | 0 <= j < |elms|
        ensures Linked(j)
      {
        Around(was, i, elm, j);
        if j + 1 < i {
          assert old(Linked(j));
        } else if j > i {
          assert old(Linked(j - 1));
        }
      }
      Around(was, i, elm, 0);
    }

    /** LIST_INSERT_HEAD. */
    method InsertHead(elm: Element)
      requires Valid() && elm !in elms
      modifies this, elms, elm
      ensures Valid() && elms == Inserted(old(elms), 0, elm)
    {
      hide Distinct, Inserted;
      ghost var was := elms;
      if |elms| > 0 {
        assert Linked(0);
        DistinctFrom(was, 0);
      }
      elm.leNext := lhFirst;
      if elm.leNext != null {
        lhFirst.lePrev := NextSlot(elm);
      }
      lhFirst := elm;
      elm.lePrev := HeadSlot;
      elms := Inserted(elms, 0, elm);
      StillDistinct(was, 0, elm);
      forall j | 0 <= j < |elms|
        ensures Linked(j)
      {
        Around(was, 0, elm, j);
        if j > 0 {
          assert old(Linked(j - 1));
        }
      }
    }

    /** LIST_REMOVE. */
    method Remove(elm: Element, ghost i: nat)
      requires Valid() && i < |elms| && elms[i] == elm
      modifies this, elms
      ensures Valid() && elms == Removed(old(elms), i)
      ensures elm.leNext == old(elm.leNext) && elm.lePrev == old(elm.lePrev)
    {
      hide Distinct, Removed;
      ghost var was := elms;
      assert Linked(i);
      DistinctFrom(was, i);
      if i > 0 {
        assert Linked(i - 1);
        DistinctFrom(was, i - 1);
      }
      if i + 1 < |elms| {
        assert Linked(i + 1);
        DistinctFrom(was, i + 1);
      }
      if elm.leNext != null {
        elm.leNext.lePrev := elm.lePrev;
      }
      Store(elm.lePrev, elm.leNext);
      elms := Removed(elms, i);
      StillDistinct(was, i, elm);
      forall j | 0 <= j < |elms|
        ensures Linked(j)
      {
        AroundRemoved(was, i, j);
        if j < i {
          assert old(Linked(j));
        } else {
          assert old(Linked(j + 1));
        }
      }
      if |elms| > 0 {
        AroundRemoved(was, i, 0);
      }
    }
  }
}
