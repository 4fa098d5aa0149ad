/** The circular doubly linked list whose links live inside the listed objects. */
module IntrusiveList {

  /** A list head.  The header of a free page begins with one, so a list head
      linked into a free list is the page header at the same address. */
  class ListHead {
    var next: ListHead?
    var prev: ListHead?
    var order: nat
    const addr: nat

    constructor (addr: nat)
      ensures this.addr == addr
    {
      this.addr := addr;
      next, prev, order := null, null, 0;
    }
  }

  /** The `i`-th element counted from the head of the circle `head`, `s`, back to `head`. */
  ghost function At(head: ListHead, s: seq<ListHead>, i: nat): ListHead
    requires i <= |s| + 1
  {
    if 0 < i <= |s| then s[i - 1] else head
  }

  /** `head` starts a well-formed circle through exactly the elements of `s`, in order. */
  ghost predicate Circular(head: ListHead, s: seq<ListHead>)
    reads head, s
  {
    && head !in s
    && (forall i, j | 0 <= i < j < |s| :: s[i] != s[j])
    && (forall i: nat | i <= |s| :: At(head, s, i).next == At(head, s, i + 1))
    && (forall i: nat | i <= |s| :: At(head, s, i + 1).prev == At(head, s, i))
  }

  method ListInit(head: ListHead)
    modifies head`next, head`prev
    ensures Circular(head, [])
  {
    head.next := head;
    head.prev := head;
  }

  method ListAdd(entry: ListHead, head: ListHead, ghost s: seq<ListHead>)
    requires Circular(head, s) && entry != head && entry !in s
    modifies entry`next, entry`prev, head`next, At(head, s, 1)`prev
    ensures Circular(head, [entry] + s)
  {
    assert At(head, s, 0).next == At(head, s, 1);
    ghost var t := [entry] + s;
    entry.next := head.next;
    entry.prev := head;
    head.next.prev := entry;
    head.next := entry;
    forall i: nat | i <= |t|
      ensures At(head, t, i).next == At(head, t, i + 1)
      ensures At(head, t, i + 1).prev == At(head, t, i)
    {
      if i >= 2 {
        assert At(head, t, i) == At(head, s, i - 1) && At(head, t, i + 1) == At(head, s, i);
        assert old(At(head, s, i - 1).next == At(head, s, i));
        assert old(At(head, s, i).prev == At(head, s, i - 1));
      }
    }
  }

  method ListDel(entry: ListHead, ghost head: ListHead, ghost s: seq<ListHead>, ghost k: nat)
    requires Circular(head, s) && k < |s| && s[k] == entry
    modifies entry`next, entry`prev, At(head, s, k)`next, At(head, s, k + 2)`prev
    ensures Circular(head, s[..k] + s[k + 1..])
    ensures entry.next == null && entry.prev == null
  {
    assert At(head, s, k + 1) == entry;
    assert At(head, s, k).next == entry && entry.prev == At(head, s, k);
    assert entry.next == At(head, s, k + 2) && At(head, s, k + 2).prev == entry;
    ghost var t := s[..k] + s[k + 1..];
    entry.next.prev := entry.prev;
    entry.prev.next := entry.next;
    entry.next, entry.prev := null, null;
    forall i: nat | i <= |t|
      ensures At(head, t, i).next == At(head, t, i + 1)
      ensures At(head, t, i + 1).prev == At(head, t, i)
    {
      if i < k {
        assert At(head, t, i) == At(head, s, i) && At(head, t, i + 1) == At(head, s, i + 1);
        assert old(At(head, s, i).next == At(head, s, i + 1));
        assert old(At(head, s, i + 1).prev == At(head, s, i));
      } else if i > k {
        assert At(head, t, i) == At(head, s, i + 1) && At(head, t, i + 1) == At(head, s, i + 2);
        assert old(At(head, s, i + 1).next == At(head, s, i + 2));
        assert old(At(head, s, i + 2).prev == At(head, s, i + 1));
      } else {
        assert At(head, t, i) == At(head, s, k) && At(head, t, i + 1) == At(head, s, k + 2);
      }
    }
  }

  method ListEmpty(head: ListHead, ghost s: seq<ListHead>) returns (empty: bool)
    requires Circular(head, s)
    ensures empty <==> s == []
  {
    assert At(head, s, 0).next == At(head, s, 1);
    empty := head.next == head;
  }
}
