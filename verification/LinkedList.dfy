/** The HAL's circular doubly linked list (alt_llist), as next and previous pointers, against the sequence it holds. */
module LinkedList {
  /** Addresses of list entries; the list head is an entry of its own. */
  type Entry = nat
  const HEAD: Entry := 0

  datatype Links = Links(next: map<Entry, Entry>, prev: map<Entry, Entry>)

  /** alt_llist_insert: the entry becomes the first of the list. */
  function Insert(l: Links, e: Entry): Links
    requires HEAD in l.next
  {
    var first := l.next[HEAD];
    Links(l.next[e := first][HEAD := e], l.prev[e := HEAD][first := e])
  }

  /** alt_llist_remove: the neighbours are joined and the entry is left pointing to itself. */
  function Remove(l: Links, e: Entry): Links
    requires e in l.next && e in l.prev
  {
    var after, before := l.next[e], l.prev[e];
    Links(l.next[before := after][e := e], l.prev[after := before][e := e])
  }

  ghost predicate Distinct(order: seq<Entry>) {
    && HEAD !in order
    && forall i, j :: 0 <= i < j < |order| ==> order[i] != order[j]
  }

  /** The closed walk from the head through the entries back to the head. */
  function Path(order: seq<Entry>): seq<Entry> { [HEAD] + order + [HEAD] }

  ghost predicate Linked(l: Links, e: Entry, f: Entry) {
    e in l.next && f in l.prev && l.next[e] == f && l.prev[f] == e
  }

  /** The pointers hold exactly the entries of order, in that order. */
  ghost predicate Represents(l: Links, order: seq<Entry>) {
    && Distinct(order)
    && forall i :: 0 <= i <= |order| ==> Linked(l, Path(order)[i], Path(order)[i + 1])
  }

  ghost predicate Detached(l: Links, e: Entry) {
    e in l.next && e in l.prev && l.next[e] == e && l.prev[e] == e
  }

  lemma InsertAtFront(l: Links, order: seq<Entry>, e: Entry)
    requires Represents(l, order) && e != HEAD && e !in order
    ensures HEAD in l.next && Represents(Insert(l, e), [e] + order)
  {
    var p, p' := Path(order), Path([e] + order);
    assert Linked(l, p[0], p[1]);
    assert forall i :: 1 <= i <= |order| + 1 ==> p'[i + 1] == p[i];
    forall i | 0 <= i <= |order| + 1 ensures Linked(Insert(l, e), p'[i], p'[i + 1]) {
      if i >= 2 { assert Linked(l, p[i - 1], p[i]); }
    }
  }

  lemma RemoveCloses(l: Links, order: seq<Entry>, k: nat)
    requires Represents(l, order) && k < |order|
    ensures var e := order[k];
            e in l.next && e in l.prev && Represents(Remove(l, e), order[..k] + order[k + 1..])
            && Detached(Remove(l, e), e)
  {
    var e, rest := order[k], order[..k] + order[k + 1..];
    var p, p' := Path(order), Path(rest);
    assert p[k + 1] == e;
    assert Linked(l, p[k], p[k + 1]) && Linked(l, p[k + 1], p[k + 2]);
    forall i | 0 <= i <= |rest| ensures Linked(Remove(l, e), p'[i], p'[i + 1]) {
      if i < k {
        assert Linked(l, p[i], p[i + 1]);
      } else if i > k {
        assert Linked(l, p[i + 1], p[i + 2]);
      }
    }
  }

  lemma MemberNotDetached(l: Links, order: seq<Entry>, k: nat)
    requires Represents(l, order) && k < |order|
    ensures !Detached(l, order[k])
  {
    assert Path(order)[k + 1] == order[k];
    assert Linked(l, Path(order)[k + 1], Path(order)[k + 2]);
  }

  /** Removing an entry that was already removed is harmless. */
  lemma RemoveAgain(l: Links, order: seq<Entry>, e: Entry)
    requires Represents(l, order) && Detached(l, e)
    ensures e !in order && Remove(l, e) == l
  {
    forall k | 0 <= k < |order| ensures order[k] != e {
      MemberNotDetached(l, order, k);
    }
  }
}
