/** The items of a uthash table, and the two lists that thread them. */
module HashItems {
  import opened Sequences

  /** A user structure together with its hash handle. */
  class Elem<D(!new)> {
    const data: D
    var hashv: nat
    var next: Elem?<D>
    var prev: Elem?<D>
    var hhNext: Elem?<D>
    var hhPrev: Elem?<D>

    constructor (d: D)
      ensures data == d
    {
      data, hashv, next, prev, hhNext, hhPrev := d, 0, null, null, null, null;
    }
  }

  function At<D(!new)>(s: seq<Elem<D>>, i: int): Elem?<D> {
    if 0 <= i < |s| then s[i] else null
  }

  ghost function Nodes<D(!new)>(s: seq<Elem<D>>): set<Elem<D>> {
    set x | x in s
  }

  /** The next links run through s, and the last one ends. */
  ghost predicate Forward<D(!new)>(s: seq<Elem<D>>)
    reads s`next
  {
    forall i {:trigger s[i].next} :: 0 <= i < |s| ==> s[i].next == At(s, i + 1)
  }

  /** The next links run through s, and the last one may lead anywhere. */
  ghost predicate Open<D(!new)>(s: seq<Elem<D>>)
    reads s`next
  {
    forall i {:trigger s[i].next} :: 0 <= i < |s| - 1 ==> s[i].next == s[i+1]
  }

  ghost predicate Backward<D(!new)>(s: seq<Elem<D>>)
    reads s`prev
  {
    forall i {:trigger s[i].prev} :: 0 <= i < |s| ==> s[i].prev == At(s, i - 1)
  }

  /** HASH_APPEND_LIST. */
  method AppendList<D(!new)>(tail: Elem<D>, e: Elem<D>, ghost s: seq<Elem<D>>)
    requires |s| > 0 && NoDup(s) && e !in s && Forward(s) && Backward(s) && tail == s[|s|-1]
    modifies tail`next, e`next, e`prev
    ensures Forward(s + [e]) && Backward(s + [e])
  {
    e.next := null;
    e.prev := tail;
    tail.next := e;
  }

  /** The links of s, bridging over position j. */
  ghost predicate ListBridged<D(!new)>(s: seq<Elem<D>>, j: nat)
    reads s`next, s`prev
  {
    && (forall i {:trigger s[i].next} :: 0 <= i < |s| && i != j ==>
      s[i].next == At(s, if i + 1 == j then i + 2 else i + 1))
    && (forall i {:trigger s[i].prev} :: 0 <= i < |s| && i != j ==>
      s[i].prev == At(s, if i - 1 == j then i - 2 else i - 1))
  }

  lemma CutAt<D(!new)>(s: seq<Elem<D>>, j: nat, i: int)
    requires j < |s| && i <= |s| - 1
    ensures At(s[..j] + s[j+1..], i) == At(s, if i < j then i else i + 1)
  {
  }

  lemma ListBridgedLinked<D(!new)>(s: seq<Elem<D>>, j: nat)
    requires j < |s| && ListBridged(s, j)
    ensures Forward(s[..j] + s[j+1..]) && Backward(s[..j] + s[j+1..])
  {
    var d := s[..j] + s[j+1..];
    forall i | 0 <= i < |d| ensures d[i].next == At(d, i + 1) && d[i].prev == At(d, i - 1) {
      var k := if i < j then i else i + 1;
      CutAt(s, j, i);
      CutAt(s, j, i + 1);
      CutAt(s, j, i - 1);
      assert s[k].next == At(s, if k + 1 == j then k + 2 else k + 1);
      assert s[k].prev == At(s, if k - 1 == j then k - 2 else k - 1);
    }
  }

  /** The part of HASH_DELETE_HH that patches the list around e, which is not its only item. */
  method PatchList<D(!new)>(e: Elem<D>, head0: Elem<D>, tail0: Elem<D>, ghost s: seq<Elem<D>>)
    returns (head: Elem?<D>, tail: Elem?<D>)
    requires NoDup(s) && Forward(s) && Backward(s) && e in s && |s| > 1 && head0 == s[0] && tail0 == s[|s|-1]
    modifies Nodes(s)`next, Nodes(s)`prev
    ensures var t := Dropped(s, e); Forward(t) && Backward(t) && |t| > 0 && head == t[0] && tail == t[|t|-1]
  {
    hide Dropped;
    ghost var j :| 0 <= j < |s| && s[j] == e;
    head, tail := head0, tail0;
    if e == tail {
      tail := e.prev;
    }
    if e.prev != null {
      e.prev.next := e.next;
    } else {
      head := e.next;
    }
    if e.next != null {
      e.next.prev := e.prev;
    }
    hide Forward, Backward;
    ListBridgedLinked(s, j);
    hide ListBridged;
    DroppedAt(s, j);
  }
}
