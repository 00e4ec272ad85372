/**
 * A doubly linked list with two permanent sentinel nodes, `header` and
 * `trailer`, and the deque that delegates each of its operations to one
 * list call (src/DListDeque.java).
 *
 * The list's public view is the ghost sequence `Chain` of all its nodes,
 * sentinels included, and the ghost sequence `Contents` of the values in the
 * data nodes, front to back.
 */
module LinkedDeque {
  import opened Options

  /** No element occurs twice in `s`. */
  ghost predicate Distinct<X>(s: seq<X>) {
    forall i, j :: 0 <= i < j < |s| ==> s[i] != s[j]
  }

  /** Each node's `next` is its successor in `c` and each successor's `prev` is that node. */
  ghost predicate Linked<T>(c: seq<DNode<T>>)
    reads c
  {
    forall i :: 0 <= i < |c| - 1 ==> c[i].next == c[i + 1] && c[i + 1].prev == c[i]
  }

  /** The nodes strictly between the two ends of `c` hold `vals`, in order. */
  ghost predicate Holds<T>(c: seq<DNode<T>>, vals: seq<T>) {
    && |vals| == |c| - 2
    && forall i :: 0 <= i < |vals| ==> c[i + 1].data == Some(vals[i])
  }

  /** Inserting a new element `x` at position `p` of a duplicate-free sequence. */
  lemma InsertedChain<X>(c: seq<X>, p: nat, x: X)
    requires p <= |c| && x !in c
    requires Distinct(c)
    ensures var c' := c[..p] + [x] + c[p..];
      && |c'| == |c| + 1 && c'[p] == x && Distinct(c')
      && (forall i :: 0 <= i < p ==> c'[i] == c[i])
      && (forall i :: p < i < |c'| ==> c'[i] == c[i - 1])
  {

  }

  /** Dropping position `p` of a duplicate-free sequence. */
  lemma RemovedChain<X>(c: seq<X>, p: nat)
    requires p < |c|
    requires Distinct(c)
    ensures var c' := c[..p] + c[p + 1..];
      && |c'| == |c| - 1 && Distinct(c') && c[p] !in c'
      && (forall i :: 0 <= i < p ==> c'[i] == c[i])
      && (forall i :: p <= i < |c'| ==> c'[i] == c[i + 1])
  {

  }

  /** A node holding `d` inserted at position `p` adds `d` at position `p - 1` of the values. */
  lemma HoldsAfterInsert<T>(c: seq<DNode<T>>, vals: seq<T>, p: nat, x: DNode<T>, d: T)
    requires Holds(c, vals) && 1 <= p < |c| && x.data == Some(d)
    ensures Holds(c[..p] + [x] + c[p..], vals[..p - 1] + [d] + vals[p - 1..])
  {

  }

  /** Dropping the node at position `p` drops the value at position `p - 1`. */
  lemma HoldsAfterRemove<T>(c: seq<DNode<T>>, vals: seq<T>, p: nat)
    requires Holds(c, vals) && 1 <= p < |c| - 1
    ensures Holds(c[..p] + c[p + 1..], vals[..p - 1] + vals[p..])
  {

  }

  /** A list node. Its payload never changes once built: `setData` is not modelled. */
  class DNode<T> {
    var prev: DNode?<T>
    var next: DNode?<T>
    const data: Option<T>

    constructor (d: Option<T>, p: DNode?<T>, n: DNode?<T>)
      ensures data == d && prev == p && next == n
    {
      data := d;
      prev := p;
      next := n;
    }

    method SetNext(n: DNode?<T>)
      modifies this
      ensures next == n && prev == old(prev)
    {
      next := n;
    }

    method SetPrev(p: DNode?<T>)
      modifies this
      ensures prev == p && next == old(next)
    {
      prev := p;
    }
  }

  class DList<T> {
    const header: DNode<T>
    const trailer: DNode<T>
    var size: int

    /** Every node of the list in `next` order: header, the data nodes, trailer. */
    ghost var Chain: seq<DNode<T>>
    /** The values held by the data nodes, front to back. */
    ghost var Contents: seq<T>

    /**
     * The list invariant: `next` links from `header` and `prev` links from
     * `trailer` walk the same chain in opposite directions, no node occurs
     * twice, the sentinels hold no value and `size` counts the data nodes.
     */
    ghost predicate Valid()
      reads this, Chain
    {
      && 2 <= |Chain|
      && Chain[0] == header
      && Chain[|Chain| - 1] == trailer
      && Distinct(Chain)
      && Linked(Chain)
      && header.prev == null
      && trailer.next == null
      && header.data == None
      && trailer.data == None
      && Holds(Chain, Contents)
      && size == |Contents|
    }

    constructor ()
      ensures Valid() && fresh(Chain)
      ensures Contents == [] && size == 0
      ensures header.next == trailer && trailer.prev == header
    {
      size := 0;
      var h := new DNode<T>(None, null, null);
      var t := new DNode<T>(None, h, null);
      header, trailer := h, t;
      Chain := [h, t];
      Contents := [];
      new;
      h.SetNext(t);
    }

    function Size(): (n: int)
      reads this, Chain
      requires Valid()
      ensures n == |Contents| && n == |Chain| - 2
    {
      size
    }

    function IsEmpty(): (b: bool)
      reads this, Chain
      requires Valid()
      ensures b <==> Contents == []
    {
      size == 0
    }

    /** The first data node, or null when the list is empty. */
    function GetFirst(): (r: DNode?<T>)
      reads this, Chain
      requires Valid()
      ensures r == null <==> Contents == []
      ensures r != null ==> r == Chain[1] && r.data == Some(Contents[0])
    {
      assert Chain[0].next == Chain[1];
      if IsEmpty() then null else header.next
    }

    /** The last data node, or null when the list is empty. */
    function GetLast(): (r: DNode?<T>)
      reads this, Chain
      requires Valid()
      ensures r == null <==> Contents == []
      ensures r != null ==> r == Chain[|Chain| - 2] && r.data == Some(Contents[|Contents| - 1])
    {
      assert Chain[|Chain| - 2].next == Chain[|Chain| - 1];
      if IsEmpty() then null else trailer.prev
    }

    /** The data node after `v`; null when that is the trailer or there is none. */
    function GetNext(v: DNode<T>): (r: DNode?<T>)
      reads this, Chain, v
      ensures r == null || (r == v.next && r != trailer)
      ensures Valid() ==> forall k :: 0 <= k < |Chain| && Chain[k] == v ==>
        (if k + 2 < |Chain| then r == Chain[k + 1] else r == null)
    {
      var next := v.next;
      if next == null || next == trailer then null else next
    }

    /** The data node before `v`; null when that is the header or there is none. */
    function GetPrev(v: DNode<T>): (r: DNode?<T>)
      reads this, Chain, v
      ensures r == null || (r == v.prev && r != header)
      ensures Valid() ==> forall k :: 0 <= k < |Chain| && Chain[k] == v ==>
        (if 2 <= k then r == Chain[k - 1] else r == null)
    {
      var prev := v.prev;
      if prev == null || prev == header then null else prev
    }

    /**
     * Puts a fresh node holding `d` between `v` and its successor. The ghost
     * `k` names `v`'s position; the trailer has no successor to link to.
     */
    method InsertAfter(d: T, v: DNode<T>, ghost k: nat)
      requires Valid()
      requires k < |Chain| - 1 && Chain[k] == v
      modifies this, Chain
      ensures Valid()
      ensures |Chain| == old(|Chain|) + 1
      ensures Chain == old(Chain[..k + 1]) + [Chain[k + 1]] + old(Chain[k + 1..])
      ensures fresh(Chain[k + 1])
      ensures Contents == old(Contents[..k]) + [d] + old(Contents[k..])
      ensures forall n :: n in old(Chain) && n != v && n != old(v.next) ==> n.next == old(n.next) && n.prev == old(n.prev)
    {
      ghost var c, vals := Chain, Contents;
      assert c[k].next == c[k + 1];
      var w := v.next;
      var x := new DNode<T>(Some(d), v, w);
      v.SetNext(x);
      w.SetPrev(x);
      size := size + 1;
      InsertedChain(c, k + 1, x);
      HoldsAfterInsert(c, vals, k + 1, x, d);
      Chain := c[..k + 1] + [x] + c[k + 1..];
      Contents := vals[..k] + [d] + vals[k..];
      forall i | 0 <= i < |Chain| - 1
        ensures Chain[i].next == Chain[i + 1] && Chain[i + 1].prev == Chain[i]
      {
        if i < k {
          assert c[i].next == c[i + 1];
        } else if k + 1 < i {
          assert c[i - 1].next == c[i];
        }
      }
    }

    /**
     * Puts a fresh node holding `d` between `v`'s predecessor and `v`. The
     * ghost `k` names `v`'s position; the header has no predecessor.
     */
    method InsertBefore(d: T, v: DNode<T>, ghost k: nat)
      requires Valid()
      requires 1 <= k < |Chain| && Chain[k] == v
      modifies this, Chain
      ensures Valid()
      ensures |Chain| == old(|Chain|) + 1
      ensures Chain == old(Chain[..k]) + [Chain[k]] + old(Chain[k..])
      ensures fresh(Chain[k])
      ensures Contents == old(Contents[..k - 1]) + [d] + old(Contents[k - 1..])
      ensures forall n :: n in old(Chain) && n != v && n != old(v.prev) ==> n.next == old(n.next) && n.prev == old(n.prev)
    {
      ghost var c, vals := Chain, Contents;
      assert c[k - 1].next == c[k];
      var u := v.prev;
      var x := new DNode<T>(Some(d), u, v);
      u.SetNext(x);
      v.SetPrev(x);
      size := size + 1;
      InsertedChain(c, k, x);
      HoldsAfterInsert(c, vals, k, x, d);
      Chain := c[..k] + [x] + c[k..];
      Contents := vals[..k - 1] + [d] + vals[k - 1..];
      forall i | 0 <= i < |Chain| - 1
        ensures Chain[i].next == Chain[i + 1] && Chain[i + 1].prev == Chain[i]
      {
        if i < k - 1 {
          assert c[i].next == c[i + 1];
        } else if k < i {
          assert c[i - 1].next == c[i];
        }
      }
    }

    method AddFirst(d: T)
      requires Valid()
      modifies this, Chain
      ensures Valid() && |Chain| == old(|Chain|) + 1
      ensures Chain == [header, Chain[1]] + old(Chain[1..]) && fresh(Chain[1])
      ensures Contents == [d] + old(Contents)
    {
      InsertAfter(d, header, 0);
    }

    method AddLast(d: T)
      requires Valid()
      modifies this, Chain
      ensures Valid() && |Chain| == old(|Chain|) + 1
      ensures Chain == old(Chain[..|Chain| - 1]) + [Chain[|Chain| - 2], trailer] && fresh(Chain[|Chain| - 2])
      ensures Contents == old(Contents) + [d]
    {
      InsertBefore(d, trailer, |Chain| - 1);
    }

    /**
     * Splices `v`, at position `k`, out and returns its value; refuses the
     * sentinels. The removed node keeps its own `prev` and `next` links.
     */
    method Remove(v: DNode<T>, ghost k: nat) returns (r: Option<T>)
      requires Valid()
      requires k < |Chain| && Chain[k] == v
      modifies this, Chain
      ensures Valid()
      ensures v == header || v == trailer ==>
        && r == None
        && Chain == old(Chain) && Contents == old(Contents)
      ensures v != header && v != trailer ==>
        && 1 <= k <= old(|Contents|)
        && r == Some(old(Contents[k - 1]))
        && Chain == old(Chain[..k] + Chain[k + 1..])
        && Contents == old(Contents[..k - 1] + Contents[k..])
        && v.prev == old(Chain[k - 1]) && v.next == old(Chain[k + 1])
      ensures forall n :: n in old(Chain) && n != old(v.prev) && n != old(v.next) ==> n.next == old(n.next) && n.prev == old(n.prev)
    {
      if v == header || v == trailer {
        return None;
      }
      ghost var c, vals := Chain, Contents;
      assert 1 <= k < |c| - 1 && c[k - 1].next == c[k] && c[k].next == c[k + 1];
      var u := v.prev;
      var w := v.next;
      u.SetNext(w);
      w.SetPrev(u);
      size := size - 1;
      RemovedChain(c, k);
      HoldsAfterRemove(c, vals, k);
      Chain := c[..k] + c[k + 1..];
      Contents := vals[..k - 1] + vals[k..];
      forall i | 0 <= i < |Chain| - 1
        ensures Chain[i].next == Chain[i + 1] && Chain[i + 1].prev == Chain[i]
      {
        if i < k - 1 {
          assert c[i].next == c[i + 1];
        } else if k - 1 < i {
          assert c[i + 1].next == c[i + 2];
        }
      }
      r := v.data;
    }

    /**
     * The walk of `toString`: from the header along `next` until the trailer,
     * emitting each data node's value. The text around the values is not
     * modelled; the result is the values in the order they are printed.
     */
    method ToString() returns (shown: seq<T>)
      requires Valid()
      ensures shown == Contents
    {
      shown := [];
      var h := header;
      ghost var i := 0;
      while true
        invariant 0 <= i < |Chain| - 1 && h == Chain[i]
        invariant shown == Contents[..i]
        decreases |Chain| - i
      {
        assert Chain[i].next == Chain[i + 1];
        h := h.next;
        i := i + 1;
        if h == trailer {
          break;
        }
        assert h.data == Some(Contents[i - 1]);
        shown := shown + [h.data.value];
      }
    }
  }

  /** The deque adapter: every operation is one call on the underlying list. */
  class DListDeque<T> {
    const dlist: DList<T>

    ghost predicate Valid()
      reads this, dlist, dlist.Chain
    {
      dlist.Valid()
    }

    /** The deque's elements, front to back. */
    ghost function Contents(): seq<T>
      reads this, dlist
    {
      dlist.Contents
    }

    constructor ()
      ensures Valid() && fresh(dlist) && fresh(dlist.Chain)
      ensures Contents() == []
    {
      dlist := new DList<T>();
    }

    function Size(): (n: int)
      reads this, dlist, dlist.Chain
      requires Valid()
      ensures n == |Contents()|
    {
      dlist.Size()
    }

    function IsEmpty(): (b: bool)
      reads this, dlist, dlist.Chain
      requires Valid()
      ensures b <==> Contents() == []
    {
      dlist.IsEmpty()
    }

    /** The front element. On an empty deque the Java code dereferences null. */
    function First(): (x: T)
      reads this, dlist, dlist.Chain
      requires Valid() && Size() > 0
      ensures x == Contents()[0]
    {
      dlist.GetFirst().data.value
    }

    /** The back element. On an empty deque the Java code dereferences null. */
    function Last(): (x: T)
      reads this, dlist, dlist.Chain
      requires Valid() && Size() > 0
      ensures x == Contents()[|Contents()| - 1]
    {
      dlist.GetLast().data.value
    }

    method AddFirst(x: T)
      requires Valid()
      modifies dlist, dlist.Chain
      ensures Valid()
      ensures forall i :: 0 <= i < |dlist.Chain| ==> dlist.Chain[i] in old(dlist.Chain) || fresh(dlist.Chain[i])
      ensures Contents() == [x] + old(Contents())
    {
      dlist.AddFirst(x);
    }

    method AddLast(x: T)
      requires Valid()
      modifies dlist, dlist.Chain
      ensures Valid()
      ensures forall i :: 0 <= i < |dlist.Chain| ==> dlist.Chain[i] in old(dlist.Chain) || fresh(dlist.Chain[i])
      ensures Contents() == old(Contents()) + [x]
    {
      dlist.AddLast(x);
    }

    /** Removes and returns the front element; the Java code needs a non-empty deque. */
    method RemoveFirst() returns (x: T)
      requires Valid() && Size() > 0
      modifies dlist, dlist.Chain
      ensures Valid()
      ensures forall i :: 0 <= i < |dlist.Chain| ==> dlist.Chain[i] in old(dlist.Chain)
      ensures x == old(Contents())[0]
      ensures Contents() == old(Contents())[1..]
    {
      var r := dlist.Remove(dlist.GetFirst(), 1);
      x := r.value;
    }

    /** Removes and returns the back element; the Java code needs a non-empty deque. */
    method RemoveLast() returns (x: T)
      requires Valid() && Size() > 0
      modifies dlist, dlist.Chain
      ensures Valid()
      ensures forall i :: 0 <= i < |dlist.Chain| ==> dlist.Chain[i] in old(dlist.Chain)
      ensures x == old(Contents())[|old(Contents())| - 1]
      ensures Contents() == old(Contents())[..|old(Contents())| - 1]
    {
      var r := dlist.Remove(dlist.GetLast(), |dlist.Chain| - 2);
      x := r.value;
    }

    method ToString() returns (shown: seq<T>)
      requires Valid()
      ensures shown == Contents()
    {
      shown := dlist.ToString();
    }
  }

  /** The deque of the demo: `addLast 5`, `addFirst 3`, `addFirst 7` on a new deque. */
  method DemoDeque() returns (d: DListDeque<int>)
    ensures fresh(d) && fresh(d.dlist) && fresh(d.dlist.Chain)
    ensures d.Valid() && d.Contents() == [7, 3, 5]
  {
    d := new DListDeque<int>();
    d.AddLast(5);
    d.AddFirst(3);
    d.AddFirst(7);
    forall i | 0 <= i < |d.dlist.Chain|
      ensures fresh(d.dlist.Chain[i])
    {
      assert d.dlist.Chain[i] in d.dlist.Chain;
    }
  }

  /**
   * The commented expectations of the deque demo: the deque built by
   * `DemoDeque` reads 7, 3, 5, and after a `removeLast` it reads 7, 3.
   */
  method DequeDemo() returns (front: int, back: int, before: seq<int>, removed: int, after: seq<int>)
    ensures front == 7 && back == 5 && before == [7, 3, 5]
    ensures removed == 5 && after == [7, 3]
  {
    var d := DemoDeque();
    front := d.First();
    before := d.ToString();
    back := d.Last();
    removed := d.RemoveLast();
    after := d.ToString();
  }
}
