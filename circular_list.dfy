/** A circular singly-linked list that stores only its tail (the cursor) and
    its size. The head is never stored: it is always `cursor.next`. */
module CircularList {
  import opened Wrappers

  /** One ring cell. `next` is nullable only while `Push` wires a fresh
      node in; inside a valid ring it is never null. */
  class Node<T> {
    var value: T
    var next: Node?<T>

    constructor (value: T)
      ensures this.value == value && next == null
    {
      this.value := value;
      next := null;
    }
  }

  /** `nodes` read from the head form one cycle: each node links to the
      following one, the last links back to the first, no node occurs twice,
      and `contents` lists their values in that order. */
  ghost predicate Ring<T>(nodes: seq<Node<T>>, contents: seq<T>)
    reads nodes
  {
    Distinct(nodes) && Holds(nodes, contents) && Linked(nodes)
  }

  ghost predicate Distinct<T>(nodes: seq<Node<T>>)
  {
    forall i, j :: 0 <= i < j < |nodes| ==> nodes[i] != nodes[j]
  }

  ghost predicate Holds<T>(nodes: seq<Node<T>>, contents: seq<T>)
    reads nodes`value
  {
    |nodes| == |contents| &&
    forall i :: 0 <= i < |nodes| ==> nodes[i].value == contents[i]
  }

  ghost predicate Linked<T>(nodes: seq<Node<T>>)
    reads nodes`next
  {
    (forall i {:trigger nodes[i].next} :: 0 <= i < |nodes| - 1 ==> nodes[i].next == nodes[i + 1]) &&
    (|nodes| > 0 ==> nodes[|nodes| - 1].next == nodes[0])
  }

  /** The node reached from `n` by following `next` `k` times, as long as
      the walk stays on the nodes `ns`. */
  ghost function Follow<T>(ns: seq<Node<T>>, n: Node<T>, k: nat): Node<T>
    reads ns`next
    decreases k
  {
    if k == 0 || n !in ns || n.next == null then n else Follow(ns, n.next, k - 1)
  }

  lemma {:induction false} FollowAlongRing<T>(nodes: seq<Node<T>>, contents: seq<T>, i: nat, k: nat)
    requires Ring(nodes, contents)
    requires i + k < |nodes|
    ensures Follow(nodes, nodes[i], k) == nodes[i + k]
    decreases k
  {
    if k > 0 {
      FollowAlongRing(nodes, contents, i + 1, k - 1);
    }
  }

  /** Following `next` from the tail returns to the tail after exactly
      `|nodes|` steps and not before: the ring has exactly `|nodes|`
      distinct nodes. */
  lemma RingClosesAfterSize<T>(nodes: seq<Node<T>>, contents: seq<T>, tail: Node<T>)
    requires Ring(nodes, contents) && |nodes| > 0 && tail == nodes[|nodes| - 1]
    ensures Follow(nodes, tail, |nodes|) == tail
    ensures forall k :: 0 < k < |nodes| ==> Follow(nodes, tail, k) != tail
  {
    var n := |nodes|;
    FollowAlongRing(nodes, contents, 0, n - 1);
    forall k | 0 < k < n
      ensures Follow(nodes, tail, k) != tail
    {
      FollowAlongRing(nodes, contents, 0, k - 1);
    }
  }

  /** The values of a ring after one `rotate`: the head moves to the tail. */
  function Rotated<T>(s: seq<T>): seq<T>
  {
    if s == [] then [] else s[1..] + [s[0]]
  }

  /** The values after `k` rotations. */
  function RotatedBy<T>(s: seq<T>, k: nat): seq<T>
    decreases k
  {
    if k == 0 then s else RotatedBy(Rotated(s), k - 1)
  }

  lemma {:induction false} RotatedBySplits<T>(s: seq<T>, k: nat)
    requires k <= |s|
    ensures RotatedBy(s, k) == s[k..] + s[..k]
    decreases k
  {
    if k > 0 {
      RotatedBySplits(Rotated(s), k - 1);
      assert Rotated(s)[k - 1..] == s[k..] + [s[0]];
      assert Rotated(s)[..k - 1] == s[1..k];
      assert s[..k] == [s[0]] + s[1..k];
    }
  }

  /** Rotating never changes the size or the multiset of values, and
      `|s|` rotations bring back the original order. */
  lemma RotationCycles<T>(s: seq<T>)
    ensures |Rotated(s)| == |s| && multiset(Rotated(s)) == multiset(s)
    ensures RotatedBy(s, |s|) == s
  {
    if s != [] {
      assert s == [s[0]] + s[1..];
    }
    RotatedBySplits(s, |s|);
  }

  /** A push followed by a rotate appends at the tail. */
  lemma PushThenRotateAppends<T>(s: seq<T>, v: T)
    ensures Rotated([v] + s) == s + [v]
  {
    assert ([v] + s)[1..] == s;
  }

  /** One step of construction: after the first `i` entries are in place,
      pushing and rotating entry `i` puts the first `i + 1` in place. */
  lemma PushThenRotateExtends<T>(values: seq<T>, i: nat, before: seq<T>)
    requires i < |values| && before == values[..i]
    ensures Rotated([values[i]] + before) == values[..i + 1]
  {
    PushThenRotateAppends(before, values[i]);
    assert values[..i + 1] == values[..i] + [values[i]];
  }

  class List<T> {
    var size: nat
    var cursor: Node?<T>
    /** The ring's nodes read from the head: `nodes[0] == cursor.next`. */
    ghost var nodes: seq<Node<T>>
    /** The values read from the head, as a traversal yields them. */
    ghost var contents: seq<T>
    /** The objects this list owns: itself and every node of its ring. */
    ghost var Repr: set<object>

    ghost predicate Valid()
      reads this, Repr
    {
      this in Repr &&
      (forall n :: n in nodes ==> n in Repr) &&
      Ring(nodes, contents) &&
      size == |nodes| &&
      (cursor == null <==> nodes == []) &&
      (cursor != null ==> cursor == nodes[|nodes| - 1])
    }

    /** The cursor is the tail of one cycle of exactly `size` distinct
        nodes: it holds the last value, and the head is the node after it. */
    lemma CursorClosesRing()
      requires Valid() && cursor != null
      ensures cursor.next == nodes[0]
      ensures cursor.value == contents[|contents| - 1]
      ensures Follow(nodes, cursor, size) == cursor
      ensures forall k :: 0 < k < size ==> Follow(nodes, cursor, k) != cursor
    {
      RingClosesAfterSize(nodes, contents, cursor);
    }

    /** Builds the list by pushing then rotating each entry in order. */
    constructor (entries: Option<seq<T>>)
      ensures Valid()
      ensures entries.None? ==> contents == []
      ensures entries.Some? ==> contents == entries.value
      ensures fresh(Repr)
    {
      size := 0;
      cursor := null;
      nodes := [];
      contents := [];
      Repr := {this};
      new;
      if entries.Some? {
        var values := entries.value;
        var i := 0;
        while i < |values|
          invariant 0 <= i <= |values|
          invariant Valid()
          invariant contents == values[..i]
          invariant fresh(Repr)
        {
          ghost var before := contents;
          Push(values[i]);
          Rotate();
          PushThenRotateExtends(values, i, before);
          i := i + 1;
        }
        assert values[..|values|] == values;
      }
    }

    /** Inserts `value` as the new head, after the cursor. */
    method Push(value: T)
      requires Valid()
      modifies Repr
      ensures Valid() && fresh(Repr - old(Repr))
      ensures contents == [value] + old(contents)
      ensures size == old(size) + 1
      ensures old(cursor) != null ==> cursor == old(cursor)
      ensures fresh(nodes[0]) && nodes[1..] == old(nodes)
    {
      size := size + 1;
      var current := new Node(value);
      if cursor == null {
        current.next := current;
        cursor := current;
        nodes, contents := [current], [value];
      } else {
        current.next := cursor.next;
        cursor.next := current;
        nodes, contents := [current] + nodes, [value] + contents;
        assert nodes[1..] == old(nodes);
      }
      Repr := Repr + {current};
    }

    /** Removes and returns the head; `None` on an empty list. */
    method Pop() returns (r: Option<T>)
      requires Valid()
      modifies Repr
      ensures Valid() && Repr == old(Repr)
      ensures old(contents) == [] ==> r == None && unchanged(this)
      ensures old(contents) != [] ==>
        r == Some(old(contents)[0]) && contents == old(contents)[1..] &&
        nodes == old(nodes)[1..] && size == old(size) - 1
      ensures |old(contents)| > 1 ==> cursor == old(cursor)
    {
      if cursor == null {
        return None;
      }
      size := size - 1;
      var first := cursor.next;
      var value, next := first.value, first.next;
      if first == cursor {
        cursor := null;
      } else {
        cursor.next := next;
      }
      nodes := nodes[1..];
      contents := contents[1..];
      r := Some(value);
    }

    /** The head's value without changing anything; `None` on an empty list. */
    method Peek() returns (r: Option<T>)
      requires Valid()
      ensures contents == [] ==> r == None
      ensures contents != [] ==> r == Some(contents[0])
    {
      if cursor == null {
        r := None;
      } else {
        r := Some(cursor.next.value);
      }
    }

    method Clear()
      requires Valid()
      modifies this
      ensures Valid() && Repr == old(Repr)
      ensures size == 0 && contents == [] && cursor == null
    {
      cursor := null;
      size := 0;
      nodes := [];
      contents := [];
    }

    /** Advances the cursor one step: the old head becomes the tail. */
    method Rotate()
      requires Valid()
      modifies this
      ensures Valid() && Repr == old(Repr)
      ensures contents == Rotated(old(contents))
      ensures nodes == Rotated(old(nodes))
      ensures size == old(size)
    {
      if cursor != null {
        cursor := cursor.next;
        nodes := nodes[1..] + [nodes[0]];
        contents := contents[1..] + [contents[0]];
      }
    }

    function Size(): (n: nat)
      requires Valid()
      reads this, Repr
      ensures n == |contents|
      ensures n == 0 <==> cursor == null
    {
      size
    }

    /** A fresh traversal starting at the head. */
    method Iterator() returns (it: ListIterator<T>)
      requires Valid()
      ensures fresh(it)
      ensures it.Valid() && it.nodes == nodes && it.contents == contents && it.pos == 0
    {
      if cursor == null {
        it := new ListIterator.Exhausted();
      } else {
        it := new ListIterator.Start(cursor.next, nodes, contents);
      }
    }

    /** Every value, from the head, in ring order. */
    method Values() returns (vs: seq<T>)
      requires Valid()
      ensures vs == contents
    {
      var it := Iterator();
      vs := [];
      var done := false;
      while !done
        invariant it.Valid() && it.nodes == nodes && it.contents == contents
        invariant vs == contents[..it.pos]
        invariant done ==> it.pos == |contents|
        decreases |contents| - it.pos, !done
      {
        var r := it.Next();
        match r
        case Some(v) =>
          vs := vs + [v];
        case None =>
          done := true;
      }
    }

    /** The keys of the list are its values. */
    method Keys() returns (ks: seq<T>)
      requires Valid()
      ensures ks == contents
    {
      ks := Values();
    }

    /** Each value paired with itself, in ring order. */
    method Entities() returns (es: seq<(T, T)>)
      requires Valid()
      ensures |es| == |contents|
      ensures forall i :: 0 <= i < |es| ==> es[i] == (contents[i], contents[i])
    {
      var it := Iterator();
      es := [];
      var done := false;
      while !done
        invariant it.Valid() && it.nodes == nodes && it.contents == contents
        invariant |es| == it.pos
        invariant forall i :: 0 <= i < |es| ==> es[i] == (contents[i], contents[i])
        invariant done ==> it.pos == |contents|
        decreases |contents| - it.pos, !done
      {
        var r := it.Next();
        match r
        case Some(v) =>
          es := es + [(v, v)];
        case None =>
          done := true;
      }
    }

    /** Calls `callback(value, key)` once per value, in ring order, and
        returns what the calls produced, in call order. */
    method ForEach<E>(callback: (T, T) -> E) returns (trace: seq<E>)
      requires Valid()
      ensures |trace| == |contents|
      ensures forall i :: 0 <= i < |trace| ==> trace[i] == callback(contents[i], contents[i])
    {
      var it := Iterator();
      trace := [];
      var done := false;
      while !done
        invariant it.Valid() && it.nodes == nodes && it.contents == contents
        invariant |trace| == it.pos
        invariant forall i :: 0 <= i < |trace| ==> trace[i] == callback(contents[i], contents[i])
        invariant done ==> it.pos == |contents|
        decreases |contents| - it.pos, !done
      {
        var r := it.Next();
        match r
        case Some(v) =>
          trace := trace + [callback(v, v)];
        case None =>
          done := true;
      }
    }
  }

  /** A single-pass walk over a ring from its head. It reads the ring's
      nodes, so any push or pop on the list invalidates it. */
  class ListIterator<T> {
    var first: Node?<T>
    var current: Node?<T>
    var iterated: bool
    ghost var nodes: seq<Node<T>>
    ghost var contents: seq<T>
    /** How many values have been yielded so far. */
    ghost var pos: nat

    ghost predicate Valid()
      reads this, nodes
    {
      Ring(nodes, contents) &&
      pos <= |nodes| &&
      (iterated <==> pos == |nodes|) &&
      (|nodes| > 0 ==> first == nodes[0]) &&
      (pos < |nodes| ==> current == nodes[pos])
    }

    /** The walk over an empty list: finished from the start. */
    constructor Exhausted()
      ensures Valid() && nodes == [] && contents == [] && pos == 0
    {
      first := null;
      current := null;
      iterated := true;
      nodes := [];
      contents := [];
      pos := 0;
    }

    constructor Start(first: Node<T>, ghost nodes: seq<Node<T>>, ghost contents: seq<T>)
      requires Ring(nodes, contents) && |nodes| > 0 && first == nodes[0]
      ensures Valid() && this.nodes == nodes && this.contents == contents && pos == 0
    {
      this.first := first;
      current := first;
      iterated := false;
      this.nodes := nodes;
      this.contents := contents;
      pos := 0;
    }

    /** Yields the next value, or `None` once the walk is back at the head. */
    method Next() returns (r: Option<T>)
      requires Valid()
      modifies this
      ensures Valid() && nodes == old(nodes) && contents == old(contents)
      ensures old(pos) < |contents| ==> r == Some(contents[old(pos)]) && pos == old(pos) + 1
      ensures old(pos) == |contents| ==> r == None && pos == old(pos)
    {
      if iterated {
        return None;
      }
      var value, next := current.value, current.next;
      current := next;
      assert pos + 1 < |nodes| ==> current == nodes[pos + 1] && current != first;
      if current == first {
        iterated := true;
      }
      pos := pos + 1;
      r := Some(value);
    }
  }
}
