/** Std::LinkedList for element types that are not list entries themselves: add allocates a node for
    each value. Both chains of links spell out one sequence of nodes. */
module LinkedLists {
  import opened Sequences
  import opened Options

  class Node<T> {
    var next: Node?<T>
    var previous: Node?<T>
    const value: T

    constructor (value: T)
      ensures next == null && previous == null && this.value == value
    {
      next, previous := null, null;
      this.value := value;
    }
  }

  ghost function NodeAt<T>(s: seq<Node<T>>, i: int): Node?<T> {
    if 0 <= i < |s| then s[i] else null
  }

  ghost function Values<T>(s: seq<Node<T>>): seq<T> {
    seq(|s|, i requires 0 <= i < |s| => s[i].value)
  }

  lemma ValuesOfMore<T>(s: seq<Node<T>>, n: Node<T>)
    ensures Values(s + [n]) == Values(s) + [n.value]
  {
  }

  lemma NeighboursAfter<T>(s: seq<Node<T>>, i: nat, r: seq<Node<T>>, j: nat)
    requires i < |s| && Dropped(s, i, r) && j < |r|
    ensures var o := if j < i then j else j + 1;
      && r[j] == s[o] && o != i
      && NodeAt(r, j + 1) == NodeAt(s, if o + 1 == i then i + 1 else o + 1)
      && NodeAt(r, j - 1) == NodeAt(s, if o - 1 == i then i - 1 else o - 1)
  {
  }

  lemma EndsAfter<T>(s: seq<Node<T>>, i: nat, r: seq<Node<T>>)
    requires i < |s| && Dropped(s, i, r)
    ensures |r| == |s| - 1 && NodeAt(r, 0) == (if i == 0 then NodeAt(s, 1) else s[0])
    ensures NodeAt(r, |r| - 1) == (if i == |s| - 1 then NodeAt(s, i - 1) else s[|s| - 1])
  {
  }

  lemma DropNode<T>(s: seq<Node<T>>, i: nat) returns (r: seq<Node<T>>)
    requires i < |s| && Distinct(s)
    ensures r == s[..i] + s[i + 1..] && Dropped(s, i, r) && Distinct(r)
  {
    r := s[..i] + s[i + 1..];
    forall j, k | 0 <= j < k < |r|
      ensures r[j] != r[k]
    {
      assert r[j] == s[if j < i then j else j + 1] && r[k] == s[if k < i then k else k + 1];
    }
  }

  /** The values that remove(value) should leave. */
  function Without<T(==)>(s: seq<T>, value: T): seq<T> {
    if s == [] then [] else (if s[0] == value then [] else [s[0]]) + Without(s[1..], value)
  }

  /** Emptying the list is what removing a value means exactly when the list holds nothing else. */
  lemma {:induction false} EmptyingIsRemoving<T>(s: seq<T>, value: T)
    ensures Without(s, value) == [] <==> forall i :: 0 <= i < |s| ==> s[i] == value
  {
    if s != [] {
      EmptyingIsRemoving(s[1..], value);
      assert forall i :: 0 < i < |s| ==> s[i] == s[1..][i - 1];
    }
  }

  /** The elements of s but element i are linked as if it were not there. */
  ghost predicate Rerouted<T>(s: seq<Node<T>>, i: nat)
    reads s
  {
    && (forall j {:trigger s[j].next} :: 0 <= j < |s| && j != i ==>
          s[j].next == NodeAt(s, if j + 1 == i then i + 1 else j + 1))
    && (forall j {:trigger s[j].previous} :: 0 <= j < |s| && j != i ==>
          s[j].previous == NodeAt(s, if j - 1 == i then i - 1 else j - 1))
  }

  /** Every element is linked to its neighbours. */
  ghost predicate LinkedUp<T>(s: seq<Node<T>>)
    reads s
  {
    && (forall j {:trigger s[j].next} :: 0 <= j < |s| ==> s[j].next == NodeAt(s, j + 1))
    && (forall j {:trigger s[j].previous} :: 0 <= j < |s| ==> s[j].previous == NodeAt(s, j - 1))
  }

  lemma LinksAfter<T>(s: seq<Node<T>>, i: nat, r: seq<Node<T>>)
    requires i < |s| && Dropped(s, i, r) && Rerouted(s, i)
    ensures LinkedUp(r)
  {
    forall j: nat | j < |r|
      ensures r[j].next == NodeAt(r, j + 1) && r[j].previous == NodeAt(r, j - 1)
    {
      NeighboursAfter(s, i, r, j);
      hide NodeAt, Dropped;
      assert r[j] == s[if j < i then j else j + 1];
    }
  }

  /** size - 1 on 64 bits. */
  function OneLess(size: nat): nat {
    if size == 0 then 0xFFFF_FFFF_FFFF_FFFF else size - 1
  }

  class LinkedList<T> {
    ghost var contents: seq<Node<T>>
    var head: Node?<T>
    var tail: Node?<T>
    var size: nat

    ghost predicate Valid()
      reads this, contents
    {
      && size == |contents| && Distinct(contents)
      && head == NodeAt(contents, 0) && tail == NodeAt(contents, |contents| - 1)
      && (forall i {:trigger contents[i].next} :: 0 <= i < |contents| ==> contents[i].next == NodeAt(contents, i + 1))
      && (forall i {:trigger contents[i].previous} :: 0 <= i < |contents| ==> contents[i].previous == NodeAt(contents, i - 1))
    }

    constructor ()
      ensures Valid() && contents == []
    {
      contents, head, tail, size := [], null, null, 0;
    }

    method Add(value: T)
      requires Valid()
      modifies this, contents`next
      ensures Valid() && Values(contents) == old(Values(contents)) + [value]
      ensures |contents| == old(|contents|) + 1 && contents[..old(|contents|)] == old(contents)
      ensures fresh(contents[old(|contents|)])
    {
      ghost var was := contents;
      var elem := new Node(value);
      Append(elem);
      ValuesOfMore(was, elem);
    }

    method Append(elem: Node<T>)
      requires Valid() && elem !in contents && elem.next == null && elem.previous == null
      modifies this, contents`next, elem`next, elem`previous
      ensures Valid() && contents == old(contents) + [elem]
    {
      if size == 0 {
        head, tail := elem, elem;
      } else {
        tail.next := elem;
        elem.previous := tail;
        tail := elem;
      }
      size := size + 1;
      contents := contents + [elem];
    }

    /** get: i steps from the head. */
    method Get(i: nat) returns (r: Option<T>)
      requires Valid()
      ensures r == if i < |contents| then Some(contents[i].value) else None
    {
      if i >= size {
        return None;
      }
      var elem := head;
      for j := 0 to i
        invariant elem == contents[j]
      {
        elem := elem.next;
      }
      return Some(elem.value);
    }

    /** operator[]: from the head in the lower half, from the tail in the upper one. */
    method Index(index: nat) returns (r: T)
      requires Valid() && index < size
      ensures r == contents[index].value
    {
      var elem;
      if index < size / 2 {
        elem := head;
        for i := 0 to index
          invariant elem == contents[i]
        {
          elem := elem.next;
        }
      } else {
        elem := tail;
        for i := size - 1 downto index
          invariant elem == contents[i]
        {
          elem := elem.previous;
        }
      }
      return elem.value;
    }

    /** On an empty list the source returns the address of the value field of a null element, and the
        size wraps, so the list is broken afterwards. */
    method TakeFirst() returns (r: Option<T>)
      requires Valid()
      modifies this, contents`previous
      ensures old(size) > 0 ==> Valid() && contents == old(contents)[1..] && r == Some(old(contents)[0].value)
      ensures old(size) == 0 ==> r == None && Drained()
    {
      var elem := head;
      if head == tail {
        head, tail := null, null;
      } else {
        head := head.next;
        head.previous := null;
      }
      size := OneLess(size);
      if elem == null {
        return None;
      }
      contents := contents[1..];
      return Some(elem.value);
    }

    method TakeLast() returns (r: Option<T>)
      requires Valid()
      modifies this, contents`next, contents`previous
      ensures old(size) > 0 ==>
        && Valid() && contents == old(contents)[..old(size) - 1] && r == Some(old(contents)[old(size) - 1].value)
      ensures old(size) == 0 ==> r == None && Drained()
    {
      var ent := tail;
      if head == tail {
        head, tail := null, null;
      } else {
        tail := tail.previous;
        tail.next := null;
        ent.previous := null;
      }
      size := OneLess(size);
      if ent == null {
        return None;
      }
      contents := contents[..size];
      return Some(ent.value);
    }

    /** No elements, but a size of 2^64 - 1. */
    ghost predicate Drained()
      reads this, contents
    {
      contents == [] && head == null && tail == null && size == 0xFFFF_FFFF_FFFF_FFFF && !Valid()
    }

    /** The nodes but node i are linked as if it were not there. */
    ghost predicate Bypassed(i: nat)
      reads this, contents
    {
      && i < |contents| && Distinct(contents)
      && head == (if i == 0 then NodeAt(contents, 1) else contents[0])
      && tail == (if i == |contents| - 1 then NodeAt(contents, i - 1) else contents[|contents| - 1])
      && Rerouted(contents, i)
    }

    ghost method Drop(i: nat)
      requires Bypassed(i) && size == |contents| - 1
      modifies this`contents
      ensures Valid() && contents == old(contents)[..i] + old(contents)[i + 1..]
    {
      hide *;
      var was := contents;
      BypassedParts(i);
      contents := DropNode(was, i);
      EndsAfter(was, i, contents);
      LinksAfter(was, i, contents);
      Whole();
    }

    lemma BypassedParts(i: nat)
      requires Bypassed(i)
      ensures i < |contents| && Distinct(contents) && Rerouted(contents, i)
      ensures head == (if i == 0 then NodeAt(contents, 1) else contents[0])
      ensures tail == (if i == |contents| - 1 then NodeAt(contents, i - 1) else contents[|contents| - 1])
    {
    }

    lemma Whole()
      requires size == |contents| && Distinct(contents) && LinkedUp(contents)
      requires head == NodeAt(contents, 0) && tail == NodeAt(contents, |contents| - 1)
      ensures Valid()
    {
    }

    /** remove(i): from the head, the tail, or after i steps in between. */
    method RemoveAt(i: nat)
      requires Valid()
      modifies this, contents`next, contents`previous
      ensures Valid()
      ensures contents == if i < old(|contents|) then old(contents)[..i] + old(contents)[i + 1..] else old(contents)
    {
      if i >= size {
        return;
      }
      Bypass(i);
      hide *;
      size := size - 1;
      Drop(i);
    }

    method Bypass(i: nat)
      requires Valid() && i < size
      modifies this`head, this`tail, contents`next, contents`previous
      ensures Bypassed(i) && size == |contents|
    {
      if i == 0 {
        head := head.next;
        if head != null {
          head.previous := null;
        } else {
          tail := null;
        }
      } else if i == size - 1 {
        // node i - 1 exists, so the source's test of the new tail always succeeds
        tail := tail.previous;
        tail.next := null;
      } else {
        var elem := head;
        for j := 0 to i
          invariant elem == contents[j]
        {
          elem := elem.next;
        }
        elem.previous.next := elem.next;
        elem.next.previous := elem.previous;
      }
    }

    /** remove(value): the loop never looks at the value, so the list ends up empty whatever it held;
        EmptyingIsRemoving says when that was asked for. The element looked at is
        always the head, so the branches for the tail and the middle are never taken. */
    method RemoveValue(value: T)
      requires Valid()
      modifies this, contents`next, contents`previous
      ensures Valid() && contents == []
    {
      if size == 0 {
        return;
      }
      var elem := head;
      while elem != null
        invariant Valid() && elem == head
        invariant forall n :: n in contents ==> n in old(contents)
        decreases size
      {
        if size == 1 {
          head, tail := null, null;
        } else {
          assert contents[1] in old(contents);
          head := head.next;
          head.previous := null;
        }
        elem := elem.next;
        size := size - 1;
        contents := contents[1..];
      }
    }
  }
}
