/**
 * The singly linked list of zzz_list.c (duplicated at the top of main.c).
 *
 * A `List` object stands for the variable of type `struct zzz_list *` whose
 * address the C functions receive; its nodes are `Node` objects. The ghost
 * field `Nodes` lists the nodes from the head, `Contents` their values.
 */
module ZzzList {
  import opened Wrappers

  /** The sequence a list holds after its nodes have been relinked backwards. */
  function Reversed<T>(s: seq<T>): (r: seq<T>)
    ensures |r| == |s|
    ensures forall i :: 0 <= i < |s| ==> r[i] == s[|s| - 1 - i]
  {
    if s == [] then [] else Reversed(s[1..]) + [s[0]]
  }

  /** Reversing twice gives the list back. */
  lemma {:induction false} ReversedTwice<T>(s: seq<T>)
    ensures Reversed(Reversed(s)) == s
  {
    var r := Reversed(Reversed(s));
    assert |r| == |s|;
    forall i | 0 <= i < |s|
      ensures r[i] == s[i]
    {
      assert r[i] == Reversed(s)[|s| - 1 - i];
    }
  }

  /** Reversing a list built by one more prepend puts that value last. */
  lemma ReversedPrepend<T>(v: T, s: seq<T>)
    ensures Reversed([v] + s) == Reversed(s) + [v]
  {
    assert ([v] + s)[1..] == s;
  }

  /** The node that follows `nodes[i]` in a well-formed chain: the next one, or NULL after the last. */
  ghost function Follower<T>(nodes: seq<Node<T>>, i: int): Node?<T>
  {
    if 0 <= i + 1 < |nodes| then nodes[i + 1] else null
  }

  /** The node a reversed chain links `nodes[i]` to: the previous one, or NULL for the first. */
  ghost function Predecessor<T>(nodes: seq<Node<T>>, i: int): Node?<T>
  {
    if 0 < i <= |nodes| then nodes[i - 1] else null
  }

  /** Reversal keeps the elements of a sequence pairwise distinct. */
  lemma ReversedDistinct<T>(s: seq<T>)
    requires forall i, j :: 0 <= i < j < |s| ==> s[i] != s[j]
    ensures forall i, j :: 0 <= i < j < |s| ==> Reversed(s)[i] != Reversed(s)[j]
  {
    var rev := Reversed(s);
    forall i, j | 0 <= i < j < |s|
      ensures rev[i] != rev[j]
    {
      assert rev[i] == s[|s| - 1 - i] && rev[j] == s[|s| - 1 - j];
    }
  }

  /** Reversing the nodes and their values together keeps each node with its value. */
  lemma ReversedValues<T>(nodes: seq<Node<T>>, contents: seq<T>)
    requires |nodes| == |contents|
    requires forall i :: 0 <= i < |nodes| ==> nodes[i].value == contents[i]
    ensures forall i :: 0 <= i < |nodes| ==> Reversed(nodes)[i].value == Reversed(contents)[i]
  {
    var rev, revContents := Reversed(nodes), Reversed(contents);
    forall i | 0 <= i < |nodes|
      ensures rev[i].value == revContents[i]
    {
      assert rev[i] == nodes[|nodes| - 1 - i];
    }
  }

  /**
   * A chain whose every node points back at its predecessor is, read from its
   * last node, a well-formed chain of the reversed nodes.
   */
  lemma ReversedChain<T>(nodes: seq<Node<T>>)
    requires forall i :: 0 <= i < |nodes| ==> nodes[i].next == Predecessor(nodes, i)
    ensures forall i :: 0 <= i < |nodes| ==> Reversed(nodes)[i].next == Follower(Reversed(nodes), i)
  {
    var rev := Reversed(nodes);
    forall i | 0 <= i < |nodes|
      ensures rev[i].next == Follower(rev, i)
    {
      var j := |nodes| - 1 - i;
      assert rev[i] == nodes[j];
      assert Predecessor(nodes, j) == Follower(rev, i);
    }
  }

  class Node<T> {
    const value: T
    var next: Node?<T>

    constructor (value: T, next: Node?<T>)
      ensures this.value == value && this.next == next
    {
      this.value := value;
      this.next := next;
    }
  }

  class List<T> {
    var head: Node?<T>
    ghost var Contents: seq<T>
    ghost var Nodes: seq<Node<T>>
    ghost var Repr: set<object>

    /** The nodes are distinct, linked in order, end in NULL and hold Contents. */
    ghost predicate Valid()
      reads this, Repr
    {
      && this in Repr
      && |Nodes| == |Contents|
      && (forall i :: 0 <= i < |Nodes| ==> Nodes[i] in Repr)
      && head == (if Nodes == [] then null else Nodes[0])
      && (forall i :: 0 <= i < |Nodes| ==> Nodes[i].value == Contents[i])
      && (forall i :: 0 <= i < |Nodes| ==> Nodes[i].next == Follower(Nodes, i))
      && (forall i, j :: 0 <= i < j < |Nodes| ==> Nodes[i] != Nodes[j])
    }

    /** The NULL list. */
    constructor Empty()
      ensures Valid() && fresh(Repr)
      ensures Contents == [] && Nodes == []
    {
      head := null;
      Contents, Nodes, Repr := [], [], {this};
    }

    /** zzz_list_singleton: one fresh node holding `value`, next NULL. */
    constructor Singleton(value: T)
      ensures Valid() && fresh(Repr)
      ensures Contents == [value] && |Nodes| == 1
    {
      var n := new Node(value, null);
      head := n;
      Contents, Nodes, Repr := [value], [n], {this, n};
    }

    /** zzz_list_prepend: a fresh node in front; the old nodes are not touched. */
    method Prepend(value: T)
      requires Valid()
      modifies this
      ensures Valid() && fresh(Repr - old(Repr))
      ensures Contents == [value] + old(Contents)
      ensures |Nodes| == |old(Nodes)| + 1 && fresh(Nodes[0]) && Nodes[1..] == old(Nodes)
    {
      var n := new Node(value, head);
      head := n;
      Contents, Nodes, Repr := [value] + Contents, [n] + Nodes, Repr + {n};
      forall i | 0 <= i < |Nodes|
        ensures Nodes[i].next == Follower(Nodes, i)
      {
        if i > 0 {
          assert Nodes[i] == old(Nodes)[i - 1];
          assert Follower(Nodes, i) == Follower(old(Nodes), i - 1);
        }
      }
    }

    /** zzz_list_tail: pops the head value; NULL (here None) on the empty list. */
    method Tail() returns (r: Option<T>)
      requires Valid()
      modifies this
      ensures Valid() && Repr == old(Repr)
      ensures old(Contents) == [] ==> r == None && Contents == []
      ensures old(Contents) != [] ==>
                r == Some(old(Contents)[0]) && Contents == old(Contents)[1..]
                && Nodes == old(Nodes)[1..]
    {
      if head == null {
        return None;
      }
      r := Some(head.value);
      assert head.next == Follower(Nodes, 0);
      head := head.next;
      Contents, Nodes := Contents[1..], Nodes[1..];
      forall i | 0 <= i < |Nodes|
        ensures Nodes[i].next == Follower(Nodes, i)
      {
        assert Nodes[i] == old(Nodes)[i + 1];
        assert Follower(Nodes, i) == Follower(old(Nodes), i + 1);
      }
    }

    /** The state Reverse's loop leaves behind satisfies the list invariant. */
    lemma ValidAfterReversal(nodes: seq<Node<T>>, contents: seq<T>)
      requires |nodes| == |contents| && this in Repr
      requires forall i :: 0 <= i < |nodes| ==> nodes[i] in Repr
      requires forall i :: 0 <= i < |nodes| ==> nodes[i].value == contents[i]
      requires forall i :: 0 <= i < |nodes| ==> nodes[i].next == Predecessor(nodes, i)
      requires forall i, j :: 0 <= i < j < |nodes| ==> nodes[i] != nodes[j]
      requires head == Predecessor(nodes, |nodes|)
      requires Nodes == Reversed(nodes) && Contents == Reversed(contents)
      ensures Valid()
    {
      ReversedValues(nodes, contents);
      ReversedChain(nodes);
      ReversedDistinct(nodes);
    }

    /** zzz_list_reverse: relinks every node backwards in one pass; no node is allocated or dropped. */
    method Reverse()
      requires Valid()
      modifies Repr
      ensures Valid() && Repr == old(Repr)
      ensures Contents == Reversed(old(Contents))
      ensures Nodes == Reversed(old(Nodes))
    {
      ghost var nodes, contents := Nodes, Contents;
      var prev: Node?<T> := null;
      ghost var k := 0;
      while head != null
        invariant Nodes == nodes && Contents == contents && Repr == old(Repr)
        invariant 0 <= k <= |nodes|
        invariant head == Follower(nodes, k - 1)
        invariant prev == Predecessor(nodes, k)
        invariant forall i :: 0 <= i < |nodes| ==>
                    nodes[i].next == if i < k then Predecessor(nodes, i) else Follower(nodes, i)
        decreases |nodes| - k
      {
        var realNext := head.next;
        assert head == nodes[k];
        assert realNext == Follower(nodes, k);
        head.next := prev;
        prev := head;
        head := realNext;
        k := k + 1;
      }
      head := prev;
      Contents, Nodes := Reversed(contents), Reversed(nodes);
      ValidAfterReversal(nodes, contents);
    }
  }
}
