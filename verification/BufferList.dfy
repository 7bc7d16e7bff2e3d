/**
 The intrusive circular list underneath the object store's buffer lists: a sentinel
 hook, a singly linked ring through it, and a pointer to the last node; and the buffer
 list built on it, which keeps the total length and the number of nodes beside the ring.
 */
module BufferList {
  import opened Bytes
  import opened Options

  class Hook {
    const data: bytes
    var next: Hook?

    constructor (content: bytes)
      ensures data == content
    {
      data, next := content, null;
    }
  }

  ghost predicate Distinct(s: seq<Hook>) {
    forall i, j :: 0 <= i < j < |s| ==> s[i] != s[j]
  }

  ghost predicate Disjoint(s: seq<Hook>, t: seq<Hook>) {
    forall i, j :: 0 <= i < |s| && 0 <= j < |t| ==> s[i] != t[j]
  }

  lemma DistinctConcat(s: seq<Hook>, t: seq<Hook>)
    requires Distinct(s) && Distinct(t) && Disjoint(s, t)
    ensures Distinct(s + t)
  {
  }

  class Buffers {
    const root: Hook
    var tail: Hook
    // the sentinel, then the nodes in order
    ghost var ring: seq<Hook>

    ghost predicate Valid()
      reads this, ring
    {
      && |ring| > 0 && ring[0] == root && ring[|ring| - 1] == tail
      && Distinct(ring)
      && (forall i :: 0 <= i < |ring| - 1 ==> ring[i].next == ring[i + 1])
      && tail.next == root
    }

    ghost function Nodes(): seq<Hook>
      reads this, ring
      requires Valid()
    {
      ring[1..]
    }

    constructor ()
      ensures Valid() && Nodes() == [] && fresh(root)
    {
      root := new Hook([]);
      tail := root;
      ring := [root];
      new;
      root.next := root;
    }

    method Empty() returns (b: bool)
      requires Valid()
      ensures b <==> Nodes() == []
    {
      b := tail == root;
    }

    method PushBack(item: Hook)
      requires Valid() && item !in ring
      modifies this, ring, item
      ensures Valid() && ring == old(ring) + [item]
    {
      item.next := root;
      tail.next := item;
      tail := item;
      ring := ring + [item];
    }

    method PushFront(item: Hook)
      requires Valid() && item !in ring
      modifies this, ring, item
      ensures Valid() && ring == [root, item] + old(ring)[1..]
    {
      item.next := root.next;
      root.next := item;
      tail := if tail == root then item else tail;
      ring := [root, item] + ring[1..];
    }

    /** `it` is the sentinel or a node; inserting after the sentinel is inserting in front. */
    method InsertAfter(it: Hook, item: Hook, ghost k: nat)
      requires Valid() && item !in ring
      requires k < |ring| && ring[k] == it
      modifies this, ring, item
      ensures Valid() && ring == old(ring)[..k + 1] + [item] + old(ring)[k + 1..]
    {
      item.next := it.next;
      it.next := item;
      root.next := if it == root then item else root.next;
      tail := if tail == it then item else tail;
      ring := ring[..k + 1] + [item] + ring[k + 1..];
    }

    method EraseAfter(it: Hook, ghost k: nat) returns (after: Hook?)
      requires Valid()
      requires k + 1 < |ring| && ring[k] == it
      modifies this, ring
      ensures Valid() && ring == old(ring)[..k + 1] + old(ring)[k + 2..]
      ensures after == ring[if k + 1 < |ring| then k + 1 else 0]
    {
      assert it.next == ring[k + 1];
      assert ring[k + 1].next == if k + 2 < |ring| then ring[k + 2] else root;
      var toErase := it.next;
      it.next := toErase.next;
      root.next := if root.next == toErase then toErase.next else root.next;
      tail := if tail == toErase then it else tail;
      ring := ring[..k + 1] + ring[k + 2..];
      after := it.next;
    }

    method SpliceBack(other: Buffers)
      requires Valid() && other.Valid()
      requires this != other && Disjoint(ring, other.ring)
      modifies this, ring, other, other.ring
      ensures Valid() && other.Valid()
      ensures ring == old(ring) + old(other.ring)[1..]
      ensures other.Nodes() == []
    {
      if other.tail == other.root {
        assert other.ring == [other.root];
        return;
      }
      assert other.root.next == other.ring[1];
      DistinctConcat(ring, other.ring[1..]);
      ghost var mine, theirs := ring, other.ring;
      other.tail.next := root;
      tail.next := other.root.next;
      tail := other.tail;
      other.root.next := other.root;
      other.tail := other.root;
      ring := mine + theirs[1..];
      other.ring := [other.root];
      assert forall i :: |mine| <= i < |ring| ==> ring[i] == theirs[i - |mine| + 1];
    }

    method Swap(other: Buffers)
      requires Valid() && other.Valid()
      requires this != other && Disjoint(ring, other.ring)
      modifies this, ring, other, other.ring
      ensures Valid() && other.Valid()
      ensures ring == [root] + old(other.ring)[1..]
      ensures other.ring == [other.root] + old(ring)[1..]
    {
      ghost var mine, theirs := ring, other.ring;
      DistinctConcat([root], theirs[1..]);
      DistinctConcat([other.root], mine[1..]);
      assert |mine| > 1 ==> root.next == mine[1];
      assert |theirs| > 1 ==> other.root.next == theirs[1];
      var copyRootNext := root.next;
      root.next := if other.root.next == other.root then root else other.root.next;
      other.root.next := if copyRootNext == root then other.root else copyRootNext;
      var copyTail := tail;
      tail := if other.tail == other.root then root else other.tail;
      other.tail := if copyTail == root then other.root else copyTail;
      Seal(theirs[1..]);
      other.Seal(mine[1..]);
    }

    /** Closes a chain of nodes hanging off the sentinel into a ring. */
    method Seal(ghost nodes: seq<Hook>)
      requires Distinct([root] + nodes)
      requires tail == if nodes == [] then root else nodes[|nodes| - 1]
      requires nodes != [] ==> root.next == nodes[0]
      requires forall i :: 0 <= i < |nodes| - 1 ==> nodes[i].next == nodes[i + 1]
      modifies this`ring, tail
      ensures Valid() && ring == [root] + nodes
    {
      tail.next := root;
      ring := [root] + nodes;
    }

    /** Takes over all the nodes of `other`, which is left empty. */
    constructor Moved(other: Buffers)
      requires other.Valid()
      modifies other, other.ring
      ensures Valid() && fresh(root) && Nodes() == old(other.Nodes())
      ensures other.Valid() && other.Nodes() == []
    {
      var sentinel := new Hook([]);
      root := sentinel;
      tail := if other.tail == other.root then sentinel else other.tail;
      ring := [];
      new;
      ghost var theirs := other.ring;
      assert |theirs| > 1 ==> other.root.next == theirs[1];
      root.next := if other.root.next == other.root then root else other.root.next;
      other.root.next := other.root;
      other.tail := other.root;
      other.ring := [other.root];
      Seal(theirs[1..]);
    }

    /** Visits every node once to dispose of it, and leaves the list empty. */
    method ClearAndDispose() returns (disposed: seq<Hook>)
      requires Valid()
      modifies this, root
      ensures Valid() && Nodes() == []
      ensures disposed == old(Nodes())
    {
      disposed := [];
      var it := root.next;
      while it != root
        invariant |disposed| < |ring| && disposed == ring[1..|disposed| + 1]
        invariant it == if |disposed| + 1 < |ring| then ring[|disposed| + 1] else root
        decreases |ring| - |disposed|
      {
        ghost var k := |disposed| + 1;
        assert k < |ring| && it == ring[k];
        assert it.next == if k + 1 < |ring| then ring[k + 1] else root;
        var node := it;
        it := it.next;
        disposed := disposed + [node];
        assert disposed == ring[1..k + 1];
      }
      root.next := root;
      tail := root;
      ring := [root];
    }

    /** Move assignment: drops the own nodes and takes over the other's; onto itself, nothing happens. */
    method MoveAssign(other: Buffers)
      requires Valid() && other.Valid()
      requires this == other || Disjoint(ring, other.ring)
      modifies this, ring, other, other.ring
      ensures Valid() && other.Valid()
      ensures this == other ==> ring == old(ring)
      ensures this != other ==> Nodes() == old(other.Nodes()) && other.Nodes() == [] && Disjoint(ring, other.ring)
    {
      if other != this {
        var _ := ClearAndDispose();
        assert ring == [root];
        Swap(other);
      }
    }
  }

  // ----- The buffer list -----

  ghost function Flatten(nodes: seq<Hook>): bytes {
    if nodes == [] then [] else Flatten(nodes[..|nodes| - 1]) + nodes[|nodes| - 1].data
  }

  lemma {:induction false} FlattenConcat(s: seq<Hook>, t: seq<Hook>)
    ensures Flatten(s + t) == Flatten(s) + Flatten(t)
  {
    if t == [] {
      assert s + t == s;
    } else {
      assert (s + t)[..|s + t| - 1] == s + t[..|t| - 1];
      FlattenConcat(s, t[..|t| - 1]);
    }
  }

  function AddU32(x: nat, y: nat): nat {
    (x + y) % TWO32
  }

  lemma AddU32Total(total: nat, extra: nat)
    ensures AddU32(total % TWO32, extra) == (total + extra) % TWO32
  {
  }

  lemma FlattenSnoc(nodes: seq<Hook>, node: Hook)
    ensures Flatten(nodes + [node]) == Flatten(nodes) + node.data
  {
    assert (nodes + [node])[..|nodes|] == nodes;
  }

  /** The counters are 32-bit, so they are the true totals modulo 2^32. */
  class List {
    const buffers: Buffers
    var len: nat
    var num: nat

    ghost predicate Valid()
      reads this, buffers, buffers.ring
    {
      && buffers.Valid()
      && len == |Contents()| % TWO32
      && num == |buffers.Nodes()| % TWO32
    }

    ghost function Contents(): bytes
      reads this, buffers, buffers.ring
      requires buffers.Valid()
    {
      Flatten(buffers.Nodes())
    }

    constructor ()
      ensures Valid() && fresh(buffers) && fresh(buffers.ring) && Contents() == []
    {
      buffers := new Buffers();
      len, num := 0, 0;
    }

    /** Adopts a node, empty or not. */
    method PushBackNode(node: Hook)
      requires Valid() && node !in buffers.ring
      modifies this, buffers, buffers.ring, node
      ensures Valid() && buffers.ring == old(buffers.ring) + [node]
      ensures Contents() == old(Contents()) + node.data
    {
      ghost var before := buffers.Nodes();
      AddU32Total(|Flatten(before)|, |node.data|);
      AddU32Total(|before|, 1);
      FlattenSnoc(before, node);
      len, num := AddU32(len, |node.data|), AddU32(num, 1);
      buffers.PushBack(node);
      assert buffers.Nodes() == before + [node];
    }

    /** Appends a buffer through a new node; an empty buffer adds no node. */
    method PushBack(data: bytes)
      requires Valid()
      modifies this, buffers, buffers.ring
      ensures Valid() && Contents() == old(Contents()) + data
      ensures |buffers.Nodes()| == old(|buffers.Nodes()|) + if data == [] then 0 else 1
      ensures fresh(set h | h in buffers.ring && h !in old(buffers.ring))
    {
      if |data| == 0 {
        return;
      }
      var node := new Hook(data);
      PushBackNode(node);
    }

    method Clear()
      requires buffers.Valid()
      modifies this, buffers, buffers.root
      ensures Valid() && buffers.Nodes() == []
    {
      var _ := buffers.ClearAndDispose();
      len, num := 0, 0;
    }

    /** Move assignment. Moving a list onto itself empties it. */
    method MoveAssign(other: List)
      requires Valid() && other.Valid()
      requires this == other || (buffers != other.buffers && Disjoint(buffers.ring, other.buffers.ring))
      modifies this, buffers, buffers.ring, other, other.buffers, other.buffers.ring
      ensures Valid() && other.Valid()
      ensures other.buffers.Nodes() == []
      ensures this != other ==> buffers.Nodes() == old(other.buffers.Nodes())
    {
      buffers.MoveAssign(other.buffers);
      len, num := other.len, other.num;
      other.Clear();
    }

    /**
     Every byte of the list, in order. The output is sized by the 32-bit length; none stands
     for a copy past its end, which happens exactly for lists of 2^32 bytes and more.
     */
    method ToVec() returns (output: Option<bytes>)
      requires Valid()
      ensures output.Some? <==> |Contents()| < TWO32
      ensures output.Some? ==> output.value == Contents() && |output.value| == len
    {
      var out := new byte[len](_ => 0);
      var at := 0;
      var cur := buffers.root.next;
      ghost var k := 0;
      assert buffers.ring[1..][..0] == [];
      while cur != buffers.root
        invariant 0 <= k < |buffers.ring|
        invariant cur == if k + 1 < |buffers.ring| then buffers.ring[k + 1] else buffers.root
        invariant at == |Flatten(buffers.ring[1..][..k])| <= out.Length
        invariant out[..at] == Flatten(buffers.ring[1..][..k])
        decreases |buffers.ring| - k
      {
        ghost var nodes := buffers.ring[1..];
        assert nodes[..k + 1][..k] == nodes[..k];
        PrefixFits(nodes, k + 1);
        if at + |cur.data| > out.Length {
          return None;
        }
        CopyN(cur.data, out, at);
        at := at + |cur.data|;
        cur := cur.next;
        k := k + 1;
      }
      assert buffers.ring[1..][..k] == buffers.ring[1..];
      output := Some(out[..]);
    }
  }

  lemma PrefixFits(nodes: seq<Hook>, k: nat)
    requires k <= |nodes|
    ensures |Flatten(nodes[..k])| <= |Flatten(nodes)|
  {
    FlattenConcat(nodes[..k], nodes[k..]);
    assert nodes == nodes[..k] + nodes[k..];
  }
}
