/** The byte queue: a linked list of partly read and partly filled buffers, followed by a string
    that is not copied until it must be, which together behave as one byte string. */
module ByteQueues {
  import opened Bytes
  import opened Wrappers
  import opened Powers

  const MAX_AUTO_NODE_SIZE: nat := 16384

  function Max(a: nat, b: nat): nat {
    if a < b then b else a
  }

  /** Bytes written at a place, with what is behind them. */
  lemma BehindWritten(before: bytes, after: bytes, at: nat, more: bytes, end: nat)
    requires at + |more| <= end <= |before|
    requires after == before[..at] + more + before[at + |more|..]
    ensures after[at..end] == more + before[at + |more|..end]
  {
  }

  class Node {
    const buf: array<byte>
    var head: nat
    var tail: nat
    var next: Node?

    ghost predicate Valid()
      reads this`head, this`tail
    {
      head <= tail <= buf.Length && buf.Length > 0
    }

    /** The unread bytes. */
    ghost function Content(): bytes
      reads this`head, this`tail, buf
      requires Valid()
    {
      buf[head..tail]
    }

    lemma PartOfContent(from: nat, len: nat)
      requires Valid() && from + len <= tail - head
      ensures buf[head + from..head + from + len] == Content()[from..from + len]
    {
      assert buf[head..tail] == buf[..tail][head..];
      assert buf[head + from..head + from + len] == buf[..tail][head + from..head + from + len];
    }

    ghost predicate Holds(b: bytes)
      reads this`head, this`tail, buf
    {
      Valid() && Content() == b
    }

    predicate Full()
      reads this`tail
    {
      tail == buf.Length
    }

    constructor (maxSize: nat)
      requires maxSize > 0
      ensures Valid() && Holds([]) && head == tail == 0 && next == null && buf.Length == maxSize && fresh(buf)
    {
      buf := new byte[maxSize];
      head, tail, next := 0, 0, null;
    }

    predicate UsedUp()
      reads this`head
    {
      head == buf.Length
    }

    function CurrentSize(): nat
      reads this`head, this`tail
      requires Valid()
    {
      tail - head
    }

    method Clear()
      requires Valid()
      modifies this`head, this`tail
      ensures Valid() && Holds([]) && head == tail == 0 && Content() == []
    {
      head, tail := 0, 0;
    }

    /** Appends as much as fits. */
    method Put(input: bytes) returns (l: nat)
      requires Valid()
      modifies this`tail, buf
      ensures Valid() && l == Min(|input|, buf.Length - old(tail)) && tail == old(tail) + l
      ensures Holds(old(Content()) + input[..l])
    {
      l := Min(|input|, buf.Length - tail);
      ghost var before := buf[head..tail];
      CopyInto(buf, tail, input[..l]);
      assert buf[head..tail] == before;
      tail := tail + l;
    }

    /** Removes up to `max` bytes. */
    method TransferTo(max: nat) returns (piece: bytes)
      requires Valid()
      modifies this`head
      ensures Valid() && head == old(head) + |piece| && |piece| == Min(old(tail - head), max)
      ensures old(Content()) == piece + Content() && Holds(old(Content())[|piece|..])
    {
      var len := Min(tail - head, max);
      piece := buf[head..head + len];
      assert buf[head..tail] == piece + buf[head + len..tail];
      head := head + len;
    }

    /** Puts the last bytes of `input` back in front, as many as were read before. */
    method PutBack(input: bytes) returns (l: nat)
      requires Valid()
      modifies this`head, buf
      ensures Valid() && l == Min(|input|, old(head)) && head == old(head) - l
      ensures Holds(input[|input| - l..] + old(Content()))
    {
      l := Min(|input|, head);
      ghost var before := buf[..];
      var more := input[|input| - l..];
      CopyInto(buf, head - l, more);
      BehindWritten(before, buf[..], head - l, more, tail);
      assert old(buf[head..tail]) == before[head..tail];
      assert buf[head - l..tail] == buf[..][head - l..tail];
      head := head - l;
    }
  }

  /** The contents of the nodes, one behind the other. */
  function InOrder(contents: seq<bytes>): bytes {
    if contents == [] then [] else contents[0] + InOrder(contents[1..])
  }

  lemma {:induction false} InOrderConcat(x: seq<bytes>, y: seq<bytes>)
    ensures InOrder(x + y) == InOrder(x) + InOrder(y)
  {
    if x == [] {
      assert x + y == y;
    } else {
      assert (x + y)[1..] == x[1..] + y;
      InOrderConcat(x[1..], y);
    }
  }

  lemma InOrderOne(b: bytes)
    ensures InOrder([b]) == b
  {
    assert [b][1..] == [];
  }

  /** Appending to the last node. */
  lemma InOrderGrow(contents: seq<bytes>, more: bytes)
    requires contents != []
    ensures var last := |contents| - 1;
      InOrder(contents[last := contents[last] + more]) == InOrder(contents) + more
  {
    hide InOrder;
    var last := |contents| - 1;
    var front := contents[..last];
    assert contents == front + [contents[last]]
      && contents[last := contents[last] + more] == front + [contents[last] + more];
    InOrderConcat(front, [contents[last]]);
    InOrderConcat(front, [contents[last] + more]);
    InOrderOne(contents[last]);
    InOrderOne(contents[last] + more);
  }

  /** Reading from the first node that is not empty. */
  lemma {:induction false} InOrderRead(contents: seq<bytes>, at: nat, n: nat)
    requires at < |contents| && n <= |contents[at]| && forall i :: 0 <= i < at ==> contents[i] == []
    ensures InOrder(contents) == contents[at][..n] + InOrder(contents[at := contents[at][n..]])
  {
    if at == 0 {
      assert contents[at := contents[at][n..]][1..] == contents[1..];
    } else {
      InOrderRead(contents[1..], at - 1, n);
      assert contents[at := contents[at][n..]][1..] == contents[1..][at - 1 := contents[at][n..]];
    }
  }

  lemma {:induction false} InOrderEmpty(contents: seq<bytes>)
    requires forall i :: 0 <= i < |contents| ==> contents[i] == []
    ensures InOrder(contents) == []
  {
    if contents != [] {
      InOrderEmpty(contents[1..]);
    }
  }

  lemma InOrderFirst(contents: seq<bytes>)
    requires contents != []
    ensures InOrder(contents) == contents[0] + InOrder(contents[1..])
  {
  }

  /** The nodes and their buffers. */
  ghost function Footprint(nodes: seq<Node>): set<object> {
    (set n | n in nodes :: n as object) + (set n | n in nodes :: n.buf as object)
  }

  lemma FootprintConcat(x: seq<Node>, y: seq<Node>)
    ensures Footprint(x + y) == Footprint(x) + Footprint(y)
  {
  }

  lemma FootprintOne(n: Node)
    ensures Footprint([n]) == {n, n.buf}
  {
  }

  /** All nodes and all buffers are different. */
  ghost predicate Apart(nodes: seq<Node>) {
    forall i, j :: 0 <= i < j < |nodes| ==> nodes[i] != nodes[j] && nodes[i].buf != nodes[j].buf
  }

  ghost predicate Succeeding(nodes: seq<Node>)
    reads nodes`next
  {
    forall i, j :: 0 <= i < j < |nodes| && j == i + 1 ==> nodes[i].next == nodes[j]
  }

  /** The nodes are different and linked in order. */
  ghost predicate Links(nodes: seq<Node>)
    reads nodes`next
  {
    Apart(nodes) && Succeeding(nodes) && (nodes != [] ==> nodes[|nodes| - 1].next == null)
  }

  lemma ApartAtEnd(nodes: seq<Node>, n: Node)
    requires Apart(nodes) && forall m :: m in nodes ==> m != n && m.buf != n.buf
    ensures Apart(nodes + [n])
  {
    var all := nodes + [n];
    forall i, j | 0 <= i < j < |all|
      ensures all[i] != all[j] && all[i].buf != all[j].buf
    {
      assert all[i] == nodes[i] && nodes[i] in nodes;
    }
  }

  lemma SucceedingAtEnd(nodes: seq<Node>, n: Node)
    requires Succeeding(nodes) && nodes != [] && nodes[|nodes| - 1].next == n
    ensures Succeeding(nodes + [n])
  {
    var all := nodes + [n];
    forall i, j | 0 <= i < j < |all| && j == i + 1
      ensures all[i].next == all[j]
    {
      assert all[i] == nodes[i];
    }
  }

  /** A new link at the end leaves those before it. */
  twostate lemma StillSucceeding(nodes: seq<Node>)
    requires nodes != [] && Apart(nodes)
    requires old(Succeeding(nodes))
    requires forall n :: n in nodes && n != nodes[|nodes| - 1] ==> n.next == old(n.next)
    ensures Succeeding(nodes)
  {
    forall i, j | 0 <= i < j < |nodes| && j == i + 1
      ensures nodes[i].next == nodes[j]
    {
      assert nodes[i] in nodes && nodes[i] != nodes[|nodes| - 1];
    }
  }

  /** The last node is none of those before it. */
  lemma LastApart(nodes: seq<Node>)
    requires nodes != [] && Apart(nodes)
    ensures var front, last := nodes[..|nodes| - 1], nodes[|nodes| - 1];
      nodes == front + [last] && last !in front && last.buf !in set n | n in front :: n.buf
  {
    var front, last := nodes[..|nodes| - 1], nodes[|nodes| - 1];
    forall n | n in front
      ensures n != last && n.buf != last.buf
    {
      var i :| 0 <= i < |front| && front[i] == n;
      assert nodes[i] == n;
    }
    assert nodes == front + [last];
  }

  /** The nodes hold their contents, and all but the last are full. */
  ghost predicate Filled(nodes: seq<Node>, contents: seq<bytes>)
    reads nodes`head, nodes`tail, set n | n in nodes :: n.buf
  {
    && |nodes| == |contents|
    && (forall i :: 0 <= i < |nodes| ==> nodes[i].Holds(contents[i]))
    && (forall i :: 0 <= i < |nodes| - 1 ==> nodes[i].Full())
  }

  /** The nodes before the `at`-th are read to the end, and those behind it are unread. */
  ghost predicate ReadUpTo(nodes: seq<Node>, at: nat)
    reads nodes`head
  {
    && (forall i :: 0 <= i < at && i < |nodes| ==> nodes[i].UsedUp())
    && (forall i :: at < i < |nodes| ==> nodes[i].head == 0)
  }

  lemma ReadUpToAtEnd(nodes: seq<Node>, at: nat, n: Node)
    requires ReadUpTo(nodes, at) && at < |nodes| && n.head == 0
    ensures ReadUpTo(nodes + [n], at)
  {
    hide Node.UsedUp;
    var all := nodes + [n];
    assert forall i :: 0 <= i < |nodes| ==> all[i] == nodes[i];
  }

  lemma LinksInFront(n: Node, nodes: seq<Node>)
    requires nodes != [] && Links(nodes) && n.next == nodes[0]
    requires forall m :: m in nodes ==> m != n && m.buf != n.buf
    ensures Links([n] + nodes)
  {
    var all := [n] + nodes;
    forall i, j | 0 <= i < j < |all|
      ensures all[i] != all[j] && all[i].buf != all[j].buf && (j == i + 1 ==> all[i].next == all[j])
    {
      assert all[j] == nodes[j - 1];
      if i > 0 {
        assert all[i] == nodes[i - 1];
      }
    }
  }

  lemma FilledFront(nodes: seq<Node>, contents: seq<bytes>)
    requires nodes != [] && Filled(nodes, contents)
    ensures Filled(nodes[..|nodes| - 1], contents[..|nodes| - 1])
    ensures |nodes| > 1 ==> nodes[|nodes| - 2].Full()
  {
    hide Node.Holds, Node.Full;
  }

  lemma FilledRest(nodes: seq<Node>, contents: seq<bytes>)
    requires nodes != [] && Filled(nodes, contents)
    ensures Filled(nodes[1..], contents[1..])
  {
    hide Node.Holds, Node.Full;
  }

  lemma FilledAtEnd(nodes: seq<Node>, contents: seq<bytes>, n: Node, b: bytes)
    requires Filled(nodes, contents) && (nodes != [] ==> nodes[|nodes| - 1].Full()) && n.Holds(b)
    ensures Filled(nodes + [n], contents + [b])
  {
    hide Node.Holds, Node.Full;
    var all, c := nodes + [n], contents + [b];
    forall i | 0 <= i < |all|
      ensures all[i].Holds(c[i]) && (i < |all| - 1 ==> all[i].Full())
    {
      if i < |nodes| {
        assert all[i] == nodes[i] && c[i] == contents[i];
      }
    }
  }

  lemma FilledInFront(n: Node, b: bytes, nodes: seq<Node>, contents: seq<bytes>)
    requires nodes != [] && Filled(nodes, contents) && n.Holds(b) && n.Full()
    ensures Filled([n] + nodes, [b] + contents)
  {
    hide Node.Holds, Node.Full;
    var all, c := [n] + nodes, [b] + contents;
    forall i | 0 <= i < |all|
      ensures all[i].Holds(c[i]) && (i < |all| - 1 ==> all[i].Full())
    {
      if i > 0 {
        assert all[i] == nodes[i - 1] && c[i] == contents[i - 1];
      }
    }
  }

  /** Reading from the node at `at` alone keeps the others as they are. */
  twostate lemma OneNodeRead(nodes: seq<Node>, new contents: seq<bytes>, new at: nat, new rest: bytes)
    requires at < |nodes| && Apart(nodes) && nodes[at].Holds(rest)
    requires forall n :: n in nodes && n != nodes[at] ==> n.head == old(n.head)
    requires forall n :: n in nodes ==> n.tail == old(n.tail) && n.buf[..] == old(n.buf[..])
    ensures old(Filled(nodes, contents)) ==> Filled(nodes, contents[at := rest])
    ensures old(ReadUpTo(nodes, at)) ==> ReadUpTo(nodes, at)
  {
    forall i | 0 <= i < |nodes| && i != at
      ensures nodes[i].head == old(nodes[i].head)
    {
      assert nodes[i] in nodes && nodes[i] != nodes[at];
    }
    if old(Filled(nodes, contents)) {
      forall i | 0 <= i < |nodes|
        ensures nodes[i].Holds(contents[at := rest][i]) && (i < |nodes| - 1 ==> nodes[i].Full())
      {
        var n := nodes[i];
        assert n in nodes && old(n.Holds(contents[i])) && (i < |nodes| - 1 ==> old(n.Full()));
        if i != at {
          assert n.buf[n.head..n.tail] == n.buf[..][n.head..n.tail];
          assert old(n.buf[n.head..n.tail]) == old(n.buf[..])[n.head..n.tail];
        }
      }
    }
  }

  lemma SingleNode(n: Node)
    requires n.Holds([]) && n.next == null
    ensures Links([n]) && Filled([n], [[]]) && ReadUpTo([n], 0)
  {
    hide Node.Holds;
  }

  lemma OnceMore(n: nat, k: nat)
    ensures Shl(n, k + 1) == 2 * Shl(n, k)
    ensures Shl(n, 0) == n
  {
  }

  class ByteQueue {
    var head: Node
    var tail: Node
    var nodeSize: nat
    var autoNodeSize: bool

    /** The string that has been put but not copied, and whether its memory may be changed. */
    var lazy: bytes
    var lazyModifiable: bool

    /** The nodes in order, and the unread bytes of each. */
    ghost var nodes: seq<Node>
    ghost var contents: seq<bytes>

    ghost predicate Linked()
      reads this`head, this`tail, this`nodes, nodes`next
    {
      nodes != [] && head == nodes[0] && tail == nodes[|nodes| - 1] && Links(nodes)
    }

    /** The nodes are linked and filled, and read up to the `at`-th. */
    ghost predicate Chain(at: nat)
      reads this`head, this`tail, this`nodes, this`contents, this`nodeSize, nodes, Footprint(nodes)
    {
      Linked() && nodeSize >= 1 && at < |nodes| && Filled(nodes, contents) && ReadUpTo(nodes, at)
    }

    ghost predicate Valid()
      reads this`head, this`tail, this`nodes, this`contents, this`nodeSize, nodes, Footprint(nodes)
    {
      Chain(0) && !nodes[0].UsedUp()
    }

    /** Everything that belongs to the queue. */
    ghost function Repr(): set<object>
      reads this`nodes
    {
      {this} + Footprint(nodes)
    }

    /** The queue as one byte string. */
    ghost function Contents(): bytes
      reads this`contents, this`lazy
    {
      InOrder(contents) + lazy
    }

    /** What a valid queue holds: the unread parts of its nodes' buffers, from the head along the links to
        the tail, and the lazy string. */
    lemma HeldInNodes()
      requires Valid()
      ensures |nodes| == |contents| >= 1 && nodes[0] == head && nodes[|nodes| - 1] == tail
      ensures forall i :: 0 <= i < |nodes| ==>
        && nodes[i].head <= nodes[i].tail <= nodes[i].buf.Length
        && contents[i] == nodes[i].buf[nodes[i].head..nodes[i].tail]
      ensures forall i :: 0 <= i < |nodes| - 1 ==> nodes[i].next == nodes[i + 1]
      ensures nodes[|nodes| - 1].next == null
      ensures Contents() == InOrder(contents) + lazy
      ensures InOrder([]) == [] && InOrder(contents) == contents[0] + InOrder(contents[1..])
    {
      hide Apart, Footprint;
      forall i | 0 <= i < |nodes| - 1
        ensures nodes[i].next == nodes[i + 1]
      {
        var j := i + 1;
        assert 0 <= i < j < |nodes| && j == i + 1;
      }
      forall i | 0 <= i < |nodes|
        ensures nodes[i].Holds(contents[i])
      {
      }
    }

    constructor (size: nat)
      ensures Valid() && Contents() == [] && fresh(Repr() - {this})
      ensures (autoNodeSize <==> size == 0) && nodes == [head]
      ensures nodeSize == head.buf.Length == if size == 0 then 256 else size
    {
      hide InOrder, Links, Filled, ReadUpTo, Node.Holds;
      autoNodeSize := size == 0;
      nodeSize := if size == 0 then 256 else size;
      var node := new Node(if size == 0 then 256 else size);
      head, tail, lazy, lazyModifiable := node, node, [], false;
      nodes, contents := [node], [[]];
      new;
      SingleNode(head);
      InOrderOne([]);
    }

    /** Appends to the last node what fits. */
    method PutTail(input: bytes) returns (len: nat)
      requires Valid()
      modifies this`contents, tail`tail, tail.buf
      ensures Valid() && len <= |input| && (len < |input| ==> tail.Full())
      ensures len == |input| || old(tail.tail) + |input| > tail.buf.Length
      ensures InOrder(contents) == old(InOrder(contents)) + input[..len]
      ensures tail.tail == old(tail.tail) + len
    {
      hide InOrder, Node.Holds, Filled, Footprint, Apart, Succeeding;
      LastNode();
      SameCount();
      ghost var last := |nodes| - 1;
      ghost var front, rest := nodes[..last], contents[..last];
      LastApart(nodes);
      FilledFront(nodes, contents);
      len := tail.Put(input);
      FilledAtEnd(front, rest, tail, contents[last] + input[..len]);
      InOrderGrow(contents, input[..len]);
      contents := contents[last := contents[last] + input[..len]];
      assert contents == rest + [contents[last]];
    }

    lemma LastNode()
      requires Valid()
      ensures tail.Valid() && tail.Content() == contents[|nodes| - 1] && tail == nodes[|nodes| - 1]
    {
    }

    /** A new last node behind a full one. */
    method AppendNode(size: nat)
      requires Valid() && size > 0 && tail.Full()
      modifies this`tail, this`nodes, this`contents, tail`next
      ensures Valid() && nodes == old(nodes) + [tail] && fresh(tail) && fresh(tail.buf)
      ensures tail.tail == 0 && tail.buf.Length == size
      ensures InOrder(contents) == old(InOrder(contents))
    {
      hide InOrder, Node.Holds, Node.UsedUp, Filled, Footprint, Apart, Succeeding, ReadUpTo;
      SameCount();
      ghost var before := nodes;
      var node := new Node(size);
      ReadUpToAtEnd(nodes, 0, node);
      FilledAtEnd(nodes, contents, node, []);
      tail.next := node;
      StillSucceeding(nodes);
      tail := node;
      ApartAtEnd(before, node);
      SucceedingAtEnd(before, node);
      InOrderConcat(contents, [[]]);
      InOrderOne([]);
      nodes, contents := nodes + [node], contents + [[]];
      assert Linked() && Filled(nodes, contents) && ReadUpTo(nodes, 0);
    }

    /** The next node size: doubled, and doubled again until it holds what is left or reaches the limit. */
    method GrowNodeSize(length: nat) returns (ghost k: nat)
      requires Valid()
      modifies this`nodeSize
      ensures Valid()
      ensures !autoNodeSize || old(nodeSize) >= 16384 ==> nodeSize == old(nodeSize)
      ensures autoNodeSize && old(nodeSize) < 16384 ==>
        && k >= 1 && nodeSize == Shl(old(nodeSize), k) && (nodeSize >= length || nodeSize >= 16384)
        && (k > 1 ==> nodeSize < 2 * length && nodeSize < 2 * 16384)
    {
      hide Filled, Linked, Shl;
      k := 0;
      if autoNodeSize && nodeSize < MAX_AUTO_NODE_SIZE {
        OnceMore(nodeSize, 0);
        nodeSize := nodeSize * 2;
        k := 1;
        while nodeSize < length && nodeSize < MAX_AUTO_NODE_SIZE
          invariant nodeSize >= 1 && k >= 1 && nodeSize == Shl(old(nodeSize), k)
          invariant k > 1 ==> nodeSize < 2 * length && nodeSize < 2 * MAX_AUTO_NODE_SIZE
          decreases MAX_AUTO_NODE_SIZE - nodeSize
        {
          OnceMore(old(nodeSize), k);
          nodeSize := nodeSize * 2;
          k := k + 1;
        }
      }
    }

    /** Appends, behind the lazy string if there is one. */
    method Put2(input: bytes)
      requires Valid()
      modifies Repr()
      ensures Valid() && Contents() == old(Contents()) + input && lazy == []
      ensures fresh(Repr() - old(Repr()))
    {
      hide InOrder, Chain;
      if lazy != [] {
        FinalizeLazyPut();
      }
      PutCopied(input);
    }

    method PutCopied(input: bytes)
      requires Valid() && lazy == []
      modifies Repr()
      ensures Valid() && Contents() == old(Contents()) + input && lazy == []
      ensures fresh(Repr() - old(Repr()))
      ensures input != [] ==> tail.tail > 0
    {
      hide InOrder, Chain, Repr;
      var rest := input;
      TailIsMine();
      var len: nat := PutTail(rest);
      while len < |rest|
        invariant Valid() && len <= |rest| && lazy == []
        invariant len == |rest| > 0 ==> tail.tail > 0
        invariant input != [] ==> rest != []
        invariant len < |rest| ==> tail.Full()
        invariant InOrder(contents) + rest[len..] == old(InOrder(contents)) + input
        invariant fresh(Repr() - old(Repr()))
        decreases |rest| - len
      {
        rest := rest[len..];
        TailIsMine();
        Enlarge(|rest|);
        TailIsMine();
        len := PutTail(rest);
      }
      assert rest[len..] == [];
    }

    /** A new last node that holds what is left. */
    method Enlarge(length: nat)
      requires Valid() && length > 0 && tail.Full()
      modifies Repr()
      ensures Valid() && tail.tail == 0 && tail.buf.Length == if nodeSize < length then length else nodeSize
      ensures InOrder(contents) == old(InOrder(contents)) && lazy == old(lazy)
      ensures Repr() == old(Repr()) + {tail, tail.buf} && fresh(tail) && fresh(tail.buf)
    {
      hide InOrder, Chain, Footprint;
      TailIsMine();
      ghost var before := nodes;
      var k := GrowNodeSize(length);
      AppendNode(Max(nodeSize, length));
      FootprintConcat(before, [tail]);
      FootprintOne(tail);
    }

    lemma TailIsMine()
      requires Valid()
      ensures this in Repr() && tail in Repr() && tail.buf in Repr()
    {
      hide Filled;
      assert tail == nodes[|nodes| - 1] && nodes[|nodes| - 1] in nodes;
    }

    method FinalizeLazyPut()
      requires Valid()
      modifies Repr()
      ensures Valid() && Contents() == old(Contents()) && lazy == []
      ensures fresh(Repr() - old(Repr()))
      ensures old(lazy) != [] ==> tail.tail > 0
    {
      hide InOrder, Chain;
      var waiting := lazy;
      lazy := [];
      if waiting != [] {
        PutCopied(waiting);
      }
    }

    lemma NodeIsMine(at: nat)
      requires Chain(at)
      ensures this in Repr() && nodes[at] in Repr() && nodes[at].buf in Repr() && head in Repr() && head.buf in Repr()
      ensures |nodes| > 0 && head == nodes[0] && this !in Footprint(nodes)
    {
      assert nodes[at] in nodes && nodes[0] in nodes;
    }

    /** A node that is read to the end holds nothing. */
    lemma UsedIsEmpty(at: nat)
      requires Chain(at)
      ensures forall i :: 0 <= i < at ==> contents[i] == []
    {
      forall i | 0 <= i < at
        ensures contents[i] == []
      {
        assert nodes[i].Holds(contents[i]) && nodes[i].UsedUp();
      }
    }

    /** Reads from the first node that still holds something; what does not stop here, uses it up. */
    method ReadNode(ghost at: nat, node: Node, max: nat) returns (piece: bytes)
      requires Chain(at) && node == nodes[at]
      modifies this`contents, node`head
      ensures Chain(at) && |piece| <= max && node.head == old(node.head) + |piece|
      ensures old(InOrder(contents)) == piece + InOrder(contents)
      ensures |piece| < max ==> contents[at] == [] && (at + 1 < |nodes| ==> node.UsedUp())
    {
      hide InOrder, Footprint, Node.Holds, Filled, ReadUpTo, Apart, Succeeding;
      UsedIsEmpty(at);
      NodeHolds(at);
      piece := node.TransferTo(max);
      ghost var all, rest := contents, contents[at][|piece|..];
      InOrderRead(all, at, |piece|);
      OneNodeRead(nodes, all, at, rest);
      contents := all[at := rest];
    }

    lemma NodeAt(at: nat)
      requires Valid() && at < |nodes|
      ensures nodes[at].Valid() && |nodes| == |contents| && nodes[at].Content() == contents[at]
      ensures nodes[at].next == if at + 1 < |nodes| then nodes[at + 1] else null
    {
      assert nodes[at].Holds(contents[at]);
    }

    lemma Advance(at: nat)
      requires Chain(at) && at + 1 < |nodes| && nodes[at].UsedUp()
      ensures Chain(at + 1)
    {
    }

    lemma NodeHolds(at: nat)
      requires Chain(at)
      ensures nodes[at].Valid() && nodes[at].Content() == contents[at] && at < |contents|
      ensures at + 1 < |nodes| ==> nodes[at].Full()
    {
      assert nodes[at].Holds(contents[at]);
    }

    /** Reads from node to node; what is left over when the nodes are empty is returned. */
    method ReadNodes(max: nat) returns (out: bytes, left: nat, ghost at: nat)
      requires Valid()
      modifies Repr()
      ensures Chain(at) && nodes == old(nodes) && lazy == old(lazy) && lazyModifiable == old(lazyModifiable)
      ensures old(InOrder(contents)) == out + InOrder(contents) && |out| + left == max
      ensures left > 0 ==> InOrder(contents) == []
    {
      hide InOrder, Chain, Footprint;
      out, left, at := [], max, 0;
      var current: Node? := head;
      HeadFirst();
      while left > 0 && current != null
        invariant Chain(at) && nodes == old(nodes) && lazy == old(lazy) && lazyModifiable == old(lazyModifiable)
        invariant old(InOrder(contents)) == out + InOrder(contents) && |out| + left == max
        invariant left > 0 && current != null ==> at < |nodes| && current == nodes[at]
        invariant left > 0 && current == null ==> InOrder(contents) == []
        decreases if left > 0 && current != null then |nodes| - at else 0
      {
        NodeIsMine(at);
        var piece := ReadNode(at, current, left);
        out, left := out + piece, left - |piece|;
        NextNode(at);
        current := current.next;
        if left > 0 {
          if current == null {
            AllRead(at);
          } else {
            Advance(at);
            at := at + 1;
          }
        }
      }
    }

    lemma HeadHolds()
      requires Valid()
      ensures head.Valid() && contents != [] && head.Content() == contents[0]
    {
      assert nodes[0].Holds(contents[0]);
    }

    lemma HeadFirst()
      requires Valid()
      ensures head == nodes[0] && |nodes| > 0
    {
    }

    lemma NextNode(at: nat)
      requires Chain(at)
      ensures at < |nodes| == |contents|
      ensures nodes[at].next == if at + 1 < |nodes| then nodes[at + 1] else null
    {
    }

    lemma AllRead(at: nat)
      requires Chain(at) && at + 1 == |nodes| && contents[at] == []
      ensures InOrder(contents) == []
    {
      UsedIsEmpty(at);
      InOrderEmpty(contents);
    }

    /** Removes the first node once it is read to the end. */
    method DropHead(ghost at: nat)
      requires Chain(at) && head != tail && head.UsedUp()
      modifies this`head, this`nodes, this`contents
      ensures Chain(if at > 0 then at - 1 else 0)
      ensures nodes == old(nodes)[1..] && InOrder(contents) == old(InOrder(contents))
    {
      hide InOrder, Footprint, Filled, Node.Holds;
      FilledRest(nodes, contents);
      HeadEmpty(at);
      assert |nodes| > 1 && nodes[0].next == nodes[1];
      InOrderFirst(contents);
      assert [] + InOrder(contents[1..]) == InOrder(contents[1..]);
      head := head.next;
      nodes, contents := nodes[1..], contents[1..];
    }

    lemma HeadEmpty(at: nat)
      requires Chain(at) && head.UsedUp()
      ensures contents != [] && contents[0] == [] && |nodes| == |contents|
    {
      assert nodes[0].Holds(contents[0]);
    }

    lemma Different(at: nat)
      requires Chain(at)
      ensures head == tail <==> |nodes| == 1
      ensures at > 0 ==> head.UsedUp() && head != tail
      ensures |nodes| > 0
    {
    }

    lemma Shrunk(before: seq<Node>)
      requires before != []
      ensures Footprint(before[1..]) <= Footprint(before)
    {
    }

    method CleanupUsedNodes(ghost at: nat)
      requires Chain(at)
      modifies Repr()
      ensures Valid() && InOrder(contents) == old(InOrder(contents))
      ensures lazy == old(lazy) && lazyModifiable == old(lazyModifiable) && Repr() <= old(Repr())
    {
      hide InOrder, Chain, Footprint, Linked;
      ghost var k := at;
      Different(k);
      while head != tail && head.UsedUp()
        invariant Chain(k) && InOrder(contents) == old(InOrder(contents))
        invariant lazy == old(lazy) && lazyModifiable == old(lazyModifiable) && Repr() <= old(Repr())
        invariant k > 0 ==> head != tail && head.UsedUp()
        decreases |nodes|
      {
        Different(k);
        Shrunk(nodes);
        DropHead(k);
        k := if k > 0 then k - 1 else 0;
        Different(k);
      }
      NodeIsMine(0);
      ClearHead();
    }

    /** An empty first node starts over. */
    method ClearHead()
      requires Chain(0) && (head == tail || !head.UsedUp())
      modifies head`head, head`tail
      ensures Valid()
    {
      hide InOrder, Footprint;
      assert nodes[0].Holds(contents[0]);
      if head.CurrentSize() == 0 {
        assert |nodes| == 1;
        head.Clear();
        assert nodes[0].Holds(contents[0]);
      }
    }

    /** Removes up to `max` bytes from the front. */
    method TransferTo2(max: nat) returns (out: bytes)
      requires Valid()
      modifies Repr()
      ensures Valid() && old(Contents()) == out + Contents() && |out| == Min(max, |old(Contents())|)
      ensures Repr() <= old(Repr())
    {
      hide InOrder, Chain, Footprint;
      var left: nat;
      ghost var at: nat;
      out, left, at := ReadNodes(max);
      CleanupUsedNodes(at);
      NodeIsMine(0);
      assert old(Contents()) == out + (InOrder(contents) + lazy);
      var len := Min(left, |lazy|);
      if len > 0 {
        assert InOrder(contents) == [] && lazy == lazy[..len] + lazy[len..];
        assert old(Contents()) == out + lazy[..len] + lazy[len..];
        out := out + lazy[..len];
        lazy := lazy[len..];
        assert InOrder(contents) + lazy == lazy;
      }
    }

    /** The first byte, if there is one. */
    method Get() returns (b: Option<byte>)
      requires Valid()
      modifies Repr()
      ensures Valid() && Repr() <= old(Repr())
      ensures if old(Contents()) == [] then b == None && Contents() == []
        else b.Some? && old(Contents()) == [b.value] + Contents()
    {
      hide InOrder, Chain, Footprint;
      HeadFirst();
      NodeIsMine(0);
      var piece := ReadNode(0, head, 1);
      if piece != [] {
        b := Some(piece[0]);
        assert old(Contents()) == [piece[0]] + (InOrder(contents) + lazy);
        NodeIsMine(0);
        if head.UsedUp() {
          CleanupUsedNodes(0);
        }
      } else {
        NodeIsMine(0);
        EmptyHead();
        assert old(Contents()) == [] + lazy == lazy;
        if lazy != [] {
          assert lazy == [lazy[0]] + lazy[1..];
          b := Some(lazy[0]);
          lazy := lazy[1..];
          assert Contents() == [] + lazy == lazy;
        } else {
          b := None;
        }
      }
    }

    /** Only the last node can hold nothing. */
    lemma EmptyHead()
      requires Valid()
      ensures contents != [] && (contents[0] == [] <==> InOrder(contents) == [])
      ensures contents[0] == [] ==> head == tail
    {
      hide Footprint;
      assert nodes[0].Holds(contents[0]);
      if contents[0] == [] {
        assert |nodes| == 1;
        InOrderEmpty(contents);
      }
    }

    /** Whether nothing is held, from the first node and the lazy string alone. */
    predicate IsEmpty()
      requires Valid()
      reads this, nodes, Footprint(nodes)
    {
      head == tail && head.CurrentSize() == 0 && lazy == []
    }

    lemma IsEmptyIsExact()
      requires Valid()
      ensures IsEmpty() <==> Contents() == []
    {
      hide InOrder, Footprint;
      EmptyHead();
      assert nodes[0].Holds(contents[0]);
    }

    /** The number of bytes held, counted node by node. */
    method CurrentSize() returns (size: nat)
      requires Valid()
      ensures Valid() && size == |Contents()|
    {
      hide InOrder, Footprint;
      size := 0;
      var current: Node? := head;
      ghost var at: nat := 0;
      InOrderNone();
      while current != null
        invariant at <= |nodes| && current == (if at < |nodes| then nodes[at] else null)
        invariant size == |InOrder(contents[..at])|
        decreases |nodes| - at
      {
        assert nodes[at].Holds(contents[at]);
        assert contents[..at + 1] == contents[..at] + [contents[at]];
        InOrderConcat(contents[..at], [contents[at]]);
        InOrderOne(contents[at]);
        size := size + current.CurrentSize();
        current := current.next;
        at := at + 1;
      }
      assert contents[..at] == contents;
      size := size + |lazy|;
    }

    /** The byte at a position. */
    method At(index: nat) returns (b: byte)
      requires Valid() && index < |Contents()|
      ensures b == Contents()[index]
    {
      hide InOrder, Footprint, Valid;
      var left: nat := index;
      var current: Node? := head;
      ghost var at: nat := 0;
      HeadFirst();
      SameCount();
      assert contents[0..] == contents;
      while current != null
        invariant Valid() && at <= |nodes| && current == (if at < |nodes| then nodes[at] else null)
        invariant left < |InOrder(contents[at..]) + lazy| && Contents()[index] == (InOrder(contents[at..]) + lazy)[left]
        decreases |nodes| - at
      {
        NodeAt(at);
        InOrderFirst(contents[at..]);
        assert contents[at..][1..] == contents[at + 1..];
        if left < current.CurrentSize() {
          return current.buf[current.head + left];
        }
        left := left - current.CurrentSize();
        current := current.next;
        at := at + 1;
      }
      assert contents[at..] == [];
      InOrderNone();
      b := lazy[left];
    }

    /** Remembers a string without copying it. */
    method LazyPut(input: bytes, modifiable: bool)
      requires Valid()
      modifies Repr()
      ensures Valid() && Contents() == old(Contents()) + input && lazy == input && lazyModifiable == modifiable
      ensures fresh(Repr() - old(Repr()))
    {
      hide InOrder, Chain, Footprint;
      if lazy != [] {
        FinalizeLazyPut();
      }
      NodeIsMine(0);
      assert old(Contents()) + [] == old(Contents()) && Contents() == InOrder(contents) + lazy;
      assert InOrder(contents) + lazy == InOrder(contents);
      lazy, lazyModifiable := input, modifiable;
    }

    /** The same for a string that the caller has written into the space behind the contents. */
    method LazyPutInPlace(size: nat)
      requires Valid() && lazy == [] && tail.tail + size <= tail.buf.Length
      modifies Repr()
      ensures Valid() && Contents() == old(Contents() + tail.buf[tail.tail..][..size]) && lazy == []
      ensures fresh(Repr() - old(Repr()))
    {
      hide InOrder, Chain, Footprint;
      PutCopied(tail.buf[tail.tail..][..size]);
    }

    /** Takes back the end of the lazy string; false stands for InvalidArgument. */
    method UndoLazyPut(size: nat) returns (ok: bool)
      requires Valid()
      modifies this`lazy
      ensures Valid() && (ok <==> size <= |old(lazy)|)
      ensures if ok then |old(Contents())| >= size && Contents() == old(Contents())[..|old(Contents())| - size]
              else Contents() == old(Contents())
    {
      hide InOrder, Chain, Footprint;
      if |lazy| < size {
        return false;
      }
      NodeIsMine(0);
      assert Contents()[..|Contents()| - size] == InOrder(contents) + lazy[..|lazy| - size];
      lazy := lazy[..|lazy| - size];
      ok := true;
    }

    /** Puts bytes back in front, into the room before the first node's unread bytes as far as it goes. */
    method Unget(input: bytes)
      requires Valid()
      modifies Repr()
      ensures Valid() && Contents() == input + old(Contents())
      ensures fresh(Repr() - old(Repr()))
    {
      hide InOrder, Chain, Footprint;
      HeadFirst();
      NodeIsMine(0);
      var len := UngetHead(input);
      var rest := input[..|input| - len];
      assert input == rest + input[|input| - len..];
      if rest != [] {
        PrependNode(rest);
      }
      assert Contents() == rest + (input[|input| - len..] + old(InOrder(contents))) + lazy;
    }

    method UngetHead(input: bytes) returns (len: nat)
      requires Valid()
      modifies this`contents, head`head, head.buf
      ensures Valid() && len <= |input| && (len < |input| ==> head.head == 0)
      ensures InOrder(contents) == input[|input| - len..] + old(InOrder(contents))
    {
      hide InOrder, Footprint, Node.Holds, Succeeding;
      HeadHolds();
      InOrderFirst(contents);
      len := head.PutBack(input);
      contents := contents[0 := input[|input| - len..] + contents[0]];
      assert nodes[0].Holds(contents[0]);
      InOrderFirst(contents);
    }

    /** A full node in front of an unread one. */
    method PrependNode(input: bytes)
      requires Valid() && input != [] && head.head == 0
      modifies this`head, this`nodes, this`contents
      ensures Valid() && InOrder(contents) == input + old(InOrder(contents))
      ensures Repr() == old(Repr()) + {head, head.buf} && fresh(head) && fresh(head.buf)
    {
      hide InOrder, Footprint, Node.Holds, Node.UsedUp, Node.Full;
      var newHead := FullNode(input, head);
      assert forall n :: n in nodes ==> n != newHead && n.buf != newHead.buf;
      LinkInFront(newHead, input);
    }

    method LinkInFront(newHead: Node, ghost input: bytes)
      requires Valid() && head.head == 0
      requires newHead.next == head && newHead.Holds(input) && newHead.Full() && newHead.head == 0 && !newHead.UsedUp()
      requires forall n :: n in nodes ==> n != newHead && n.buf != newHead.buf
      modifies this`head, this`nodes, this`contents
      ensures Valid() && InOrder(contents) == input + old(InOrder(contents))
      ensures head == newHead && Repr() == old(Repr()) + {head, head.buf}
    {
      hide InOrder, Footprint, Node.Holds, Node.UsedUp, Node.Full, Links, Filled;
      SameCount();
      ghost var before := nodes;
      LinksInFront(newHead, nodes);
      FilledInFront(newHead, input, nodes, contents);
      head := newHead;
      nodes, contents := [newHead] + nodes, [input] + contents;
      InOrderFirst(contents);
      assert contents[1..] == old(contents);
      FootprintConcat([newHead], before);
      FootprintOne(newHead);
      assert forall i :: 1 <= i < |nodes| ==> nodes[i] == before[i - 1];
    }

    lemma SameCount()
      requires Valid()
      ensures |nodes| == |contents|
    {
    }

    static method FullNode(input: bytes, next: Node) returns (node: Node)
      requires input != []
      ensures fresh(node) && fresh(node.buf) && node.next == next
      ensures node.Holds(input) && node.Full() && node.head == 0 && !node.UsedUp()
    {
      node := new Node(|input|);
      node.next := next;
      var l := node.Put(input);
      assert input[..l] == input && [] + input == input;
    }

    /** Forgets everything. */
    method Clear()
      requires Valid()
      modifies Repr()
      ensures Valid() && Contents() == [] && Repr() <= old(Repr())
    {
      hide InOrder, Node.Holds, Footprint, Links, Filled, ReadUpTo;
      NodeIsMine(0);
      HeadHolds();
      FootprintOne(head);
      tail := head;
      head.Clear();
      head.next := null;
      lazy := [];
      nodes, contents := [head], [[]];
      InOrderOne([]);
      SingleNode(head);
    }

    /** Room behind the contents that the caller may fill; the contents stay as they are. */
    method CreatePutSpace(wanted: nat) returns (buffer: array<byte>, at: nat, size: nat)
      requires Valid()
      modifies Repr()
      ensures Valid() && Contents() == old(Contents()) && lazy == []
      ensures buffer == tail.buf && at == tail.tail && at + size == buffer.Length && size > 0
      ensures fresh(Repr() - old(Repr()))
      ensures old(lazy) == [] && !old(tail.Full()) ==> buffer == old(tail.buf) && at == old(tail.tail)
      ensures (if old(lazy) == [] then old(tail.Full()) else at == 0) ==> at == 0 && size == Max(nodeSize, wanted)
    {
      hide InOrder, Chain, Footprint, Repr;
      if lazy != [] {
        FinalizeLazyPut();
      }
      TailIsMine();
      if tail.Full() {
        MakeRoom(wanted);
      }
      LastNode();
      buffer, at := tail.buf, tail.tail;
      size := tail.buf.Length - tail.tail;
    }

    method MakeRoom(wanted: nat)
      requires Valid() && tail.Full()
      modifies Repr()
      ensures Valid() && tail.tail == 0 && tail.buf.Length == Max(nodeSize, wanted) && !tail.Full()
      ensures InOrder(contents) == old(InOrder(contents)) && lazy == old(lazy)
      ensures Repr() == old(Repr()) + {tail, tail.buf} && fresh(tail) && fresh(tail.buf)
    {
      hide InOrder, Chain, Footprint;
      ghost var before := nodes;
      TailIsMine();
      SizePositive();
      AppendNode(Max(nodeSize, wanted));
      FootprintConcat(before, [tail]);
      FootprintOne(tail);
    }

    lemma SizePositive()
      requires Valid()
      ensures nodeSize >= 1
    {
    }
  }

  lemma InOrderNone()
    ensures InOrder([]) == []
  {
  }

  /** The part of `s` from `begin` on, of at most `n` bytes. */
  function Range(s: bytes, begin: nat, n: nat): bytes {
    if begin <= |s| then s[begin..begin + Min(n, |s| - begin)] else []
  }

  /** It is a part of `s` indeed, of `n` bytes if there are as many, and otherwise up to the end. */
  lemma RangeIsPart(s: bytes, begin: nat, n: nat)
    requires begin <= |s|
    ensures var r := Range(s, begin, n);
      |r| <= n && begin + |r| <= |s| && r == s[begin..begin + |r|] && (|r| == n || begin + |r| == |s|)
  {
  }

  lemma RangeOfRest(all: bytes, begin: nat, n: nat, out: bytes, rest: bytes)
    requires begin <= |all| && all[begin..] == out + rest && |out| == Min(n, |all| - begin)
    ensures out == Range(all, begin, n)
  {
    assert out == all[begin..][..|out|];
  }

  /** What is to be read from a place in a node on. */
  function RestAt(contents: seq<bytes>, at: nat, offset: nat, lazy: bytes): bytes {
    if at < |contents| && offset <= |contents[at]| then contents[at][offset..] + (InOrder(contents[at + 1..]) + lazy)
    else lazy
  }

  lemma StepIn(contents: seq<bytes>, at: nat, offset: nat, len: nat, lazy: bytes)
    requires at < |contents| && offset + len <= |contents[at]|
    ensures RestAt(contents, at, offset, lazy) ==
      contents[at][offset..offset + len] + RestAt(contents, at, offset + len, lazy)
  {
    hide InOrder;
    var b, rest := contents[at], InOrder(contents[at + 1..]) + lazy;
    assert b[offset..] == b[offset..offset + len] + b[offset + len..];
    assert b[offset..] + rest == b[offset..offset + len] + (b[offset + len..] + rest);
  }

  lemma StepOver(contents: seq<bytes>, at: nat, lazy: bytes)
    requires at < |contents|
    ensures RestAt(contents, at, |contents[at]|, lazy) == RestAt(contents, at + 1, 0, lazy)
  {
    hide InOrder;
    var b, rest := contents[at], contents[at + 1..];
    assert b[|b|..] == [] && [] + (InOrder(rest) + lazy) == InOrder(rest) + lazy;
    if rest != [] {
      StepFirst(rest, lazy);
      assert rest[1..] == contents[at + 2..];
    } else {
      InOrderNone();
      assert [] + lazy == lazy;
    }
  }

  lemma StepFirst(contents: seq<bytes>, lazy: bytes)
    requires contents != []
    ensures RestAt(contents, 0, 0, lazy) == InOrder(contents) + lazy
  {
    hide InOrder;
    InOrderFirst(contents);
    assert contents[0][0..] == contents[0];
    assert contents[0] + InOrder(contents[1..]) + lazy == contents[0] + (InOrder(contents[1..]) + lazy);
  }

  /** Once a piece of the rest is read, the rest starts behind it. */
  lemma MovedOn(all: bytes, read: nat, rest: bytes, piece: bytes, newRest: bytes)
    requires read <= |all| && rest == all[read..] && rest == piece + newRest
    ensures read + |piece| <= |all| && newRest == all[read + |piece|..]
  {
    assert newRest == rest[|piece|..];
  }

  /** A reader that walks over a queue without changing it. */
  class Walker {
    const queue: ByteQueue
    var node: Node?
    var position: nat
    var offset: nat
    var lazy: bytes

    /** The index of the current node, and how many bytes have been read. */
    ghost var at: nat
    ghost var read: nat

    /** What is still to be read. */
    ghost function Rest(): bytes
      reads this, queue`contents
    {
      RestAt(queue.contents, at, offset, lazy)
    }

    /** The walker stands at a place in a node, or behind the last node. */
    ghost predicate Placed()
      reads this, queue`contents, queue`nodes, queue`lazy
    {
      && at <= |queue.nodes| == |queue.contents|
      && if at < |queue.nodes| then
           node == queue.nodes[at] && offset <= |queue.contents[at]| && lazy == queue.lazy && position == read
         else
           node == null && position == |InOrder(queue.contents)| <= read
    }

    /** Nothing is lost and nothing read twice: what is still to be read is what follows the bytes read. */
    ghost predicate Valid()
      reads this, queue, queue.nodes, Footprint(queue.nodes)
    {
      && queue.Valid() && Placed()
      && read <= |queue.Contents()| && Rest() == queue.Contents()[read..]
    }

    constructor (q: ByteQueue)
      requires q.Valid()
      ensures Valid() && queue == q && read == 0
    {
      hide InOrder, Footprint;
      queue := q;
      node, position, offset, lazy, at, read := q.head, 0, 0, q.lazy, 0, 0;
      new;
      StepFirst(q.contents, q.lazy);
    }

    lemma Outside()
      ensures this !in Footprint(queue.nodes)
    {
    }

    /** The position counts the bytes that came from nodes, and not those of the lazy string. */
    lemma PositionRule()
      requires Valid()
      ensures position == Min(read, |InOrder(queue.contents)|)
    {
      hide InOrder, Footprint, ByteQueue.Valid;
    }

    /** Reads the current node as far as wanted, and moves on if that is not enough. */
    method ReadNode(max: nat) returns (piece: bytes)
      requires Valid() && node != null
      modifies this
      ensures Valid() && |piece| <= max && read == old(read) + |piece|
      ensures old(Rest()) == piece + Rest()
      ensures |piece| == max || at == old(at) + 1
    {
      hide InOrder, Footprint, ByteQueue.Valid, RestAt;
      piece := ReadFrom(max);
      Outside();
      queue.NodeAt(at);
      var len := |piece|;
      StepIn(queue.contents, at, offset, len, lazy);
      StepOver(queue.contents, at, lazy);
      read, position := read + len, position + len;
      if len == max {
        offset := offset + len;
      } else {
        node, offset, at := node.next, 0, at + 1;
        AllNodesRead(queue.contents, at, lazy);
      }
      MovedOn(queue.Contents(), old(read), old(Rest()), piece, Rest());
      assert queue.Valid() && Placed();
    }

    /** What the walker says it can still deliver. The bytes that it has already read from the lazy string
        are counted again, so it is right if and only if there are none. */
    method MaxRetrievable() returns (n: nat)
      requires Valid()
      ensures Valid() && n == |Rest()| + (read - position) && position <= read
      ensures n == |Rest()| <==> read <= |InOrder(queue.contents)|
    {
      hide InOrder, Footprint, ByteQueue.Valid, RestAt;
      PositionRule();
      var size := queue.CurrentSize();
      n := size - position;
    }

    /** What the current node holds from the offset on, as far as wanted. */
    method ReadFrom(max: nat) returns (piece: bytes)
      requires Valid() && node != null
      ensures Valid() && at < |queue.contents| && |piece| == Min(max, |queue.contents[at]| - offset)
      ensures piece == queue.contents[at][offset..offset + |piece|]
    {
      hide InOrder, Footprint, ByteQueue.Valid, RestAt;
      queue.NodeAt(at);
      var len := Min(max, node.CurrentSize() - offset);
      node.PartOfContent(offset, len);
      piece := node.buf[node.head + offset..node.head + offset + len];
    }

    /** Reads up to `max` bytes. */
    method TransferTo2(max: nat) returns (out: bytes)
      requires Valid()
      modifies this
      ensures Valid() && old(Rest()) == out + Rest() && |out| == Min(max, |old(Rest())|)
      ensures read == old(read) + |out| && out == Range(queue.Contents(), old(read), max)
    {
      hide InOrder, Footprint, Valid, Rest, Placed, Range;
      RestIs();
      out := Transfer(max);
      RangeOfRest(queue.Contents(), old(read), max, out, Rest());
    }

    method Transfer(max: nat) returns (out: bytes)
      requires Valid()
      modifies this
      ensures Valid() && old(Rest()) == out + Rest() && |out| == Min(max, |old(Rest())|)
      ensures read == old(read) + |out|
    {
      hide InOrder, Footprint, Valid, Rest, Placed;
      var bytesLeft: nat;
      out, bytesLeft := ReadNodes(max);
      if bytesLeft > 0 {
        OnlyLazy();
        if lazy != [] {
          var piece := ReadLazy(bytesLeft);
          out := out + piece;
        }
      }
    }

    lemma RestIs()
      requires Valid()
      ensures read <= |queue.Contents()| && Rest() == queue.Contents()[read..]
    {
    }

    /** The next byte, if there is one. */
    method Get() returns (b: Option<byte>)
      requires Valid()
      modifies this
      ensures Valid() && old(read) <= |queue.Contents()|
      ensures if old(read) == |queue.Contents()| then b == None && read == old(read)
              else b == Some(queue.Contents()[old(read)]) && read == old(read) + 1
    {
      hide InOrder, Footprint, Valid, Rest, Placed;
      RestIs();
      var out := TransferTo2(1);
      b := if out == [] then None else Some(out[0]);
    }

    method ReadNodes(max: nat) returns (out: bytes, bytesLeft: nat)
      requires Valid()
      modifies this
      ensures Valid() && old(Rest()) == out + Rest() && |out| + bytesLeft == max
      ensures read == old(read) + |out|
      ensures bytesLeft > 0 ==> node == null
    {
      hide InOrder, Footprint, Valid, Rest, Placed;
      out, bytesLeft := [], max;
      InRange();
      while node != null
        invariant Valid() && |out| + bytesLeft == max && read == old(read) + |out|
        invariant old(Rest()) == out + Rest() && at <= |queue.nodes|
        decreases |queue.nodes| - at
      {
        var piece := ReadNode(bytesLeft);
        InRange();
        out, bytesLeft := out + piece, bytesLeft - |piece|;
        if bytesLeft == 0 {
          return;
        }
      }
    }

    lemma InRange()
      requires Valid()
      ensures at <= |queue.nodes|
    {
      hide InOrder, Footprint, ByteQueue.Valid, RestAt;
    }

    lemma OnlyLazy()
      requires Valid() && node == null
      ensures Rest() == lazy
    {
      hide InOrder, Footprint, ByteQueue.Valid;
    }

    method ReadLazy(max: nat) returns (piece: bytes)
      requires Valid() && node == null
      modifies this
      ensures Valid() && old(Rest()) == piece + Rest() && |piece| == Min(max, |old(Rest())|)
      ensures read == old(read) + |piece|
    {
      hide InOrder, Footprint, ByteQueue.Valid;
      Outside();
      var len := Min(max, |lazy|);
      piece := lazy[..len];
      assert lazy == piece + lazy[len..];
      lazy := lazy[len..];
      read := read + len;
    }
  }

  lemma NothingInFront(x: bytes, y: bytes)
    requires x + y == y
    ensures x == []
  {
    assert |x + y| == |x| + |y|;
  }

  /** A read that goes into the lazy string: the position stays at zero, and the byte read is still
      announced although nothing is left. */
  method ReadLazyString(b: byte) returns (out: Option<byte>, position: nat, announced: nat, next: Option<byte>)
    ensures out == Some(b) && position == 0 && announced == 1 && next == None
  {
    hide InOrder, Footprint, ByteQueue.Valid, Walker.Valid, RestAt;
    var queue := new ByteQueue(0);
    queue.LazyPut([b], false);
    assert queue.Contents() == [] + [b];
    NothingInFront(InOrder(queue.contents), [b]);
    var walker := new Walker(queue);
    out := walker.Get();
    walker.PositionRule();
    walker.RestIs();
    position := walker.position;
    announced := walker.MaxRetrievable();
    next := walker.Get();
  }

  lemma AllNodesRead(contents: seq<bytes>, at: nat, lazy: bytes)
    ensures at == |contents| ==> RestAt(contents, at, 0, lazy) == lazy
  {
  }

  const LWORD: nat := 0x1_0000_0000_0000_0000

  /** The length of a range in unsigned 64-bit arithmetic: it wraps where the end lies before the beginning. */
  function RangeLength(begin: nat, end: nat): nat
    requires begin < LWORD
  {
    if begin <= end then end - begin else end + LWORD - begin
  }

  /** What is copied of a range, once as many bytes as there are before it have been skipped. */
  lemma RangeCases(all: bytes, begin: nat, end: nat, skipped: bytes, out: bytes)
    requires begin < LWORD && skipped == Range(all, 0, begin) && out == Range(all, |skipped|, RangeLength(begin, end))
    ensures begin <= end <= |all| ==> out == all[begin..end]
    ensures begin <= |all| < end ==> out == all[begin..]
    ensures begin > |all| ==> out == []
    ensures end < begin <= |all| ==> out == all[begin..Min(end + 0x1_0000_0000_0000_0000, |all|)]
  {
  }

  /** Copies a range and moves its beginning; the queue stays as it is. A range that ends beyond the contents
      ends with them, and one that ends before it begins wraps around 64 bits. */
  method CopyRangeTo2(queue: ByteQueue, begin: nat, end: nat) returns (out: bytes, next: nat)
    requires queue.Valid() && begin < LWORD && end < LWORD
    ensures begin <= end <= |queue.Contents()| ==> out == queue.Contents()[begin..end] && next == end
    ensures begin <= |queue.Contents()| < end ==> out == queue.Contents()[begin..] && next == |queue.Contents()|
    ensures begin > |queue.Contents()| ==> out == [] && next == begin
    ensures end < begin <= |queue.Contents()| ==>
      var wrapped := Min(end + 0x1_0000_0000_0000_0000, |queue.Contents()|);
      out == queue.Contents()[begin..wrapped] && next == wrapped
  {
    hide InOrder, Footprint, ByteQueue.Valid, Walker.Valid, Walker.Rest, ByteQueue.Contents, Range, RangeLength;
    var walker := new Walker(queue);
    var skipped := walker.TransferTo2(begin);
    var transferBytes := RangeLength(begin, end);
    out := walker.TransferTo2(transferBytes);
    next := begin + |out|;
    RangeCases(queue.Contents(), begin, end, skipped, out);
  }
}
