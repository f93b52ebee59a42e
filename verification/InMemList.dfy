/**
 The allocators' singly linked list (src/mem/utils/list.rs). Its nodes are the free
 memory chunks themselves: the first word of a chunk holds the address of the next one,
 and 0 is the null pointer.
 */
module InMemLists {
  import opened Options

  /** Word-addressed kernel memory, shared by every list threaded through it. */
  class Memory {
    var words: map<nat, nat>

    constructor ()
      ensures words == map[]
    {
      words := map[];
    }

    /** A write by whoever owns the chunk that contains `addr`. */
    method Store(addr: nat, w: nat)
      modifies this
      ensures words == old(words)[addr := w]
    {
      words := words[addr := w];
    }
  }

  /** The two memories hold the same word at `a`, or neither holds one. */
  predicate SameAt(m: map<nat, nat>, n: map<nat, nat>, a: nat) {
    (a in m <==> a in n) && (a in m ==> m[a] == n[a])
  }

  /** The i-th node of a list, or null past its end. */
  function NodeOrNull(items: seq<nat>, i: nat): nat {
    if i < |items| then items[i] else 0
  }

  /** Starting from `head`, the link words of `m` spell out exactly `items`. */
  ghost predicate Chain(m: map<nat, nat>, head: nat, items: seq<nat>) {
    && head == NodeOrNull(items, 0)
    && forall i :: 0 <= i < |items| ==>
         items[i] != 0 && items[i] in m && m[items[i]] == NodeOrNull(items, i + 1)
  }

  ghost predicate Distinct(items: seq<nat>) {
    forall i, j :: 0 <= i < j < |items| ==> items[i] != items[j]
  }

  /** A chain that ends cannot visit a node twice. */
  lemma {:induction false} ChainNeverRepeats(m: map<nat, nat>, head: nat, items: seq<nat>, i: nat, j: nat)
    requires Chain(m, head, items) && i < j < |items|
    ensures items[i] != items[j]
    decreases |items| - j
  {
    if j + 1 < |items| {
      ChainNeverRepeats(m, head, items, i + 1, j + 1);
    }
  }

  lemma ChainDistinct(m: map<nat, nat>, head: nat, items: seq<nat>)
    requires Chain(m, head, items)
    ensures Distinct(items)
  {
    forall i, j | 0 <= i < j < |items| ensures items[i] != items[j] {
      ChainNeverRepeats(m, head, items, i, j);
    }
  }

  /** The words and the head determine the list: two readings of one chain agree. */
  lemma {:induction false} ChainUnique(m: map<nat, nat>, head: nat, s: seq<nat>, t: seq<nat>)
    requires Chain(m, head, s) && Chain(m, head, t)
    ensures s == t
    decreases |s|
  {
    if s != [] && t != [] {
      ChainTail(m, head, s);
      ChainTail(m, head, t);
      ChainUnique(m, m[head], s[1..], t[1..]);
      assert s == [head] + s[1..] && t == [head] + t[1..];
    }
  }

  lemma ChainTail(m: map<nat, nat>, head: nat, s: seq<nat>)
    requires Chain(m, head, s) && s != []
    ensures Chain(m, m[head], s[1..])
  {
    forall i | 0 <= i < |s[1..]|
      ensures s[1..][i] != 0 && s[1..][i] in m && m[s[1..][i]] == NodeOrNull(s[1..], i + 1)
    {
      assert s[1..][i] == s[i + 1];
    }
  }

  /** A chain only depends on the words at its own nodes. */
  lemma ChainFrame(m: map<nat, nat>, n: map<nat, nat>, head: nat, items: seq<nat>)
    requires Chain(m, head, items)
    requires forall a :: a in items ==> SameAt(m, n, a)
    ensures Chain(n, head, items)
  {
    forall i | 0 <= i < |items|
      ensures items[i] in n && n[items[i]] == NodeOrNull(items, i + 1)
    {
      assert items[i] in items;
    }
  }

  function RemoveAt(s: seq<nat>, i: nat): seq<nat>
    requires i < |s|
  {
    s[..i] + s[i + 1..]
  }

  /** Redirecting the predecessor's link word past a node removes that node. */
  lemma {:induction false} ChainUnlink(m: map<nat, nat>, head: nat, items: seq<nat>, at: nat)
    requires Chain(m, head, items) && 0 < at < |items|
    ensures Chain(m[items[at - 1] := m[items[at]]], head, RemoveAt(items, at))
  {
    ChainDistinct(m, head, items);
    var rest, n := RemoveAt(items, at), m[items[at - 1] := m[items[at]]];
    forall i | 0 <= i < |rest|
      ensures rest[i] != 0 && rest[i] in n && n[rest[i]] == NodeOrNull(rest, i + 1)
    {
      var k := if i < at then i else i + 1;
      assert rest[i] == items[k];
      assert m[items[k]] == NodeOrNull(items, k + 1);
    }
  }

  /** Where the pointer to a node is stored: the list's own head field or a link word. */
  datatype Link = HeadField | WordAt(addr: nat)

  /** A node together with the location of the pointer to it. */
  datatype ListNode = ListNode(prev: Link, curr: nat)

  ghost predicate IsNodeAt(items: seq<nat>, node: ListNode, i: nat) {
    && i < |items|
    && node.curr == items[i]
    && node.prev == (if i == 0 then HeadField else WordAt(items[i - 1]))
  }

  class InMemList {
    const mem: Memory
    var head: nat
    ghost var items: seq<nat>

    ghost predicate Valid()
      reads this, mem
    {
      Chain(mem.words, head, items)
    }

    constructor (mem: Memory)
      ensures this.mem == mem && Valid() && items == [] && head == 0
    {
      this.mem, head, items := mem, 0, [];
    }

    method IsEmpty() returns (b: bool)
      requires Valid()
      ensures b <==> items == []
    {
      b := head == 0;
    }

    method Push(item: nat)
      requires Valid() && item != 0 && item !in items
      modifies this, mem
      ensures Valid() && items == [item] + old(items)
      ensures mem.words == old(mem.words)[item := old(head)]
    {
      ghost var before := items;
      mem.words := mem.words[item := head];
      head := item;
      items := [item] + items;
      assert forall i :: 0 < i < |items| ==> items[i] == before[i - 1];
    }

    method Pop() returns (r: Option<nat>)
      requires Valid()
      modifies this
      ensures Valid()
      ensures old(items) == [] ==> r == None && items == [] && head == old(head)
      ensures old(items) != [] ==> r == Some(old(items)[0]) && items == old(items)[1..]
    {
      var empty := IsEmpty();
      if empty {
        r := None;
      } else {
        ChainTail(mem.words, head, items);
        r := Some(head);
        head := mem.words[head];
        items := items[1..];
      }
    }

    /** `iter_mut().find(|blk| blk.value() == target)`: the node to unlink, if any. */
    method Find(target: nat) returns (r: Option<ListNode>, ghost at: nat)
      requires Valid()
      ensures r == None <==> target !in items
      ensures r.Some? ==> IsNodeAt(items, r.value, at) && items[at] == target && target !in items[..at]
    {
      var it := new IterMut(this);
      at := 0;
      r := it.Next();
      while r.Some? && r.value.curr != target
        invariant it.list == this && it.Valid()
        invariant r.Some? ==> it.pos == at + 1 && IsNodeAt(items, r.value, at)
        invariant r.None? ==> at == it.pos == |items|
        invariant target !in items[..at]
        decreases |items| - at + (if r.Some? then 1 else 0)
      {
        at := at + 1;
        r := it.Next();
      }
    }

    /** `ListNode::pop`: redirect whatever points to the node past it. */
    method Unlink(node: ListNode, ghost at: nat)
      requires Valid() && IsNodeAt(items, node, at)
      modifies this, mem
      ensures Valid() && items == RemoveAt(old(items), at)
      ensures forall a :: a !in old(items) ==> SameAt(old(mem.words), mem.words, a)
    {
      match node.prev
      case HeadField =>
        ChainTail(mem.words, head, items);
        assert RemoveAt(items, 0) == items[1..];
        head := mem.words[node.curr];
        items := RemoveAt(items, at);
      case WordAt(p) =>
        ChainUnlink(mem.words, head, items, at);
        mem.words := mem.words[p := mem.words[node.curr]];
        items := RemoveAt(items, at);
    }
  }

  /** The iterator of `iter_mut`: it remembers where the pointer to the current node is. */
  class IterMut {
    const list: InMemList
    var prev: Link
    var curr: nat
    ghost var pos: nat

    ghost predicate Valid()
      reads this, list, list.mem
    {
      && list.Valid()
      && pos <= |list.items|
      && curr == NodeOrNull(list.items, pos)
      && prev == (if pos == 0 then HeadField else WordAt(list.items[pos - 1]))
    }

    constructor (list: InMemList)
      requires list.Valid()
      ensures this.list == list && Valid() && pos == 0
    {
      this.list, prev, curr, pos := list, HeadField, list.head, 0;
    }

    method Next() returns (r: Option<ListNode>)
      requires Valid()
      modifies this
      ensures Valid()
      ensures old(pos) == |list.items| ==> r == None && pos == old(pos)
      ensures old(pos) < |list.items| ==>
                r.Some? && IsNodeAt(list.items, r.value, old(pos)) && pos == old(pos) + 1
    {
      if curr == 0 {
        r := None;
      } else {
        r := Some(ListNode(prev, curr));
        prev := WordAt(curr);
        curr := list.mem.words[curr];
        pos := pos + 1;
      }
    }
  }
}
