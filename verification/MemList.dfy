/** The allocation list of src/papi_memory.c (without DEBUG).

    Every block handed out is described by a list node, and the words in front of
    the block hold a pointer back to that node.  A pointer is an integer, 0 is
    NULL; the answers of malloc and realloc are parameters. */
module MemList {
  import opened Sets

  const SIZEOF_PMEM := 32
  const MEM_PROLOG := 16

  /** The cast of a size_t to int. */
  function IntCast(n: nat): (i: int)
    ensures n < 0x8000_0000 ==> i == n
    ensures -0x8000_0000 <= i < 0x8000_0000 && (n - i) % 0x1_0000_0000 == 0
  {
    var m := n % 0x1_0000_0000;
    if m < 0x8000_0000 then m else m - 0x1_0000_0000
  }

  class Pmem {
    var ptr: int
    var size: int
    var next: Pmem?
    var prev: Pmem?

    /** init_mem_ptr */
    constructor (ptr: int, size: int)
      ensures this.ptr == ptr && this.size == size && next == null && prev == null
    {
      this.ptr := ptr;
      this.size := size;
      next, prev := null, null;
    }
  }

  function After(s: seq<Pmem>, i: nat): Pmem?
    requires i < |s|
  {
    if i + 1 < |s| then s[i + 1] else null
  }

  function Before(s: seq<Pmem>, i: nat): Pmem?
    requires i < |s|
  {
    if i > 0 then s[i - 1] else null
  }

  ghost predicate Linked(s: seq<Pmem>)
    reads s
  {
    && (forall i {:trigger s[i].next} :: 0 <= i < |s| ==> s[i].next == After(s, i))
    && (forall i {:trigger s[i].prev} :: 0 <= i < |s| ==> s[i].prev == Before(s, i))
  }

  /** The nodes describe these blocks. */
  ghost predicate Describes(s: seq<Pmem>, ptrs: seq<int>, sizes: seq<int>)
    reads s
  {
    && |s| == |ptrs| == |sizes|
    && forall i :: 0 <= i < |s| ==> s[i].ptr == ptrs[i] && s[i].size == sizes[i]
  }

  /** Live blocks are distinct, not NULL, and their prologs point to their nodes. */
  ghost predicate BackPointers(s: seq<Pmem>, ptrs: seq<int>, prolog: map<int, Pmem>) {
    && |s| == |ptrs| && NoRepeats(ptrs)
    && forall i :: 0 <= i < |ptrs| ==> ptrs[i] != 0 && ptrs[i] in prolog && prolog[ptrs[i]] == s[i]
  }

  function Total(sizes: seq<int>): int {
    if sizes == [] then 0 else Total(sizes[..|sizes| - 1]) + sizes[|sizes| - 1]
  }

  lemma {:induction false} TotalAppend(a: seq<int>, b: seq<int>)
    ensures Total(a + b) == Total(a) + Total(b)
  {
    if b == [] {
      assert a + b == a;
    } else {
      TotalAppend(a, b[..|b| - 1]);
      assert (a + b)[..|a + b| - 1] == a + b[..|b| - 1];
    }
  }

  function Without<T>(s: seq<T>, at: nat): seq<T>
    requires at < |s|
  {
    s[..at] + s[at + 1..]
  }

  lemma {:induction false} TotalWithout(s: seq<int>, at: nat)
    requires at < |s|
    ensures Total(Without(s, at)) == Total(s) - s[at]
  {
    var n := |s| - 1;
    if at == n {
      assert Without(s, at) == s[..n];
    } else {
      TotalWithout(s[..n], at);
      assert Without(s, at)[..n - 1] == Without(s[..n], at);
    }
  }

  lemma {:induction false} TotalUpdate(s: seq<int>, at: nat, x: int)
    requires at < |s|
    ensures Total(s[at := x]) == Total(s) - s[at] + x
  {
    var n := |s| - 1;
    if at == n {
      assert s[at := x][..n] == s[..n];
    } else {
      TotalUpdate(s[..n], at, x);
      assert s[at := x][..n] == s[..n][at := x];
    }
  }

  lemma BackPointersWithout(s: seq<Pmem>, ptrs: seq<int>, prolog: map<int, Pmem>, at: nat)
    requires BackPointers(s, ptrs, prolog) && at < |s|
    ensures BackPointers(Without(s, at), Without(ptrs, at), prolog) && ptrs[at] !in Without(ptrs, at)
  {
  }

  lemma DescribesWithout(s: seq<Pmem>, ptrs: seq<int>, sizes: seq<int>, at: nat)
    requires Describes(s, ptrs, sizes) && at < |s|
    ensures Describes(Without(s, at), Without(ptrs, at), Without(sizes, at))
  {
  }

  lemma BackPointersInserted(s: seq<Pmem>, ptrs: seq<int>, prolog: map<int, Pmem>, node: Pmem, block: int)
    requires BackPointers(s, ptrs, prolog) && block != 0 && block !in ptrs
    ensures BackPointers([node] + s, [block] + ptrs, prolog[block := node])
  {
    var t, ps := [node] + s, [block] + ptrs;
    forall i | 0 < i < |ps|
      ensures ps[i] != block && ps[i] in prolog && prolog[ps[i]] == t[i]
    {
      assert ps[i] == ptrs[i - 1] && t[i] == s[i - 1];
    }
  }

  lemma BackPointersMoved(s: seq<Pmem>, ptrs: seq<int>, prolog: map<int, Pmem>, at: nat, block: int)
    requires BackPointers(s, ptrs, prolog) && at < |s| && block != 0
    requires block == ptrs[at] || block !in ptrs
    ensures BackPointers(s, ptrs[at := block], (prolog - {ptrs[at]})[block := s[at]])
  {
    forall i | 0 <= i < |ptrs| && i != at ensures ptrs[i] != block && ptrs[i] != ptrs[at] {
      assert ptrs[i] in ptrs;
    }
  }

  /** Live blocks are still allocated, and so is one block for each node that left. */
  ghost predicate Held(ptrs: seq<int>, blocks: set<int>, dropped: nat) {
    && (forall i :: 0 <= i < |ptrs| ==> ptrs[i] in blocks)
    && 0 !in blocks && |blocks| == |ptrs| + dropped
  }

  lemma HeldInserted(ptrs: seq<int>, blocks: set<int>, dropped: nat, block: int)
    requires Held(ptrs, blocks, dropped) && block != 0 && block !in blocks
    ensures Held([block] + ptrs, blocks + {block}, dropped)
  {
  }

  lemma HeldWithout(ptrs: seq<int>, blocks: set<int>, dropped: nat, at: nat)
    requires Held(ptrs, blocks, dropped) && at < |ptrs|
    ensures Held(Without(ptrs, at), blocks, dropped + 1)
  {
  }

  lemma HeldMoved(ptrs: seq<int>, blocks: set<int>, dropped: nat, at: nat, block: int)
    requires Held(ptrs, blocks, dropped) && NoRepeats(ptrs) && at < |ptrs|
    requires block != 0 && (block == ptrs[at] || block !in blocks)
    ensures Held(ptrs[at := block], blocks - {ptrs[at]} + {block}, dropped)
  {
    assert ptrs[at] in blocks;
    assert blocks == (blocks - {ptrs[at]}) + {ptrs[at]};
  }

  class Memory {
    var head: Pmem?
    var prolog: map<int, Pmem>
    ghost var nodes: seq<Pmem>
    ghost var ptrs: seq<int>
    ghost var sizes: seq<int>
    /** The blocks malloc and realloc have given out and that were not given back to
        free or realloc, and how many nodes have left the list. */
    ghost var blocks: set<int>
    ghost var dropped: nat

    /** An acyclic NULL-terminated doubly linked list from the head. */
    ghost predicate WellFormed()
      reads this, nodes
    {
      && (head == if nodes == [] then null else nodes[0])
      && Linked(nodes) && NoRepeats(nodes)
    }

    /** The list, its sizes and the back pointers agree. */
    ghost predicate Listed()
      reads this, nodes
    {
      WellFormed() && Describes(nodes, ptrs, sizes) && BackPointers(nodes, ptrs, prolog)
    }

    ghost predicate Valid()
      reads this, nodes
    {
      Listed() && Held(ptrs, blocks, dropped)
    }

    constructor ()
      ensures Valid() && nodes == [] && blocks == {} && dropped == 0
    {
      head := null;
      prolog := map[];
      nodes, ptrs, sizes := [], [], [];
      blocks, dropped := {}, 0;
    }

    /** In every state of every run, as many blocks have leaked as nodes have left the
        list, so the allocated blocks are the live ones exactly while none has. */
    lemma LeakedBlocks()
      requires Valid()
      ensures |blocks - Elements(ptrs)| == dropped
      ensures blocks == Elements(ptrs) <==> dropped == 0
    {
      ElementCount(ptrs);
      assert Elements(ptrs) <= blocks;
      assert blocks == Elements(ptrs) + (blocks - Elements(ptrs));
    }

    /** insert_mem_ptr */
    method Insert(p: Pmem)
      requires WellFormed() && p !in nodes && p.next == null && p.prev == null
      modifies this`head, this`nodes, nodes`prev, p`next
      ensures WellFormed() && nodes == [p] + old(nodes)
    {
      if head == null {
        head := p;
        p.next := null;
      } else {
        head.prev := p;
        p.next := head;
        head := p;
      }
      nodes := [p] + nodes;
    }

    /** remove_mem_ptr: the node leaves the list, wherever it is. */
    method Remove(p: Pmem, ghost at: nat)
      requires WellFormed() && at < |nodes| && nodes[at] == p
      modifies this`head, this`nodes, nodes`next, nodes`prev
      ensures WellFormed() && nodes == Without(old(nodes), at)
    {
      ghost var s := nodes;
      assert p.next == After(s, at) && p.prev == Before(s, at);
      if p.prev != null {
        p.prev.next := p.next;
      }
      if p.next != null {
        p.next.prev := p.prev;
      }
      if p == head {
        head := p.next;
      }
      nodes := Without(s, at);
    }

    /** _papi_malloc.  `block` is the address malloc's block has behind the prolog,
        0 if it failed; `nodeOk` says whether the node could be allocated. */
    method Malloc(size: nat, block: int, nodeOk: bool) returns (p: int)
      requires Valid() && (block == 0 || block !in blocks)
      modifies this, nodes`prev
      ensures Valid() && dropped == old(dropped)
      ensures blocks == old(blocks) + if p == 0 then {} else {p}
      ensures p == if size == 0 || !nodeOk then 0 else block
      ensures p == 0 ==> nodes == old(nodes) && ptrs == old(ptrs) && sizes == old(sizes)
      ensures p != 0 ==> ptrs == [p] + old(ptrs) && sizes == [IntCast(size)] + old(sizes)
      ensures p != 0 ==> Total(sizes) == old(Total(sizes)) + IntCast(size)
    {
      if size == 0 || block == 0 || !nodeOk {
        return 0;
      }
      var node := new Pmem(block, IntCast(size));
      Adopt(node, block, IntCast(size));
      p := block;
    }

    /** Takes a new block with its new node on. */
    method Adopt(node: Pmem, block: int, size: int)
      requires Valid() && block != 0 && block !in blocks
      requires node !in nodes && node.ptr == block && node.size == size && node.next == null && node.prev == null
      modifies this`head, this`nodes, this`ptrs, this`sizes, this`prolog, this`blocks, nodes`prev, node`next
      ensures Valid() && nodes == [node] + old(nodes) && blocks == old(blocks) + {block}
      ensures ptrs == [block] + old(ptrs) && sizes == [size] + old(sizes)
      ensures Total(sizes) == old(Total(sizes)) + size
    {
      HeldInserted(ptrs, blocks, dropped, block);
      Describe(node, block, size);
      blocks := blocks + {block};
    }

    /** Puts a new node, and the back pointer to it, in place. */
    method Describe(node: Pmem, block: int, size: int)
      requires Listed() && block != 0 && block !in ptrs
      requires node !in nodes && node.ptr == block && node.size == size && node.next == null && node.prev == null
      modifies this`head, this`nodes, this`ptrs, this`sizes, this`prolog, nodes`prev, node`next
      ensures Listed() && nodes == [node] + old(nodes)
      ensures ptrs == [block] + old(ptrs) && sizes == [size] + old(sizes)
      ensures Total(sizes) == old(Total(sizes)) + size
    {
      TotalAppend([size], sizes);
      BackPointersInserted(nodes, ptrs, prolog, node, block);
      prolog := prolog[block := node];
      Insert(node);
      ptrs, sizes := [block] + ptrs, [size] + sizes;
    }

    /** get_mem_ptr */
    method GetMemPtr(p: int) returns (node: Pmem?, ghost at: nat)
      requires Valid() && (p == 0 || p in ptrs)
      ensures node == null <==> p == 0
      ensures p != 0 ==> at < |nodes| && ptrs[at] == p && node == nodes[at]
    {
      if p == 0 {
        return null, 0;
      }
      at :| 0 <= at < |ptrs| && ptrs[at] == p;
      node := prolog[p];
    }

    /** _papi_free: a live block is forgotten, though not given back; NULL is ignored. */
    method Free(p: int) returns (ghost at: nat)
      requires Valid() && (p == 0 || p in ptrs)
      modifies this, nodes`next, nodes`prev
      ensures Valid() && blocks == old(blocks) && dropped == old(dropped) + if p == 0 then 0 else 1
      ensures p == 0 ==> ptrs == old(ptrs) && sizes == old(sizes)
      ensures p != 0 ==> at < |old(ptrs)| && old(ptrs)[at] == p && p !in ptrs
      ensures p != 0 ==> ptrs == Without(old(ptrs), at) && sizes == Without(old(sizes), at)
      ensures p != 0 ==> Total(sizes) == old(Total(sizes)) - old(sizes)[at]
    {
      var node;
      node, at := GetMemPtr(p);
      if node == null {
        return;
      }
      Forget(node, at);
    }

    /** Takes the node at `at` off the list; the block it describes stays allocated. */
    method Forget(node: Pmem, ghost at: nat)
      requires Valid() && at < |nodes| && nodes[at] == node
      modifies this`head, this`nodes, this`ptrs, this`sizes, this`dropped, nodes`next, nodes`prev
      ensures Valid() && dropped == old(dropped) + 1
      ensures nodes == Without(old(nodes), at)
      ensures ptrs == Without(old(ptrs), at) && old(ptrs)[at] !in ptrs
      ensures sizes == Without(old(sizes), at)
      ensures Total(sizes) == old(Total(sizes)) - old(sizes)[at]
    {
      ghost var s, ps, zs := nodes, ptrs, sizes;
      TotalWithout(zs, at);
      BackPointersWithout(s, ps, prolog, at);
      HeldWithout(ps, blocks, dropped, at);
      Remove(node, at);
      ptrs, sizes := Without(ps, at), Without(zs, at);
      DescribesWithout(s, ps, zs, at);
      dropped := dropped + 1;
    }

    /** _papi_realloc.  `block` is where realloc put the block, 0 if it failed. */
    method Realloc(p: int, size: nat, block: int, nodeOk: bool) returns (q: int, ghost at: nat)
      requires Valid() && (p == 0 || p in ptrs)
      requires block == 0 || block == p || block !in blocks
      modifies this, nodes
      ensures Valid() && dropped == old(dropped)
      ensures blocks == if q == 0 then old(blocks) else old(blocks) - {p} + {q}
      ensures p == 0 ==> q == if size == 0 || !nodeOk then 0 else block
      ensures p == 0 && q != 0 ==> ptrs == [q] + old(ptrs) && sizes == [IntCast(size)] + old(sizes)
      ensures p != 0 ==> q == block
      ensures q == 0 ==> ptrs == old(ptrs) && sizes == old(sizes)
      ensures p != 0 && q != 0 ==> at < |old(ptrs)| && old(ptrs)[at] == p
      ensures p != 0 && q != 0 ==> ptrs == old(ptrs)[at := q] && sizes == old(sizes)[at := IntCast(size)]
      ensures p != 0 && q != 0 ==> Total(sizes) == old(Total(sizes)) - old(sizes)[at] + IntCast(size)
    {
      at := 0;
      if p == 0 {
        q := Malloc(size, block, nodeOk);
        return;
      }
      var node;
      node, at := GetMemPtr(p);
      if block == 0 {
        return 0, at;
      }
      Resize(node, at, p, block, IntCast(size));
      q := block;
    }

    /** What follows a successful realloc. */
    method Resize(node: Pmem, ghost at: nat, p: int, block: int, size: int)
      requires Valid() && at < |nodes| && nodes[at] == node && ptrs[at] == p
      requires block != 0 && (block == p || block !in blocks)
      modifies node`ptr, node`size, this`ptrs, this`sizes, this`prolog, this`blocks
      ensures Valid()
      ensures blocks == old(blocks) - {p} + {block}
      ensures ptrs == old(ptrs)[at := block] && sizes == old(sizes)[at := size]
      ensures Total(sizes) == old(Total(sizes)) - old(sizes)[at] + size
    {
      HeldMoved(ptrs, blocks, dropped, at, block);
      Redescribe(node, at, p, block, size);
      blocks := blocks - {p} + {block};
    }

    /** Updates the node of a block that realloc has resized and perhaps moved.  The
        contents move with the block, the back pointer among them. */
    method Redescribe(node: Pmem, ghost at: nat, p: int, block: int, size: int)
      requires Listed() && at < |nodes| && nodes[at] == node && ptrs[at] == p
      requires block != 0 && (block == p || block !in ptrs)
      modifies node`ptr, node`size, this`ptrs, this`sizes, this`prolog
      ensures Listed()
      ensures ptrs == old(ptrs)[at := block] && sizes == old(sizes)[at := size]
      ensures Total(sizes) == old(Total(sizes)) - old(sizes)[at] + size
    {
      TotalUpdate(sizes, at, size);
      BackPointersMoved(nodes, ptrs, prolog, at, block);
      prolog := (prolog - {p})[block := node];
      SetBlock(node, at, block, size);
    }

    method SetBlock(node: Pmem, ghost at: nat, block: int, size: int)
      requires WellFormed() && Describes(nodes, ptrs, sizes) && at < |nodes| && nodes[at] == node
      modifies node`ptr, node`size, this`ptrs, this`sizes
      ensures WellFormed() && Describes(nodes, ptrs, sizes)
      ensures ptrs == old(ptrs)[at := block] && sizes == old(sizes)[at := size]
    {
      node.size := size;
      node.ptr := block;
      ptrs, sizes := ptrs[at := block], sizes[at := size];
    }

    /** _papi_valid_free: 1 exactly for live blocks, which are then forgotten. */
    method ValidFree(p: int) returns (valid: bool, ghost at: nat)
      requires Valid()
      modifies this, nodes`next, nodes`prev
      ensures Valid() && blocks == old(blocks) && dropped == old(dropped) + if valid then 1 else 0
      ensures valid <==> p in old(ptrs)
      ensures !valid ==> ptrs == old(ptrs) && sizes == old(sizes)
      ensures valid ==> at < |old(ptrs)| && old(ptrs)[at] == p && p !in ptrs
      ensures valid ==> ptrs == Without(old(ptrs), at) && sizes == Without(old(sizes), at)
    {
      valid, at := false, 0;
      if p == 0 {
        return;
      }
      var tmp := head;
      ghost var k := 0;
      while tmp != null
        invariant 0 <= k <= |nodes| && tmp == if k < |nodes| then nodes[k] else null
        invariant forall i :: 0 <= i < k ==> ptrs[i] != p
        invariant Valid() && ptrs == old(ptrs) && sizes == old(sizes) && nodes == old(nodes)
        invariant blocks == old(blocks) && dropped == old(dropped)
        decreases |nodes| - k
      {
        if p == tmp.ptr {
          var node;
          node, at := GetMemPtr(p);
          Forget(node, at);
          return true, at;
        }
        assert tmp.next == After(nodes, k);
        tmp := tmp.next;
        k := k + 1;
      }
    }

    /** _papi_mem_overhead: the sizes of the live blocks, the bookkeeping, or both. */
    method Overhead(libOverhead: bool, memOverhead: bool) returns (size: int)
      requires Valid()
      ensures size == (if libOverhead then Total(sizes) else 0)
                    + if memOverhead then |nodes| * (SIZEOF_PMEM + MEM_PROLOG) else 0
    {
      size := 0;
      var p := head;
      ghost var k := 0;
      while p != null
        invariant 0 <= k <= |nodes| && p == if k < |nodes| then nodes[k] else null
        invariant size == (if libOverhead then Total(sizes[..k]) else 0)
                        + if memOverhead then k * (SIZEOF_PMEM + MEM_PROLOG) else 0
        decreases |nodes| - k
      {
        assert sizes[..k + 1][..k] == sizes[..k];
        if libOverhead {
          size := size + p.size;
        }
        if memOverhead {
          size := size + SIZEOF_PMEM;
          size := size + MEM_PROLOG;
        }
        assert p.next == After(nodes, k);
        p := p.next;
        k := k + 1;
      }
      assert sizes[..k] == sizes;
    }

    /** _papi_mem_cleanup_all: no block stays described, and all stay allocated. */
    method CleanupAll()
      requires Valid()
      modifies this, nodes`next, nodes`prev
      ensures Valid() && nodes == [] && ptrs == [] && head == null
      ensures blocks == old(blocks) && dropped == |blocks|
    {
      var p := head;
      ghost var k := 0;
      while p != null
        invariant Valid() && p == head
        invariant k <= |old(nodes)| && nodes == old(nodes)[k..] && blocks == old(blocks)
        decreases |nodes|
      {
        var tmp := p.next;
        assert tmp == After(nodes, 0);
        Forget(p, 0);
        k := k + 1;
        p := tmp;
      }
    }
  }
}
