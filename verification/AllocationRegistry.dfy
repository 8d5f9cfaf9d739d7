/** The lists that track live blocks (src/memory_manager.c).
  *
  * Every block has a tracking node that is a member of two intrusive lists at once: the doubly linked
  * list of the whole process, beside a hash map from addresses to nodes, and the singly linked list of
  * the context that owns the block. */
module AllocationRegistry {
  import opened AllocationLedger

  class Allocation {
    const ptr: Address
    const size: nat
    const context: Context
    var nextInContext: Allocation?
    var nextGlobal: Allocation?
    var prevGlobal: Allocation?

    constructor (ptr: Address, size: nat, context: Context)
      ensures this.ptr == ptr && this.size == size && this.context == context
    {
      this.ptr, this.size, this.context := ptr, size, context;
      nextInContext, nextGlobal, prevGlobal := null, null, null;
    }
  }

  /** The element at position i, or null past either end. */
  ghost function Nth(nodes: seq<Allocation>, i: int): (node: Allocation?)
    ensures 0 <= i < |nodes| ==> node == nodes[i]
    ensures !(0 <= i < |nodes|) ==> node == null
  {
    if 0 <= i < |nodes| then nodes[i] else null
  }

  ghost predicate Distinct<T>(s: seq<T>) {
    forall i, j :: 0 <= i < j < |s| ==> s[i] != s[j]
  }

  ghost function Without<T>(s: seq<T>, k: nat): (r: seq<T>)
    requires k < |s|
    ensures |r| == |s| - 1
    ensures forall i :: 0 <= i < k ==> r[i] == s[i]
    ensures forall i :: k <= i < |r| ==> r[i] == s[i + 1]
  {
    s[..k] + s[k + 1..]
  }

  /** The sequence lists the elements of the set, each once. */
  ghost predicate Lists<T>(s: seq<T>, elements: set<T>)
    ensures Lists(s, elements) ==> forall i :: 0 <= i < |s| ==> s[i] in elements
  {
    if s == [] then elements == {} else s[0] in elements && Lists(s[1..], elements - {s[0]})
  }

  /** What that means position by position. */
  lemma {:induction false} ListsMeans<T>(s: seq<T>, elements: set<T>)
    requires Lists(s, elements)
    ensures Distinct(s)
    ensures forall a :: a in s <==> a in elements
    decreases |s|
  {
    if s == [] {
    } else {
      ListsMeans(s[1..], elements - {s[0]});
      assert s == [s[0]] + s[1..];
    }
  }

  lemma ListsPrepend<T>(a: T, s: seq<T>, elements: set<T>)
    requires Lists(s, elements) && a !in elements
    ensures Lists([a] + s, elements + {a})
  {
    assert ([a] + s)[1..] == s && elements + {a} - {a} == elements;
  }

  lemma {:induction false} ListsWithout<T>(s: seq<T>, elements: set<T>, k: nat)
    requires k < |s| && Lists(s, elements)
    ensures Lists(Without(s, k), elements - {s[k]})
    decreases |s|
  {
    if k == 0 {
      assert Without(s, 0) == s[1..];
    } else {
      ListsMeans(s, elements);
      ListsWithout(s[1..], elements - {s[0]}, k - 1);
      assert Without(s, k)[1..] == Without(s[1..], k - 1) && s[1..][k - 1] == s[k];
      assert elements - {s[0]} - {s[k]} == elements - {s[k]} - {s[0]};
    }
  }

  /** The map holds the nodes, each under its own address. */
  ghost predicate Tabulates(index: map<Address, Allocation>, nodes: set<Allocation>) {
    && (forall a {:trigger a.ptr} :: a in nodes ==> a.ptr in index && index[a.ptr] == a)
    && (forall p {:trigger index[p]} :: p in index ==> index[p] in nodes && index[p].ptr == p)
  }

  lemma TabulatesMore(index: map<Address, Allocation>, nodes: set<Allocation>, node: Allocation)
    requires Tabulates(index, nodes) && node.ptr !in index
    ensures Tabulates(index[node.ptr := node], nodes + {node})
  {
  }

  lemma TabulatesLess(index: map<Address, Allocation>, nodes: set<Allocation>, node: Allocation)
    requires Tabulates(index, nodes) && node in nodes
    ensures Tabulates(index - {node.ptr}, nodes - {node})
  {
  }

  // ---- The process-wide list and its map ----

  /** sshc_allocations and sshc_alloc_map; without the map the list is scanned instead. */
  class Registry {
    const mapped: bool
    var head: Allocation?
    var table: map<Address, Allocation>
    ghost var order: seq<Allocation>
    ghost var nodes: set<Allocation>
    ghost var index: map<Address, Allocation>

    /** The nodes are chained in this order, both ways. */
    ghost predicate Chained(nodes: seq<Allocation>)
      reads this`head, nodes`nextGlobal, nodes`prevGlobal
    {
      && head == Nth(nodes, 0)
      && (forall i {:trigger nodes[i].nextGlobal} :: 0 <= i < |nodes| ==> nodes[i].nextGlobal == Nth(nodes, i + 1))
      && (forall i {:trigger nodes[i].prevGlobal} :: 0 <= i < |nodes| ==> nodes[i].prevGlobal == Nth(nodes, i - 1))
    }

    ghost predicate Linked()
      reads this`head, this`order, this`nodes, nodes`nextGlobal, nodes`prevGlobal
    {
      Lists(order, nodes) && Chained(order)
    }

    ghost predicate Indexed()
      reads this`nodes, this`index, this`table
    {
      (mapped ==> table == index) && Tabulates(index, nodes)
    }

    lemma OnlyOne(node: Allocation)
      requires Indexed() && node in nodes
      ensures node.ptr in index && index[node.ptr] == node
      ensures forall a :: a in nodes && a.ptr == node.ptr ==> a == node
    {
    }

    constructor (mapped: bool)
      ensures this.mapped == mapped && nodes == {} && index == map[]
      ensures Linked() && Indexed()
    {
      this.mapped, head, table, order, nodes, index := mapped, null, map[], [], {}, map[];
    }

    /** Link a node in front of the list. */
    method Prepend(node: Allocation)
      requires Chained(order) && Distinct(order) && node !in order
      modifies this`head, node`nextGlobal, node`prevGlobal, order`prevGlobal
      ensures Chained([node] + order)
    {
      node.nextGlobal := head;
      node.prevGlobal := null;
      if head != null {
        head.prevGlobal := node;
      }
      head := node;
    }

    /** sshc_memory_registry_add */
    method Add(node: Allocation)
      requires Linked() && Indexed()
      requires node !in nodes && node.ptr !in index
      modifies this, node`nextGlobal, node`prevGlobal, nodes`prevGlobal
      ensures Linked() && Indexed()
      ensures order == [node] + old(order) && nodes == old(nodes) + {node}
      ensures index == old(index)[node.ptr := node]
    {
      ListsMeans(order, nodes);
      Prepend(node);
      if mapped {
        table := table[node.ptr := node];
      }
      ListsPrepend(node, order, nodes);
      TabulatesMore(index, nodes, node);
      order := [node] + order;
      nodes := nodes + {node};
      index := index[node.ptr := node];
    }

    /** Take the k-th node out of the list by its own two links. */
    method Splice(node: Allocation, ghost k: nat)
      requires Chained(order) && Distinct(order) && k < |order| && order[k] == node
      modifies this`head, order`nextGlobal, order`prevGlobal
      ensures Chained(Without(order, k))
    {
      if node.prevGlobal != null {
        node.prevGlobal.nextGlobal := node.nextGlobal;
      } else {
        head := node.nextGlobal;
      }
      if node.nextGlobal != null {
        node.nextGlobal.prevGlobal := node.prevGlobal;
      }
      node.nextGlobal := null;
      node.prevGlobal := null;
    }

    /** sshc_memory_registry_remove_locked */
    method Remove(node: Allocation) returns (ghost k: nat)
      requires Linked() && Indexed() && node in nodes
      modifies this, nodes`nextGlobal, nodes`prevGlobal
      ensures Linked() && Indexed()
      ensures k < |old(order)| && old(order)[k] == node && order == Without(old(order), k)
      ensures nodes == old(nodes) - {node}
      ensures index == old(index) - {node.ptr}
    {
      ListsMeans(order, nodes);
      k :| 0 <= k < |order| && order[k] == node;
      Splice(node, k);
      if mapped {
        table := table - {node.ptr};
      }
      ListsWithout(order, nodes, k);
      TabulatesLess(index, nodes, node);
      order := Without(order, k);
      nodes := nodes - {node};
      index := index - {node.ptr};
    }

    /** The search of sshc_gc_free, sshc_gc_realloc and sshc_memory_is_valid_gc_pointer: by the map, or
      * by walking the list. */
    method Find(ptr: Address) returns (node: Allocation?)
      requires Linked() && Indexed()
      ensures node == if ptr in index then index[ptr] else null
      ensures node == null ==> forall a :: a in nodes ==> a.ptr != ptr
    {
      if mapped {
        node := if ptr in table then table[ptr] else null;
      } else {
        ListsMeans(order, nodes);
        ghost var k := 0;
        node := head;
        while node != null
          invariant 0 <= k <= |order| && node == Nth(order, k)
          invariant forall j :: 0 <= j < k ==> order[j].ptr != ptr
          decreases |order| - k
        {
          if node.ptr == ptr {
            return;
          }
          node := node.nextGlobal;
          k := k + 1;
        }
      }
    }
  }

  // ---- The list of one context ----

  class Context {
    var allocations: Allocation?
    ghost var order: seq<Allocation>
    ghost var nodes: set<Allocation>

    ghost predicate Chained(nodes: seq<Allocation>)
      reads this`allocations, nodes`nextInContext
    {
      && allocations == Nth(nodes, 0)
      && (forall i {:trigger nodes[i].nextInContext} :: 0 <= i < |nodes| ==>
            nodes[i].nextInContext == Nth(nodes, i + 1))
    }

    /** The list holds the context's own nodes, each once. */
    ghost predicate Valid()
      reads this`allocations, this`order, this`nodes, nodes`nextInContext
    {
      && Lists(order, nodes) && Chained(order)
      && (forall a :: a in nodes ==> a.context == this)
    }

    constructor ()
      ensures Valid() && nodes == {}
    {
      allocations, order, nodes := null, [], {};
    }

    /** sshc_memory_context_init: whatever the memory held before, the list is empty. */
    method Init()
      modifies this`allocations, this`order, this`nodes
      ensures Valid() && nodes == {}
    {
      allocations, order, nodes := null, [], {};
    }

    /** sshc_memory_context_register_allocation */
    method Register(node: Allocation)
      requires Valid() && node !in nodes && node.context == this
      modifies this`allocations, this`order, this`nodes, node`nextInContext
      ensures Valid() && order == [node] + old(order) && nodes == old(nodes) + {node}
    {
      node.nextInContext := allocations;
      allocations := node;
      ListsPrepend(node, order, nodes);
      order := [node] + order;
      nodes := nodes + {node};
    }

    /** sshc_memory_context_remove_allocation: unlink the first node with this address. */
    method Remove(ptr: Address) returns (found: Allocation?, ghost k: nat)
      requires Valid()
      modifies this`allocations, this`order, this`nodes, nodes`nextInContext
      ensures Valid() && k <= |old(order)|
      ensures forall j :: 0 <= j < k ==> old(order)[j].ptr != ptr
      ensures found == null <==> ptr == 0 || k == |old(order)|
      ensures found == null ==> order == old(order) && nodes == old(nodes)
      ensures found == null && ptr != 0 ==> forall a :: a in nodes ==> a.ptr != ptr
      ensures found != null ==> old(order)[k] == found && found.ptr == ptr && order == Without(old(order), k)
      ensures found != null ==> nodes == old(nodes) - {found}
    {
      ListsMeans(order, nodes);
      k := 0;
      if ptr == 0 {
        return null, 0;
      }
      var prev: Allocation? := null;
      var cursor := allocations;
      while cursor != null && cursor.ptr != ptr
        invariant 0 <= k <= |order| && cursor == Nth(order, k) && prev == Nth(order, k - 1)
        invariant forall j :: 0 <= j < k ==> order[j].ptr != ptr
        decreases |order| - k
      {
        prev, cursor := cursor, cursor.nextInContext;
        k := k + 1;
      }
      found := cursor;
      if found != null {
        Unlink(prev, found, k);
        ListsWithout(order, nodes, k);
        order := Without(order, k);
        nodes := nodes - {found};
      }
    }

    /** The start of sshc_memory_context_reset: hand the whole list over, which stays chained from its head. */
    method Detach() returns (head: Allocation?)
      requires Valid()
      modifies this`allocations, this`order, this`nodes
      ensures Valid() && nodes == {} && head == Nth(old(order), 0)
    {
      head := allocations;
      allocations, order, nodes := null, [], {};
    }

    method Unlink(prev: Allocation?, node: Allocation, ghost k: nat)
      requires Chained(order) && Distinct(order) && k < |order| && order[k] == node && prev == Nth(order, k - 1)
      modifies this`allocations, order`nextInContext
      ensures Chained(Without(order, k))
    {
      if prev == null {
        allocations := node.nextInContext;
      } else {
        prev.nextInContext := node.nextInContext;
      }
    }
  }
}
