/** The memory manager's calls over the lists that track its blocks (src/memory_manager.c). */
module MemoryRuntime {
  import opened Bytes
  import opened AllocationRegistry
  import L = AllocationLedger

  /** The blocks a map of nodes and their bytes stand for. */
  ghost function Blocks(index: map<L.Address, Allocation>, memory: map<L.Address, seq<Byte>>)
    : (r: map<L.Address, L.Block<Context>>)
    requires index.Keys <= memory.Keys
  {
    map p | p in index :: L.Block(index[p].context, memory[p])
  }

  /** Every tracked block has an address and as many bytes as its node says. */
  ghost predicate Backed(index: map<L.Address, Allocation>, memory: map<L.Address, seq<Byte>>) {
    && 0 !in index && index.Keys <= memory.Keys
    && (forall p :: p in index ==> |memory[p]| == index[p].size)
  }

  lemma BlocksAdded(index: map<L.Address, Allocation>, memory: map<L.Address, seq<Byte>>,
                    node: Allocation, bytes: seq<Byte>)
    requires Backed(index, memory) && node.ptr != 0 && |bytes| == node.size
    ensures Backed(index[node.ptr := node], memory[node.ptr := bytes])
    ensures Blocks(index[node.ptr := node], memory[node.ptr := bytes])
         == Blocks(index, memory)[node.ptr := L.Block(node.context, bytes)]
  {
  }

  lemma BlocksRemoved(index: map<L.Address, Allocation>, memory: map<L.Address, seq<Byte>>, p: L.Address)
    requires Backed(index, memory)
    ensures Backed(index - {p}, memory - {p})
    ensures Blocks(index - {p}, memory - {p}) == Blocks(index, memory) - {p}
  {
  }

  /** What is left when some nodes have gone, for the ledger without one owner's blocks. */
  ghost predicate Remains(index: map<L.Address, Allocation>, memory: map<L.Address, seq<Byte>>,
                          was: map<L.Address, Allocation>, had: map<L.Address, seq<Byte>>, gone: set<Allocation>)
  {
    && (forall p :: p in index <==> p in was && was[p] !in gone)
    && (forall p :: p in index ==> index[p] == was[p])
    && (forall p :: p in index ==> p in memory && p in had && memory[p] == had[p])
  }

  /** The first i nodes of a list. */
  ghost function Taken(pending: seq<Allocation>, i: nat): (r: set<Allocation>)
    requires i <= |pending|
  {
    set a | a in pending[..i]
  }

  lemma TakenMore(pending: seq<Allocation>, i: nat)
    requires i < |pending| && Distinct(pending)
    ensures Taken(pending, i + 1) == Taken(pending, i) + {pending[i]} && pending[i] !in Taken(pending, i)
  {
    assert pending[..i + 1] == pending[..i] + [pending[i]];
  }

  lemma TakenAll(pending: seq<Allocation>, elements: set<Allocation>)
    requires Lists(pending, elements)
    ensures Taken(pending, |pending|) == elements
  {
    ListsMeans(pending, elements);
    assert pending[..|pending|] == pending;
  }

  lemma RemainsLess(index: map<L.Address, Allocation>, memory: map<L.Address, seq<Byte>>,
                    was: map<L.Address, Allocation>, had: map<L.Address, seq<Byte>>,
                    gone: set<Allocation>, node: Allocation)
    requires Remains(index, memory, was, had, gone)
    requires node.ptr in was && was[node.ptr] == node && forall p :: p in was && was[p] == node ==> p == node.ptr
    ensures Remains(index - {node.ptr}, memory - {node.ptr}, was, had, gone + {node})
  {
  }

  lemma RemainsEmptied(index: map<L.Address, Allocation>, memory: map<L.Address, seq<Byte>>,
                       was: map<L.Address, Allocation>, had: map<L.Address, seq<Byte>>,
                       gone: set<Allocation>, owner: Context,
                       live: set<Context>, root: Context)
    requires Backed(was, had) && Remains(index, memory, was, had, gone)
    requires forall p :: p in was ==> (was[p] in gone <==> was[p].context == owner)
    ensures Backed(index, memory)
    ensures L.Ledger(Blocks(index, memory), live, root) == L.Emptied(L.Ledger(Blocks(was, had), live, root), owner)
  {
  }

  lemma WrittenLedger(index: map<L.Address, Allocation>, memory: map<L.Address, seq<Byte>>,
                      ptr: L.Address, at: nat, value: Byte,
                      live: set<Context>, root: Context)
    requires Backed(index, memory) && ptr in index && at < |memory[ptr]|
    ensures Backed(index, memory[ptr := L.Poked(memory[ptr], at, value)])
    ensures L.Ledger(Blocks(index, memory[ptr := L.Poked(memory[ptr], at, value)]), live, root)
         == L.Written(L.Ledger(Blocks(index, memory), live, root), ptr, at, value)
  {
  }

  lemma BackAgain(index: map<L.Address, Allocation>, node: Allocation)
    requires node.ptr in index && index[node.ptr] == node
    ensures (index - {node.ptr})[node.ptr := node] == index
  {
  }

  /** The contexts a run creates. */
  ghost function Named(calls: seq<L.Call<Context>>): (r: set<Context>) {
    set call | call in calls && call.Create? :: call.owner
  }

  class Runtime {
    const registry: Registry
    const root: Context
    const limit: nat
    /** sshc_contexts, newest first. */
    var contexts: seq<Context>
    /** The bytes of the blocks, by address. */
    var memory: map<L.Address, seq<Byte>>
    ghost var live: set<Context>
    ghost var listed: set<Allocation>
    ghost var ledger: L.Ledger<Context>

    /** The contexts that exist, each once. */
    ghost predicate Enrolled()
      reads this`contexts, this`live
    {
      Lists(contexts, live) && root in live
    }

    /** Every context's list is well formed, and together they hold the listed nodes. */
    ghost predicate OwnLists()
      reads this`live, this`listed, live`allocations, live`order, live`nodes, listed`nextInContext
    {
      && (forall c :: c in live ==> c.nodes <= listed)
      && (forall c :: c in live ==> c.Valid())
      && (forall a :: a in listed ==> a.context in live && a in a.context.nodes)
    }

    /** The registry and the context lists hold the same nodes. */
    ghost predicate InStep()
      reads this`contexts, this`live, this`listed, registry, live, registry.nodes, listed
    {
      registry.nodes == listed && OwnLists() && registry.Linked() && registry.Indexed() && Enrolled()
    }

    /** The lists are in step, and the ledger is what they and the memory stand for. */
    ghost predicate Valid()
      reads this, registry, live, registry.nodes, listed
    {
      InStep() && Backed(registry.index, memory) && ledger == L.Ledger(Blocks(registry.index, memory), live, root)
    }

    /** sshc_memory_runtime_init; mapped says whether the hash map could be created. */
    constructor (mapped: bool, limit: nat)
      ensures Valid() && ledger == L.Ledger(map[], {root}, root) && this.limit == limit
    {
      var r := new Registry(mapped);
      var c := new Context();
      registry, root, this.limit := r, c, limit;
      contexts, live, listed := [c], {c}, {};
      memory, ledger := map[], L.Ledger(map[], {c}, c);
    }

    /** Link a node into its context's list. */
    method Enlist(node: Allocation)
      requires OwnLists() && node !in listed && node.context in live
      requires registry.Linked() && Enrolled()
      modifies this`listed, node`nextInContext, node.context`allocations, node.context`order, node.context`nodes
      ensures OwnLists() && listed == old(listed) + {node}
      ensures registry.Linked() && Enrolled()
    {
      node.context.Register(node);
      listed := listed + {node};
    }

    /** Link a node into the registry. */
    method Publish(node: Allocation)
      requires registry.Linked() && registry.Indexed() && node !in registry.nodes && node.ptr !in registry.index
      requires OwnLists() && Enrolled()
      modifies registry, registry.nodes`prevGlobal, node`nextGlobal, node`prevGlobal
      ensures registry.Linked() && registry.Indexed()
      ensures registry.nodes == old(registry.nodes) + {node} && registry.index == old(registry.index)[node.ptr := node]
      ensures OwnLists() && Enrolled()
    {
      registry.Add(node);
    }

    /** Set the bytes at an address, and the ledger. */
    method Store(ptr: L.Address, bytes: seq<Byte>, ghost l: L.Ledger<Context>)
      requires OwnLists() && Enrolled() && registry.Linked() && registry.Indexed()
      modifies this`memory, this`ledger
      ensures memory == old(memory)[ptr := bytes] && ledger == l
      ensures OwnLists() && Enrolled() && registry.Linked() && registry.Indexed()
    {
      memory, ledger := memory[ptr := bytes], l;
    }

    /** Take a node out of the registry; its context still lists it. */
    method Withdraw(node: Allocation)
      requires registry.Linked() && registry.Indexed() && node in registry.nodes
      requires OwnLists() && Enrolled()
      modifies registry, registry.nodes`nextGlobal, registry.nodes`prevGlobal
      ensures registry.Linked() && registry.Indexed()
      ensures registry.nodes == old(registry.nodes) - {node} && registry.index == old(registry.index) - {node.ptr}
      ensures OwnLists() && Enrolled()
    {
      ghost var k := registry.Remove(node);
    }

    /** Take a node out of its context's list. */
    method Forget(node: Allocation)
      requires OwnLists() && node in listed && node.ptr != 0
      requires forall a :: a in listed && a.ptr == node.ptr ==> a == node
      requires registry.Linked() && Enrolled()
      modifies this`listed, node.context`allocations, node.context`order, node.context`nodes, listed`nextInContext
      ensures OwnLists() && listed == old(listed) - {node}
      ensures registry.Linked() && Enrolled()
    {
      var found, k := node.context.Remove(node.ptr);
      listed := listed - {node};
    }

    /** Forget the bytes at an address, and set the ledger. */
    method Drop(ptr: L.Address, ghost l: L.Ledger<Context>)
      requires OwnLists() && Enrolled() && registry.Linked() && registry.Indexed()
      modifies this`memory, this`ledger
      ensures memory == old(memory) - {ptr} && ledger == l
      ensures OwnLists() && Enrolled() && registry.Linked() && registry.Indexed()
    {
      memory, ledger := memory - {ptr}, l;
    }

    /** Take a node out of both lists. */
    method Untrack(node: Allocation)
      requires InStep() && node in registry.nodes && node.ptr != 0
      modifies this`listed, registry, node.context`allocations, node.context`order, node.context`nodes
      modifies registry.nodes`nextGlobal, registry.nodes`prevGlobal, registry.nodes`nextInContext
      ensures InStep() && registry.nodes == old(registry.nodes) - {node}
      ensures registry.index == old(registry.index) - {node.ptr}
    {
      registry.OnlyOne(node);
      Withdraw(node);
      Forget(node);
    }

    /** Take a node out of both lists, and its bytes out of memory. */
    method Remove(node: Allocation, ghost l: L.Ledger<Context>)
      requires InStep() && node in registry.nodes && node.ptr != 0
      modifies this`memory, this`ledger, this`listed, registry
      modifies node.context`allocations, node.context`order, node.context`nodes
      modifies registry.nodes`nextGlobal, registry.nodes`prevGlobal, registry.nodes`nextInContext
      ensures InStep() && registry.nodes == old(registry.nodes) - {node}
      ensures registry.index == old(registry.index) - {node.ptr} && memory == old(memory) - {node.ptr} && ledger == l
    {
      Untrack(node);
      Drop(node.ptr, l);
    }

    /** Take a node out of the registry and put it back in front. */
    method Reinstate(node: Allocation)
      requires InStep() && node in registry.nodes
      modifies registry, registry.nodes`nextGlobal, registry.nodes`prevGlobal
      ensures InStep() && registry.index == old(registry.index)
    {
      BackAgain(registry.index, node);
      Withdraw(node);
      Publish(node);
    }

    /** Link a node into both lists. */
    method Link(node: Allocation)
      requires InStep() && node !in registry.nodes && node.context in live && node.ptr !in registry.index
      modifies this`listed, registry
      modifies registry.nodes`prevGlobal, node`nextGlobal, node`prevGlobal, node`nextInContext
      modifies node.context`allocations, node.context`order, node.context`nodes
      ensures InStep() && registry.nodes == old(registry.nodes) + {node}
      ensures registry.index == old(registry.index)[node.ptr := node]
    {
      Enlist(node);
      Publish(node);
    }

    /** Link a node into both lists, and put its bytes into memory. */
    method Track(node: Allocation, bytes: seq<Byte>, ghost l: L.Ledger<Context>)
      requires InStep() && node !in registry.nodes && node.context in live && node.ptr !in registry.index
      modifies this`memory, this`ledger, this`listed, registry
      modifies registry.nodes`prevGlobal, node`nextGlobal, node`prevGlobal, node`nextInContext
      modifies node.context`allocations, node.context`order, node.context`nodes
      ensures InStep() && registry.nodes == old(registry.nodes) + {node}
      ensures registry.index == old(registry.index)[node.ptr := node]
      ensures memory == old(memory)[node.ptr := bytes] && ledger == l
    {
      Link(node);
      Store(node.ptr, bytes, l);
    }

    /** Put a block and its bytes under the manager's control. */
    method Adopt(node: Allocation, bytes: seq<Byte>)
      requires Valid() && node !in registry.nodes && node.context in live
      requires node.ptr != 0 && node.ptr !in registry.index && |bytes| == node.size
      modifies this`memory, this`ledger, this`listed, registry
      modifies registry.nodes`prevGlobal, node`nextGlobal, node`prevGlobal, node`nextInContext
      modifies node.context`allocations, node.context`order, node.context`nodes
      ensures Valid() && registry.nodes == old(registry.nodes) + {node}
      ensures ledger == L.Placed(old(ledger), node.ptr, node.context, bytes)
    {
      BlocksAdded(registry.index, memory, node, bytes);
      Track(node, bytes, L.Placed(ledger, node.ptr, node.context, bytes));
    }

    /** A new node for a new block. */
    method Place(owner: Context, ptr: L.Address, size: nat, bytes: seq<Byte>)
      requires Valid() && owner in live
      requires ptr != 0 && ptr !in ledger.blocks && |bytes| == size
      modifies this`memory, this`ledger, this`listed, registry, registry.nodes`prevGlobal
      modifies owner`allocations, owner`order, owner`nodes
      ensures Valid() && forall a :: a in registry.nodes ==> a in old(registry.nodes) || fresh(a)
      ensures ledger == L.Placed(old(ledger), ptr, owner, bytes)
    {
      var node := new Allocation(ptr, size, owner);
      Adopt(node, bytes);
    }

    /** sshc_gc_malloc; node says whether the tracking node can be allocated. */
    method Malloc(owner: Context, size: nat, grant: L.Grant, node: bool) returns (ptr: L.Address)
      requires Valid() && owner in live && L.Honest(ledger, size, grant)
      modifies this`memory, this`ledger, this`listed, registry, registry.nodes`prevGlobal
      modifies owner`allocations, owner`order, owner`nodes
      ensures Valid() && forall a :: a in registry.nodes ==> a in old(registry.nodes) || fresh(a)
      ensures (ledger, ptr) == L.Malloced(old(ledger), owner, size, grant, node, limit)
    {
      var asked := if size == 0 then 1 else size;
      if L.TooLarge(asked, limit) || grant.Refused? || !node {
        return 0;
      }
      Place(owner, grant.ptr, asked, grant.bytes);
      ptr := grant.ptr;
    }

    /** Release a block. */
    method Release(node: Allocation)
      requires Valid() && node in registry.nodes
      modifies this`memory, this`ledger, this`listed, registry
      modifies node.context`allocations, node.context`order, node.context`nodes
      modifies registry.nodes`nextGlobal, registry.nodes`prevGlobal, registry.nodes`nextInContext
      ensures Valid() && registry.nodes == old(registry.nodes) - {node}
      ensures ledger == L.Freed(old(ledger), node.ptr)
    {
      BlocksRemoved(registry.index, memory, node.ptr);
      Remove(node, L.Freed(ledger, node.ptr));
    }

    /** sshc_gc_free */
    method Free(ptr: L.Address)
      requires Valid()
      modifies this`memory, this`ledger, this`listed, registry, live`allocations, live`order, live`nodes
      modifies registry.nodes`nextGlobal, registry.nodes`prevGlobal, registry.nodes`nextInContext
      ensures Valid() && registry.nodes <= old(registry.nodes)
      ensures ledger == L.Freed(old(ledger), ptr)
    {
      L.FreeIsFinal(ledger, ptr);
      if ptr == 0 {
        return;
      }
      var node := registry.Find(ptr);
      if node != null {
        Release(node);
      }
    }

    /** sshc_memory_is_valid_gc_pointer */
    method IsValidPointer(ptr: L.Address) returns (found: bool)
      requires Valid()
      ensures found <==> ptr in ledger.blocks
    {
      if ptr == 0 {
        return false;
      }
      var node := registry.Find(ptr);
      found := node != null;
    }

    /** The memcpy of sshc_gc_realloc: the common prefix over the bytes of the new block. */
    method Copied(node: Allocation, size: nat, grown: seq<Byte>) returns (bytes: seq<Byte>)
      requires Valid() && node in registry.nodes && |grown| == size
      ensures node.ptr != 0 && node.ptr in ledger.blocks && ledger.blocks[node.ptr].owner == node.context
      ensures bytes == L.Resized(ledger.blocks[node.ptr].bytes, grown)
    {
      registry.OnlyOne(node);
      var n := if node.size < size then node.size else size;
      bytes := memory[node.ptr][..n] + grown[n..];
    }

    /** Release a block and put another in its context. */
    method Replace(node: Allocation, ptr: L.Address, size: nat, bytes: seq<Byte>)
      requires Valid() && node in registry.nodes
      requires ptr != 0 && ptr !in ledger.blocks && |bytes| == size
      modifies this`memory, this`ledger, this`listed, registry
      modifies node.context`allocations, node.context`order, node.context`nodes
      modifies registry.nodes`nextGlobal, registry.nodes`prevGlobal, registry.nodes`nextInContext
      ensures Valid() && forall a :: a in registry.nodes ==> a in old(registry.nodes) || fresh(a)
      ensures ledger == L.Placed(L.Freed(old(ledger), node.ptr), ptr, node.context, bytes)
    {
      Release(node);
      Place(node.context, ptr, size, bytes);
    }

    /** sshc_gc_realloc */
    method Realloc(owner: Context, ptr: L.Address, size: nat, grant: L.Grant, node: bool) returns (r: L.Address)
      requires Valid() && owner in live && L.Honest(ledger, size, grant)
      modifies this`memory, this`ledger, this`listed, registry, live`allocations, live`order, live`nodes
      modifies registry.nodes`nextGlobal, registry.nodes`prevGlobal, registry.nodes`nextInContext
      ensures Valid() && forall a :: a in registry.nodes ==> a in old(registry.nodes) || fresh(a)
      ensures (ledger, r) == L.Realloced(old(ledger), owner, ptr, size, grant, node, limit)
    {
      if ptr == 0 {
        r := Malloc(owner, size, grant, node);
        return;
      }
      if size == 0 {
        Free(ptr);
        return 0;
      }
      if L.TooLarge(size, limit) {
        return 0;
      }
      var known := registry.Find(ptr);
      if known != null {
        r := ReallocKnown(known, size, grant);
      } else if grant.Refused? {
        r := 0;
      } else {
        r := Malloc(owner, size, grant, node);
      }
    }

    /** The part of sshc_gc_realloc for a block the registry knows: it is put back when no new block is
      * granted, and moved otherwise. */
    method ReallocKnown(known: Allocation, size: nat, grant: L.Grant) returns (r: L.Address)
      requires Valid() && known in registry.nodes
      requires size > 0 && !L.TooLarge(size, limit) && L.Honest(ledger, size, grant)
      modifies this`memory, this`ledger, this`listed, registry, live`allocations, live`order, live`nodes
      modifies registry.nodes`nextGlobal, registry.nodes`prevGlobal, registry.nodes`nextInContext
      ensures Valid() && forall a :: a in registry.nodes ==> a in old(registry.nodes) || fresh(a)
      ensures (ledger, r) == L.Realloced(old(ledger), known.context, known.ptr, size, grant, true, limit)
    {
      if grant.Refused? {
        Reinstate(known);
        return 0;
      }
      var bytes := Copied(known, size, grant.bytes);
      Replace(known, grant.ptr, size, bytes);
      r := grant.ptr;
    }

    /** Empty a context's list; its nodes stay in the registry for now. */
    method DetachAll(ctx: Context) returns (head: Allocation?)
      requires OwnLists() && ctx in live && registry.Linked() && Enrolled()
      modifies this`listed, ctx`allocations, ctx`order, ctx`nodes
      ensures OwnLists() && registry.Linked() && Enrolled()
      ensures head == Nth(old(ctx.order), 0) && ctx.nodes == {} && listed == old(listed) - old(ctx.nodes)
    {
      head := ctx.Detach();
      listed := listed - old(ctx.nodes);
    }

    /** Take a node of the detached list out of the registry, and its bytes out of memory. */
    method Discard(node: Allocation, ghost was: map<L.Address, Allocation>, ghost had: map<L.Address, seq<Byte>>,
                   ghost gone: set<Allocation>)
      requires registry.Linked() && registry.Indexed() && node in registry.nodes
      requires Remains(registry.index, memory, was, had, gone) && node.ptr in was && was[node.ptr] == node
      requires forall p :: p in was && was[p] == node ==> p == node.ptr
      modifies this`memory, registry, registry.nodes`nextGlobal, registry.nodes`prevGlobal
      ensures registry.Linked() && registry.Indexed() && registry.nodes == old(registry.nodes) - {node}
      ensures Remains(registry.index, memory, was, had, gone + {node})
    {
      RemainsLess(registry.index, memory, was, had, gone, node);
      ghost var k := registry.Remove(node);
      memory := memory - {node.ptr};
    }

    /** The loop of sshc_memory_context_reset over the detached list: each node leaves the registry, and its
      * block goes. */
    method Drain(head: Allocation?, ghost pending: seq<Allocation>, ghost elements: set<Allocation>)
      requires registry.Linked() && registry.Indexed() && registry.index.Keys <= memory.Keys
      requires Lists(pending, elements) && elements <= registry.nodes && head == Nth(pending, 0)
      requires forall i {:trigger pending[i].nextInContext} ::
                 0 <= i < |pending| ==> pending[i].nextInContext == Nth(pending, i + 1)
      modifies this`memory, registry, registry.nodes`nextGlobal, registry.nodes`prevGlobal
      ensures registry.Linked() && registry.Indexed() && registry.nodes == old(registry.nodes) - elements
      ensures Remains(registry.index, memory, old(registry.index), old(memory), elements)
    {
      ListsMeans(pending, elements);
      var cursor := head;
      ghost var i := 0;
      while cursor != null
        invariant 0 <= i <= |pending| && cursor == Nth(pending, i)
        invariant registry.Linked() && registry.Indexed() && Tabulates(old(registry.index), old(registry.nodes))
        invariant registry.nodes == old(registry.nodes) - Taken(pending, i)
        invariant Remains(registry.index, memory, old(registry.index), old(memory), Taken(pending, i))
        decreases |pending| - i
      {
        var next := cursor.nextInContext;
        TakenMore(pending, i);
        Discard(cursor, old(registry.index), old(memory), Taken(pending, i));
        cursor := next;
        i := i + 1;
      }
      TakenAll(pending, elements);
    }

    /** The same, with the context lists in view: they are not touched. */
    method DrainAside(head: Allocation?, ghost pending: seq<Allocation>, ghost elements: set<Allocation>)
      requires OwnLists() && Enrolled()
      requires registry.Linked() && registry.Indexed() && registry.index.Keys <= memory.Keys
      requires Lists(pending, elements) && elements <= registry.nodes && head == Nth(pending, 0)
      requires forall i {:trigger pending[i].nextInContext} ::
                 0 <= i < |pending| ==> pending[i].nextInContext == Nth(pending, i + 1)
      modifies this`memory, registry, registry.nodes`nextGlobal, registry.nodes`prevGlobal
      ensures OwnLists() && Enrolled()
      ensures registry.Linked() && registry.Indexed() && registry.nodes == old(registry.nodes) - elements
      ensures Remains(registry.index, memory, old(registry.index), old(memory), elements)
    {
      Drain(head, pending, elements);
    }

    /** A context lists exactly the nodes of its own blocks. */
    lemma OwnNodes(ctx: Context)
      requires InStep() && ctx in live
      ensures ctx.nodes <= registry.nodes
      ensures forall p :: p in registry.index ==> (registry.index[p] in ctx.nodes <==> registry.index[p].context == ctx)
    {
    }

    /** Take all of a context's nodes out of both lists. */
    method UntrackAll(ctx: Context)
      requires InStep() && ctx in live && registry.index.Keys <= memory.Keys && ctx.nodes <= registry.nodes
      modifies this`memory, this`ledger, this`listed, ctx
      modifies registry, registry.nodes`nextGlobal, registry.nodes`prevGlobal
      ensures InStep() && ctx.nodes == {} && registry.nodes <= old(registry.nodes)
      ensures Remains(registry.index, memory, old(registry.index), old(memory), old(ctx.nodes))
    {
      var head := DetachAll(ctx);
      DrainAside(head, old(ctx.order), old(ctx.nodes));
    }

    /** Set the ledger alone. */
    ghost method Record(l: L.Ledger<Context>)
      requires InStep()
      modifies this`ledger
      ensures InStep() && ledger == l
    {
      ledger := l;
    }

    /** Release all blocks of a context. */
    method ResetOwn(ctx: Context)
      requires Valid() && ctx in live
      modifies this`memory, this`ledger, this`listed, ctx
      modifies registry, registry.nodes`nextGlobal, registry.nodes`prevGlobal
      ensures Valid() && ctx.nodes == {} && registry.nodes <= old(registry.nodes)
      ensures ledger == L.Emptied(old(ledger), ctx)
    {
      OwnNodes(ctx);
      UntrackAll(ctx);
      Record(L.Emptied(old(ledger), ctx));
      RemainsEmptied(registry.index, memory, old(registry.index), old(memory), old(ctx.nodes), ctx, live, root);
    }

    /** sshc_memory_context_reset */
    method Reset(ctx: Context?)
      requires Valid() && (ctx != null ==> ctx in live)
      modifies this`memory, this`ledger, this`listed, registry, registry.nodes`nextGlobal, registry.nodes`prevGlobal
      modifies if ctx == null then {} else {ctx}
      ensures Valid() && registry.nodes <= old(registry.nodes)
      ensures ledger == if ctx == null then old(ledger) else L.Emptied(old(ledger), ctx)
    {
      if ctx != null {
        ResetOwn(ctx);
      }
    }

    /** The walk along the list of contexts. */
    method PositionOf(ctx: Context) returns (k: nat)
      requires Enrolled() && ctx in live
      ensures k < |contexts| && contexts[k] == ctx
    {
      ListsMeans(contexts, live);
      k := 0;
      while contexts[k] != ctx
        invariant 0 <= k < |contexts| && ctx in contexts[k..]
        decreases |contexts| - k
      {
        k := k + 1;
      }
    }

    /** The end of sshc_memory_context_destroy: look the context up in the list of contexts and unlink it. */
    method Delist(ctx: Context)
      requires InStep() && ctx in live && ctx != root && ctx.nodes == {}
      modifies this`contexts, this`live, this`ledger
      ensures InStep() && live == old(live) - {ctx} && ledger == old(ledger).(live := live)
    {
      var k := PositionOf(ctx);
      ListsWithout(contexts, live, k);
      contexts := contexts[..k] + contexts[k + 1..];
      live := live - {ctx};
      ledger := ledger.(live := live);
    }

    /** Take an empty context out of the list. */
    method Dismiss(ctx: Context)
      requires Valid() && ctx in live && ctx != root && ctx.nodes == {}
      modifies this`contexts, this`live, this`ledger
      ensures Valid() && ledger == old(ledger).(live := old(ledger).live - {ctx})
    {
      Delist(ctx);
    }

    /** sshc_memory_context_destroy */
    method Destroy(ctx: Context?)
      requires Valid() && (ctx != null ==> ctx in live)
      modifies this`memory, this`ledger, this`listed, this`contexts, this`live
      modifies registry, registry.nodes`nextGlobal, registry.nodes`prevGlobal
      modifies if ctx == null then {} else {ctx}
      ensures Valid() && registry.nodes <= old(registry.nodes)
      ensures ledger == if ctx == null then old(ledger) else L.Destroyed(old(ledger), ctx)
    {
      if ctx == null || ctx == root {
        return;
      }
      ResetOwn(ctx);
      Dismiss(ctx);
    }

    /** Put an empty context in front of the list. */
    method Enroll(ctx: Context)
      requires InStep() && ctx !in live && ctx.Valid() && ctx.nodes == {}
      modifies this`contexts, this`live, this`ledger
      ensures InStep() && live == old(live) + {ctx} && ledger == old(ledger).(live := live)
    {
      ListsPrepend(ctx, contexts, live);
      contexts := [ctx] + contexts;
      live := live + {ctx};
      ledger := ledger.(live := live);
    }

    /** Make an empty context of a block of memory. */
    method Initialise(block: Context)
      requires InStep() && block !in live
      modifies block`allocations, block`order, block`nodes
      ensures InStep() && block.Valid() && block.nodes == {}
    {
      block.Init();
    }

    /** sshc_memory_context_create; block is what the allocator answers, null when it refuses. */
    method Create(block: Context?) returns (ctx: Context?)
      requires Valid() && (block != null ==> block !in live)
      modifies this`contexts, this`live, this`ledger
      modifies if block == null then {} else {block}
      ensures Valid() && ctx == block
      ensures ledger == if block == null then old(ledger) else L.Created(old(ledger), block)
    {
      ctx := block;
      if block != null {
        Initialise(block);
        Enroll(block);
      }
    }

    /** The program writes into one of its blocks. */
    method Write(ptr: L.Address, at: nat, value: Byte)
      requires Valid() && ptr in ledger.blocks && at < |ledger.blocks[ptr].bytes|
      modifies this`memory, this`ledger
      ensures Valid() && ledger == L.Written(old(ledger), ptr, at, value)
    {
      WrittenLedger(registry.index, memory, ptr, at, value, live, root);
      Store(ptr, L.Poked(memory[ptr], at, value), L.Written(ledger, ptr, at, value));
    }

    /** One call of a run. */
    method Perform(call: L.Call<Context>)
      requires Valid() && L.Allowed(ledger, call)
      modifies this, registry, registry.nodes, live, Named([call])
      ensures Valid() && ledger == L.Apply(old(ledger), call, limit)
      ensures live <= old(live) + Named([call])
      ensures forall a :: a in registry.nodes ==> a in old(registry.nodes) || fresh(a)
    {
      match call
      case Malloc(owner, size, grant, node) =>
        var ptr := Malloc(owner, size, grant, node);
      case Realloc(owner, ptr, size, grant, node) =>
        var r := Realloc(owner, ptr, size, grant, node);
      case Free(ptr) => Free(ptr);
      case Create(owner) =>
        assert owner in Named([call]);
        var ctx := Create(owner);
      case Reset(owner) => Reset(owner);
      case Destroy(owner) => Destroy(owner);
      case Write(ptr, at, value) => Write(ptr, at, value);
    }

    /** Any run of calls keeps the lists in step and makes the ledger's changes, one after the other. */
    method Replay(calls: seq<L.Call<Context>>)
      requires Valid() && L.Possible(ledger, calls, limit)
      modifies this, registry, registry.nodes, live, Named(calls)
      ensures Valid() && ledger == L.After(old(ledger), calls, limit)
      decreases |calls|
    {
      if calls != [] {
        assert Named([calls[0]]) <= Named(calls) && Named(calls[1..]) <= Named(calls);
        Perform(calls[0]);
        Replay(calls[1..]);
      }
    }
  }
}
