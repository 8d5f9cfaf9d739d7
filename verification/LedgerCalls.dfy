/** What each call of the memory manager gives its caller (src/memory_manager.c), in terms of the blocks before and
  * after. */
module LedgerCalls {
  import opened Bytes
  import opened AllocationLedger

  /** The call is not over the limit on one allocation; the largest size_t stands for no limit. */
  predicate WithinLimit(size: nat, limit: nat) {
    limit == 0xFFFF_FFFF_FFFF_FFFF || size <= limit
  }

  /** Every other block is as it was. */
  ghost predicate OthersSame<C>(l: Ledger<C>, l': Ledger<C>, p: Address) {
    && l'.live == l.live && l'.root == l.root
    && forall q :: q != p ==> (q in l'.blocks <==> q in l.blocks) && (q in l.blocks ==> l'.blocks[q] == l.blocks[q])
  }

  /** malloc: a block of the size asked for, at least one byte, owned by the caller, or nothing at all. */
  lemma MallocMeans<C>(l: Ledger<C>, owner: C, size: nat, grant: Grant, node: bool, limit: nat)
    requires Honest(l, size, grant)
    ensures var (l', p) := Malloced(l, owner, size, grant, node, limit);
            if grant.Granted? && node && WithinLimit(if size == 0 then 1 else size, limit)
            then p == grant.ptr != 0 && OthersSame(l, l', p) && p !in l.blocks && p in l'.blocks
                 && l'.blocks[p].owner == owner && |l'.blocks[p].bytes| == (if size == 0 then 1 else size)
            else p == 0 && l' == l
  {
  }

  /** realloc of a block: freed at size 0; otherwise moved, in its own context, to a block of the new size with
    * the common prefix of its bytes, or left alone. */
  lemma ReallocMeans<C>(l: Ledger<C>, owner: C, ptr: Address, size: nat, grant: Grant, node: bool, limit: nat)
    requires Honest(l, size, grant) && ptr != 0 && ptr in l.blocks
    ensures var (l', p) := Realloced(l, owner, ptr, size, grant, node, limit);
            if size == 0 then p == 0 && ptr !in l'.blocks && OthersSame(l, l', ptr)
            else if grant.Granted? && WithinLimit(size, limit)
            then && p == grant.ptr != 0 && p != ptr && p in l'.blocks && ptr !in l'.blocks
                 && l'.blocks[p].owner == l.blocks[ptr].owner && |l'.blocks[p].bytes| == size
                 && (forall k :: 0 <= k < size && k < |l.blocks[ptr].bytes| ==>
                       l'.blocks[p].bytes[k] == l.blocks[ptr].bytes[k])
                 && l'.live == l.live && l'.root == l.root
                 && forall q :: q != p && q != ptr ==>
                      (q in l'.blocks <==> q in l.blocks) && (q in l.blocks ==> l'.blocks[q] == l.blocks[q])
            else p == 0 && l' == l
  {
  }

  /** realloc of null is malloc; of an address nobody holds it is malloc too, but nothing at size 0. */
  lemma ReallocOfOther<C>(l: Ledger<C>, owner: C, ptr: Address, size: nat, grant: Grant, node: bool, limit: nat)
    requires ptr == 0 || ptr !in l.blocks
    ensures Realloced(l, owner, ptr, size, grant, node, limit) ==
              if ptr != 0 && size == 0 then (l, 0) else Malloced(l, owner, size, grant, node, limit)
  {
    if ptr != 0 && size == 0 {
      assert l.blocks - {ptr} == l.blocks;
    }
  }

  /** free: that block is gone, and nothing else. */
  lemma FreeMeans<C>(l: Ledger<C>, ptr: Address)
    ensures ptr !in Freed(l, ptr).blocks && OthersSame(l, Freed(l, ptr), ptr)
  {
  }

  /** reset: exactly the blocks of the context are gone. */
  lemma ResetMeans<C>(l: Ledger<C>, owner: C, p: Address)
    ensures var l' := Emptied(l, owner);
            && (p in l'.blocks <==> p in l.blocks && l.blocks[p].owner != owner)
            && (p in l'.blocks ==> l'.blocks[p] == l.blocks[p])
            && l'.live == l.live && l'.root == l.root
  {
  }

  /** destroy: so is the context, unless it is the global one, which stays with its blocks. */
  lemma DestroyMeans<C>(l: Ledger<C>, owner: C, p: Address)
    ensures var l' := Destroyed(l, owner);
            && (p in l'.blocks <==> p in l.blocks && (l.blocks[p].owner != owner || owner == l.root))
            && (p in l'.blocks ==> l'.blocks[p] == l.blocks[p])
            && (forall c :: c in l'.live <==> c in l.live && (c != owner || c == l.root)) && l'.root == l.root
  {
  }

  /** A byte written is the byte read there, and no other byte of any block changes. */
  lemma WriteMeans<C>(l: Ledger<C>, ptr: Address, at: nat, value: Byte, k: nat)
    requires ptr in l.blocks && at < |l.blocks[ptr].bytes| && k < |l.blocks[ptr].bytes|
    ensures var l' := Written(l, ptr, at, value);
            && OthersSame(l, l', ptr) && ptr in l'.blocks && l'.blocks[ptr].owner == l.blocks[ptr].owner
            && |l'.blocks[ptr].bytes| == |l.blocks[ptr].bytes|
            && l'.blocks[ptr].bytes[k] == if k == at then value else l.blocks[ptr].bytes[k]
  {
  }
}
