/** What the memory manager promises its callers: a table of blocks, each owned by one context
  * (src/memory_manager.c). */
module AllocationLedger {
  import opened Bytes

  /** Where a block starts; 0 is the null pointer. */
  newtype Address = x: int | 0 <= x

  datatype Block<C> = Block(owner: C, bytes: seq<Byte>)

  /** The blocks by address, the contexts that exist, and the one that is never destroyed. */
  datatype Ledger<C(==)> = Ledger(blocks: map<Address, Block<C>>, live: set<C>, root: C)

  /** What the allocator answers: nothing, or a block with whatever its bytes happen to be. */
  datatype Grant = Refused | Granted(ptr: Address, bytes: seq<Byte>)

  /** The requests a program makes, with the allocator's answers; node says whether a tracking node could
    * be allocated, and owner is the caller's current context, or the one created, reset or destroyed. */
  datatype Call<C> =
    | Malloc(owner: C, size: nat, grant: Grant, node: bool)
    | Realloc(owner: C, ptr: Address, size: nat, grant: Grant, node: bool)
    | Free(ptr: Address)
    | Create(owner: C)
    | Reset(owner: C)
    | Destroy(owner: C)
    | Write(ptr: Address, at: nat, value: Byte)

  predicate TooLarge(size: nat, limit: nat) {
    limit != SIZE_MAX && size > limit
  }

  function AtLeastOne(size: nat): nat {
    if size == 0 then 1 else size
  }

  /** memcpy of the common prefix into a new block. */
  function Resized(bytes: seq<Byte>, grown: seq<Byte>): (r: seq<Byte>)
    ensures |r| == |grown|
    ensures forall i :: 0 <= i < |r| ==> r[i] == if i < |bytes| then bytes[i] else grown[i]
  {
    var n := if |bytes| < |grown| then |bytes| else |grown|;
    bytes[..n] + grown[n..]
  }

  function Placed<C>(l: Ledger<C>, ptr: Address, owner: C, bytes: seq<Byte>): (r: Ledger<C>) {
    l.(blocks := l.blocks[ptr := Block(owner, bytes)])
  }

  function Malloced<C>(l: Ledger<C>, owner: C, size: nat, grant: Grant, node: bool, limit: nat)
    : (r: (Ledger<C>, Address))
  {
    if TooLarge(AtLeastOne(size), limit) || grant.Refused? || !node then (l, 0)
    else (Placed(l, grant.ptr, owner, grant.bytes), grant.ptr)
  }

  function Freed<C>(l: Ledger<C>, ptr: Address): (r: Ledger<C>) {
    l.(blocks := l.blocks - {ptr})
  }

  /** A known block moves, inside its own context; an unknown address starts a block of its own. */
  function Realloced<C>(l: Ledger<C>, owner: C, ptr: Address, size: nat, grant: Grant, node: bool, limit: nat)
    : (r: (Ledger<C>, Address))
  {
    if ptr == 0 then Malloced(l, owner, size, grant, node, limit)
    else if size == 0 then (Freed(l, ptr), 0)
    else if TooLarge(size, limit) || grant.Refused? then (l, 0)
    else if ptr in l.blocks then
      var b := l.blocks[ptr];
      (Placed(Freed(l, ptr), grant.ptr, b.owner, Resized(b.bytes, grant.bytes)), grant.ptr)
    else if !node then (l, 0)
    else (Placed(l, grant.ptr, owner, grant.bytes), grant.ptr)
  }

  function Created<C>(l: Ledger<C>, owner: C): (r: Ledger<C>) {
    l.(live := l.live + {owner})
  }

  function Emptied<C>(l: Ledger<C>, owner: C): (r: Ledger<C>) {
    l.(blocks := map p | p in l.blocks && l.blocks[p].owner != owner :: l.blocks[p])
  }

  function Destroyed<C>(l: Ledger<C>, owner: C): (r: Ledger<C>) {
    if owner == l.root then l else Emptied(l, owner).(live := l.live - {owner})
  }

  function Poked(bytes: seq<Byte>, at: nat, value: Byte): (r: seq<Byte>)
    requires at < |bytes|
    ensures |r| == |bytes|
  {
    bytes[at := value]
  }

  function Written<C>(l: Ledger<C>, ptr: Address, at: nat, value: Byte): (r: Ledger<C>)
    requires ptr in l.blocks && at < |l.blocks[ptr].bytes|
  {
    l.(blocks := l.blocks[ptr := l.blocks[ptr].(bytes := Poked(l.blocks[ptr].bytes, at, value))])
  }

  /** The allocator hands out blocks of the size asked for at addresses that are not in use. */
  predicate Honest<C>(l: Ledger<C>, size: nat, grant: Grant) {
    grant.Granted? ==> grant.ptr != 0 && grant.ptr !in l.blocks && |grant.bytes| == AtLeastOne(size)
  }

  /** Calls name existing contexts, and programs write inside their blocks. */
  predicate Allowed<C>(l: Ledger<C>, call: Call<C>) {
    match call
    case Malloc(owner, size, grant, _) => owner in l.live && Honest(l, size, grant)
    case Realloc(owner, _, size, grant, _) => owner in l.live && Honest(l, size, grant)
    case Free(_) => true
    case Create(owner) => owner !in l.live
    case Reset(owner) => owner in l.live
    case Destroy(owner) => owner in l.live
    case Write(ptr, at, _) => ptr in l.blocks && at < |l.blocks[ptr].bytes|
  }

  function Apply<C>(l: Ledger<C>, call: Call<C>, limit: nat): (r: Ledger<C>)
    requires Allowed(l, call)
  {
    match call
    case Malloc(owner, size, grant, node) => Malloced(l, owner, size, grant, node, limit).0
    case Realloc(owner, ptr, size, grant, node) => Realloced(l, owner, ptr, size, grant, node, limit).0
    case Free(ptr) => Freed(l, ptr)
    case Create(owner) => Created(l, owner)
    case Reset(owner) => Emptied(l, owner)
    case Destroy(owner) => Destroyed(l, owner)
    case Write(ptr, at, value) => Written(l, ptr, at, value)
  }

  ghost predicate Possible<C>(l: Ledger<C>, calls: seq<Call<C>>, limit: nat)
    decreases |calls|
  {
    calls != [] ==> Allowed(l, calls[0]) && Possible(Apply(l, calls[0], limit), calls[1..], limit)
  }

  ghost function After<C>(l: Ledger<C>, calls: seq<Call<C>>, limit: nat): (r: Ledger<C>)
    requires Possible(l, calls, limit)
    decreases |calls|
  {
    if calls == [] then l else After(Apply(l, calls[0], limit), calls[1..], limit)
  }

  // ---- One call ----

  /** Freeing an address a second time, or one that was never handed out, changes nothing. */
  lemma FreeIsFinal<C>(l: Ledger<C>, ptr: Address)
    ensures Freed(Freed(l, ptr), ptr) == Freed(l, ptr)
    ensures ptr !in l.blocks ==> Freed(l, ptr) == l
  {
  }

  /** Growing a block and shrinking it back gives the block it was, in the same context. */
  lemma GrowThenShrink<C>(l: Ledger<C>, owner: C, ptr: Address, grown: Grant, back: Grant, limit: nat)
    requires ptr != 0 && ptr in l.blocks && grown.Granted? && back.Granted?
    requires 0 < |l.blocks[ptr].bytes| == |back.bytes| <= |grown.bytes|
    requires !TooLarge(|grown.bytes|, limit)
    requires Honest(l, |grown.bytes|, grown)
    requires Honest(Realloced(l, owner, ptr, |grown.bytes|, grown, true, limit).0, |back.bytes|, back)
    ensures var (bigger, at) := Realloced(l, owner, ptr, |grown.bytes|, grown, true, limit);
            var (again, at') := Realloced(bigger, owner, at, |back.bytes|, back, true, limit);
            at' in again.blocks && again.blocks[at'] == l.blocks[ptr]
  {
  }

  // ---- Whole runs ----

  /** A call that may change this block. */
  predicate Concerns<C(==)>(l: Ledger<C>, call: Call<C>, ptr: Address)
    requires ptr in l.blocks
  {
    match call
    case Malloc(_, _, _, _) => false
    case Realloc(_, p, _, _, _) => p == ptr
    case Free(p) => p == ptr
    case Create(_) => false
    case Reset(owner) => owner == l.blocks[ptr].owner
    case Destroy(owner) => owner == l.blocks[ptr].owner
    case Write(p, _, _) => p == ptr
  }

  ghost predicate Unconcerned<C>(l: Ledger<C>, calls: seq<Call<C>>, limit: nat, ptr: Address)
    requires Possible(l, calls, limit)
    decreases |calls|
  {
    calls == [] ||
    (ptr in l.blocks && !Concerns(l, calls[0], ptr) && Unconcerned(Apply(l, calls[0], limit), calls[1..], limit, ptr))
  }

  lemma OthersStay<C>(l: Ledger<C>, call: Call<C>, limit: nat, ptr: Address)
    requires Allowed(l, call) && ptr in l.blocks && !Concerns(l, call, ptr)
    ensures ptr in Apply(l, call, limit).blocks && Apply(l, call, limit).blocks[ptr] == l.blocks[ptr]
  {
  }

  /** A block keeps its address, owner and bytes until a call names it or its context. */
  lemma {:induction false} BlockSurvives<C>(l: Ledger<C>, calls: seq<Call<C>>, limit: nat, ptr: Address)
    requires ptr in l.blocks && Possible(l, calls, limit) && Unconcerned(l, calls, limit, ptr)
    ensures ptr in After(l, calls, limit).blocks && After(l, calls, limit).blocks[ptr] == l.blocks[ptr]
    decreases |calls|
  {
    if calls == [] {
    } else {
      OthersStay(l, calls[0], limit, ptr);
      BlockSurvives(Apply(l, calls[0], limit), calls[1..], limit, ptr);
    }
  }

  /** Blocks belong to existing contexts and their addresses are not null. */
  ghost predicate Sound<C>(l: Ledger<C>) {
    && l.root in l.live && 0 !in l.blocks
    && forall p :: p in l.blocks ==> l.blocks[p].owner in l.live
  }

  lemma StepKeepsSound<C>(l: Ledger<C>, call: Call<C>, limit: nat)
    requires Sound(l) && Allowed(l, call)
    ensures Sound(Apply(l, call, limit))
  {
  }

  /** After any run every block's owner still exists. */
  lemma {:induction false} RunKeepsSound<C>(l: Ledger<C>, calls: seq<Call<C>>, limit: nat)
    requires Sound(l) && Possible(l, calls, limit)
    ensures Sound(After(l, calls, limit))
    decreases |calls|
  {
    if calls == [] {
    } else {
      StepKeepsSound(l, calls[0], limit);
      RunKeepsSound(Apply(l, calls[0], limit), calls[1..], limit);
    }
  }

  // ---- One context among others ----

  /** The address is nobody's, or that of a block of context c. */
  predicate Holds<C(==)>(l: Ledger<C>, ptr: Address, c: C) {
    ptr in l.blocks ==> l.blocks[ptr].owner == c
  }

  predicate HeldElsewhere<C(==)>(l: Ledger<C>, ptr: Address, c: C) {
    ptr in l.blocks ==> l.blocks[ptr].owner != c
  }

  /** The call is made by context c and names only its own blocks, or addresses nobody has. */
  predicate Own<C(==)>(l: Ledger<C>, call: Call<C>, c: C) {
    match call
    case Malloc(owner, _, _, _) => owner == c
    case Realloc(owner, p, _, _, _) => owner == c && Holds(l, p, c)
    case Free(p) => Holds(l, p, c)
    case Create(owner) => owner == c
    case Reset(owner) => owner == c
    case Destroy(owner) => owner == c
    case Write(p, _, _) => Holds(l, p, c)
  }

  /** The call is made by another context and names no block of c. */
  predicate Foreign<C(==)>(l: Ledger<C>, call: Call<C>, c: C) {
    match call
    case Malloc(owner, _, _, _) => owner != c
    case Realloc(owner, p, _, _, _) => owner != c && HeldElsewhere(l, p, c)
    case Free(p) => HeldElsewhere(l, p, c)
    case Create(owner) => owner != c
    case Reset(owner) => owner != c
    case Destroy(owner) => owner != c
    case Write(p, _, _) => HeldElsewhere(l, p, c)
  }

  /** The ledger without a context and its blocks. */
  function Apart<C>(l: Ledger<C>, c: C): (r: Ledger<C>) {
    Emptied(l, c).(live := l.live - {c})
  }

  /** What a context does with its own memory, nobody else sees. */
  lemma OwnStep<C>(l: Ledger<C>, call: Call<C>, limit: nat, c: C)
    requires c != l.root && Allowed(l, call) && Own(l, call, c)
    ensures Apart(Apply(l, call, limit), c) == Apart(l, c)
  {
    assert Apart(Apply(l, call, limit), c).blocks == Apart(l, c).blocks;
  }

  lemma ApartPlaced<C>(l: Ledger<C>, ptr: Address, owner: C, bytes: seq<Byte>, c: C)
    requires owner != c
    ensures Apart(Placed(l, ptr, owner, bytes), c) == Placed(Apart(l, c), ptr, owner, bytes)
  {
    assert Apart(Placed(l, ptr, owner, bytes), c).blocks == Placed(Apart(l, c), ptr, owner, bytes).blocks;
  }

  lemma ApartFreed<C>(l: Ledger<C>, ptr: Address, c: C)
    ensures Apart(Freed(l, ptr), c) == Freed(Apart(l, c), ptr)
  {
    assert Apart(Freed(l, ptr), c).blocks == Freed(Apart(l, c), ptr).blocks;
  }

  lemma ApartEmptied<C>(l: Ledger<C>, owner: C, c: C)
    ensures Apart(Emptied(l, owner), c) == Emptied(Apart(l, c), owner)
  {
    assert Apart(Emptied(l, owner), c).blocks == Emptied(Apart(l, c), owner).blocks;
  }

  lemma ApartWritten<C>(l: Ledger<C>, ptr: Address, at: nat, value: Byte, c: C)
    requires ptr in l.blocks && at < |l.blocks[ptr].bytes| && l.blocks[ptr].owner != c
    ensures Apart(Written(l, ptr, at, value), c) == Written(Apart(l, c), ptr, at, value)
  {
    ApartPlaced(l, ptr, l.blocks[ptr].owner, Poked(l.blocks[ptr].bytes, at, value), c);
  }

  lemma ForeignRealloc<C>(l: Ledger<C>, owner: C, ptr: Address, size: nat, grant: Grant, node: bool, limit: nat, c: C)
    requires owner != c && HeldElsewhere(l, ptr, c)
    ensures Apart(Realloced(l, owner, ptr, size, grant, node, limit).0, c)
         == Realloced(Apart(l, c), owner, ptr, size, grant, node, limit).0
  {
    ApartFreed(l, ptr, c);
    if grant.Granted? {
      ApartPlaced(l, grant.ptr, owner, grant.bytes, c);
      if ptr in l.blocks {
        var b := l.blocks[ptr];
        ApartPlaced(Freed(l, ptr), grant.ptr, b.owner, Resized(b.bytes, grant.bytes), c);
      }
    }
  }

  /** What the others do is the same with and without it. */
  lemma ForeignStep<C>(l: Ledger<C>, call: Call<C>, limit: nat, c: C)
    requires c != l.root && Allowed(l, call) && Foreign(l, call, c)
    ensures Allowed(Apart(l, c), call)
    ensures Apart(Apply(l, call, limit), c) == Apply(Apart(l, c), call, limit)
  {
    match call
    case Malloc(owner, size, grant, node) =>
      if grant.Granted? {
        ApartPlaced(l, grant.ptr, owner, grant.bytes, c);
      }
    case Realloc(owner, ptr, size, grant, node) => ForeignRealloc(l, owner, ptr, size, grant, node, limit, c);
    case Free(ptr) => ApartFreed(l, ptr, c);
    case Create(owner) => assert (l.live + {owner}) - {c} == (l.live - {c}) + {owner};
    case Reset(owner) => ApartEmptied(l, owner, c);
    case Destroy(owner) =>
      ApartEmptied(l, owner, c);
      assert (l.live - {owner}) - {c} == (l.live - {c}) - {owner};
    case Write(ptr, at, value) => ApartWritten(l, ptr, at, value, c);
  }

  lemma ApplyKeepsRoot<C>(l: Ledger<C>, call: Call<C>, limit: nat)
    requires Allowed(l, call)
    ensures Apply(l, call, limit).root == l.root
  {
  }

  /** A call of a run, marked as made by the context in question or not. */
  datatype Turn<C> = Turn(own: bool, call: Call<C>)

  function CallsOf<C>(turns: seq<Turn<C>>): (calls: seq<Call<C>>) {
    if turns == [] then [] else [turns[0].call] + CallsOf(turns[1..])
  }

  function ForeignOf<C>(turns: seq<Turn<C>>): (calls: seq<Call<C>>) {
    if turns == [] then []
    else if turns[0].own then ForeignOf(turns[1..])
    else [turns[0].call] + ForeignOf(turns[1..])
  }

  /** Every call of the run is the context's own or keeps off it. */
  ghost predicate Separate<C>(l: Ledger<C>, turns: seq<Turn<C>>, limit: nat, c: C)
    decreases |turns|
  {
    turns != [] ==>
      && Allowed(l, turns[0].call)
      && (if turns[0].own then Own(l, turns[0].call, c) else Foreign(l, turns[0].call, c))
      && Separate(Apply(l, turns[0].call, limit), turns[1..], limit, c)
  }

  lemma Unroll<C>(l: Ledger<C>, call: Call<C>, calls: seq<Call<C>>, limit: nat)
    requires Allowed(l, call) && Possible(Apply(l, call, limit), calls, limit)
    ensures Possible(l, [call] + calls, limit)
    ensures After(l, [call] + calls, limit) == After(Apply(l, call, limit), calls, limit)
  {
    assert ([call] + calls)[1..] == calls;
  }

  /** No interference: however the calls of a context and of all others interleave, what the others are
    * left with is what their own calls alone would have given them. */
  lemma {:induction false} NoInterference<C>(l: Ledger<C>, turns: seq<Turn<C>>, limit: nat, c: C)
    requires c != l.root && Separate(l, turns, limit, c)
    ensures Possible(l, CallsOf(turns), limit) && Possible(Apart(l, c), ForeignOf(turns), limit)
    ensures Apart(After(l, CallsOf(turns), limit), c) == After(Apart(l, c), ForeignOf(turns), limit)
    decreases |turns|
  {
    if turns == [] {
      assert CallsOf(turns) == [] && ForeignOf(turns) == [];
    } else {
      var (call, rest) := (turns[0].call, turns[1..]);
      ApplyKeepsRoot(l, call, limit);
      NoInterference(Apply(l, call, limit), rest, limit, c);
      Unroll(l, call, CallsOf(rest), limit);
      if turns[0].own {
        OwnStep(l, call, limit, c);
      } else {
        ForeignStep(l, call, limit, c);
        Unroll(Apart(l, c), call, ForeignOf(rest), limit);
      }
    }
  }

  /** The whole life of a session, from its creation on and among all others: once it is destroyed, the
    * ledger is what it would be had the session never been. */
  lemma SessionLeavesNoTrace<C>(l: Ledger<C>, turns: seq<Turn<C>>, limit: nat, c: C)
    requires Sound(l) && c !in l.live && Separate(l, turns, limit, c)
    ensures Possible(l, CallsOf(turns), limit) && Possible(l, ForeignOf(turns), limit)
    ensures Destroyed(After(l, CallsOf(turns), limit), c) == After(l, ForeignOf(turns), limit)
  {
    assert Apart(l, c).blocks == l.blocks && Apart(l, c).live == l.live;
    NoInterference(l, turns, limit, c);
    RootStays(l, CallsOf(turns), limit);
  }

  lemma {:induction false} RootStays<C>(l: Ledger<C>, calls: seq<Call<C>>, limit: nat)
    requires Possible(l, calls, limit)
    ensures After(l, calls, limit).root == l.root
    decreases |calls|
  {
    if calls == [] {
    } else {
      ApplyKeepsRoot(l, calls[0], limit);
      RootStays(Apply(l, calls[0], limit), calls[1..], limit);
    }
  }
}
