/** The global allocator over UEFI pool memory: blocks aligned beyond 8 bytes are carved out of a
    larger pool allocation, whose address is kept in the 8 bytes before the block. */
module Allocator {
  import opened Arithmetic
  import opened Bytes

  const POINTER_BYTES := 8
  const POOL_ALIGNMENT := 8
  const ADDRESS_LIMIT := 0x1_0000_0000_0000_0000

  // ---- Masking ----------------------------------------------------------------------------

  /** Bitwise conjunction. */
  function And(x: nat, y: nat): nat
    decreases x
  {
    if x == 0 || y == 0 then 0
    else (if x % 2 == 1 && y % 2 == 1 then 1 else 0) + 2 * And(x / 2, y / 2)
  }

  /** `!y` in a word of `w` bits. */
  function Not(w: nat, y: nat): nat
    requires y < Pow2(w)
  {
    Pow2(w) - 1 - y
  }

  lemma AndDigits(a: nat, i: nat, b: nat, j: nat)
    requires i < 2 && j < 2
    ensures And(2 * a + i, 2 * b + j) == (if i == 1 && j == 1 then 1 else 0) + 2 * And(a, b)
  {
    var x, y := 2 * a + i, 2 * b + j;
    assert x / 2 == a && x % 2 == i && y / 2 == b && y % 2 == j;
    if x == 0 || y == 0 {
      assert And(a, b) == 0;
    }
  }

  lemma {:induction false} AndOnes(w: nat, x: nat)
    requires x < Pow2(w)
    ensures And(x, Pow2(w) - 1) == x
    decreases w
  {
    if x > 0 {
      AndOnes(w - 1, x / 2);
      AndDigits(x / 2, x % 2, Pow2(w - 1) - 1, 1);
    }
  }

  function Down(x: nat, d: nat): int
    requires d > 0
  {
    x - x % d
  }

  // Masking with `!(align - 1)` rounds down to a multiple of a power-of-two alignment.
  lemma MaskRoundsDown(w: nat, k: nat, x: nat)
    requires x < Pow2(w) && k <= w
    ensures Pow2(k) - 1 < Pow2(w) && And(x, Not(w, Pow2(k) - 1)) == x - x % Pow2(k)
  {
    MaskDown(w, k, x);
  }

  lemma {:induction false} MaskDown(w: nat, k: nat, x: nat)
    requires x < Pow2(w) && k <= w
    ensures Pow2(k) - 1 < Pow2(w) && And(x, Not(w, Pow2(k) - 1)) == Down(x, Pow2(k))
    decreases k
  {
    hide And;
    hide Not;
    hide Down;
    Pow2Monotone(k, w);
    if k == 0 {
      AndOnes(w, x);
      MaskNothing(w, x);
    } else {
      var m := Pow2(k - 1);
      Pow2Monotone(k - 1, w - 1);
      MaskShift(w, m);
      MaskDown(w - 1, k - 1, x / 2);
      MaskDigit(x, Not(w - 1, m - 1), m);
      assert Pow2(k) == 2 * m;
    }
  }

  lemma MaskNothing(w: nat, x: nat)
    ensures Not(w, 0) == Pow2(w) - 1 && Down(x, 1) == x
  {
  }

  lemma MaskShift(w: nat, m: nat)
    requires w > 0 && 0 < m <= Pow2(w - 1)
    ensures Not(w, 2 * m - 1) == 2 * Not(w - 1, m - 1)
  {
  }

  lemma MaskDigit(x: nat, mask: nat, m: nat)
    requires m > 0 && And(x / 2, mask) == Down(x / 2, m)
    ensures And(x, 2 * mask) == Down(x, 2 * m)
  {
    hide And;
    HalfModulo(x, m);
    AndDigits(x / 2, x % 2, mask, 0);
  }

  lemma HalfModulo(x: nat, m: nat)
    requires m > 0
    ensures x - x % (2 * m) == 2 * (x / 2 - (x / 2) % m)
  {
    var q, r := (x / 2) / m, (x / 2) % m;
    assert x / 2 == q * m + r;
    var b := x % 2;
    assert x == q * (2 * m) + (2 * r + b);
    DivUnique(x, 2 * m, q, 2 * r + b);
  }

  // ---- The heap ---------------------------------------------------------------------------

  /** A live block: its pool allocation, the size asked for and its alignment. */
  datatype Block = Block(pool: nat, size: nat, align: nat)

  /** `live` are the pool allocations by address, `mem` the memory contents, `blocks` the blocks
      handed to callers by address. */
  datatype Heap = Heap(live: map<nat, nat>, mem: map<nat, byte>, blocks: map<nat, Block>)

  predicate Disjoint(a: nat, aSize: nat, b: nat, bSize: nat) {
    a + aSize <= b || b + bSize <= a
  }

  /** What firmware promises of the address it answers an allocation of `total` bytes with. */
  predicate Placed(h: Heap, total: nat, p: nat) {
    && 0 < p < ADDRESS_LIMIT && p % POOL_ALIGNMENT == 0 && p + total <= ADDRESS_LIMIT && p !in h.live
    && forall q | q in h.live :: Disjoint(p, total, q, h.live[q])
  }

  function ReadByte(mem: map<nat, byte>, a: nat): byte {
    if a in mem then mem[a] else 0
  }

  /** The `n` bytes from `a` on. */
  function Load(mem: map<nat, byte>, a: nat, n: nat): (b: seq<byte>)
    ensures |b| == n && forall i | 0 <= i < n :: b[i] == ReadByte(mem, a + i)
  {
    if n == 0 then [] else Load(mem, a, n - 1) + [ReadByte(mem, a + n - 1)]
  }

  /** The pointer stored in the 8 bytes from `a` on. */
  function ReadPointer(mem: map<nat, byte>, a: nat): u64 {
    FromLe64(Load(mem, a, 8))
  }

  function WritePointer(mem: map<nat, byte>, a: nat, v: u64): (m: map<nat, byte>)
    ensures forall x: nat | !(a <= x < a + 8) :: ReadByte(m, x) == ReadByte(mem, x)
    ensures forall i | 0 <= i < 8 :: ReadByte(m, a + i) == Le64(v)[i]
  {
    var b := Le64(v);
    mem[a := b[0]][a + 1 := b[1]][a + 2 := b[2]][a + 3 := b[3]][a + 4 := b[4]][a + 5 := b[5]][a + 6 := b[6]][a + 7 := b[7]]
  }

  lemma PointerRoundTrip(mem: map<nat, byte>, a: nat, v: u64)
    ensures ReadPointer(WritePointer(mem, a, v), a) == v
  {
    assert Load(WritePointer(mem, a, v), a, 8) == Le64(v);
    Le64RoundTrip(v);
  }

  lemma PointerKept(mem: map<nat, byte>, m: map<nat, byte>, a: nat)
    requires forall x: nat | a <= x < a + 8 :: ReadByte(m, x) == ReadByte(mem, x)
    ensures ReadPointer(m, a) == ReadPointer(mem, a)
  {
    assert Load(m, a, 8) == Load(mem, a, 8);
  }

  /** A block is aligned and inside its own pool allocation; an over-aligned one has its pool
      address in the 8 bytes before it, inside that allocation too. */
  ghost predicate BlockOk(h: Heap, p: nat) {
    p in h.blocks &&
    var b := h.blocks[p];
    && b.align > 0 && b.pool in h.live && b.pool < ADDRESS_LIMIT
    && (b.align <= POOL_ALIGNMENT ==> p == b.pool && p % POOL_ALIGNMENT == 0 && b.size == h.live[b.pool])
    && (b.align > POOL_ALIGNMENT ==>
          && p % b.align == 0
          && b.pool + POINTER_BYTES <= p && p + b.size < b.pool + h.live[b.pool]
          && ReadPointer(h.mem, p - POINTER_BYTES) == b.pool)
  }

  ghost predicate HeapInv(h: Heap) {
    && (forall p | p in h.blocks :: BlockOk(h, p))
    && (forall p, q | p in h.blocks && q in h.blocks && p != q :: h.blocks[p].pool != h.blocks[q].pool)
    && Apart(h.live)
  }

  /** No two pool allocations overlap. */
  predicate Apart(live: map<nat, nat>) {
    forall a, b | a in live && b in live && a != b :: Disjoint(a, live[a], b, live[b])
  }

  // ---- Allocation and release -------------------------------------------------------------

  /** The pool bytes to ask for; absent when the sum overflows. */
  function PoolBytes(size: nat, align: nat): Option<nat> {
    if align <= POOL_ALIGNMENT then Some(size)
    else if size + align + POINTER_BYTES >= ADDRESS_LIMIT then None
    else Some(size + align + POINTER_BYTES)
  }

  /** The block address in a pool allocation at `raw`. */
  function BlockAddress(raw: nat, align: nat): nat
    requires align > 0
  {
    if align <= POOL_ALIGNMENT then raw
    else
      var x := raw + POINTER_BYTES + align - 1;
      x - x % align
  }

  // The rounded address leaves room for the pointer below it and the payload above it, and the sum
  // it is rounded from does not overflow.
  lemma BlockAddressFits(raw: nat, size: nat, align: nat)
    requires align > POOL_ALIGNMENT && raw + size + align + POINTER_BYTES <= ADDRESS_LIMIT
    ensures var p := BlockAddress(raw, align);
            && p % align == 0 && raw + POINTER_BYTES <= p
            && p + size < raw + (size + align + POINTER_BYTES)
            && raw + POINTER_BYTES + align - 1 < ADDRESS_LIMIT
  {
    var x := raw + POINTER_BYTES + align - 1;
    RoundedIsMultiple(x, align);
  }

  lemma RoundedIsMultiple(x: nat, d: nat)
    requires d > 0
    ensures (x - x % d) % d == 0
  {
    var q := x / d;
    assert x - x % d == q * d + 0;
    DivUnique(x - x % d, d, q, 0);
  }

  function AllocStep(h: Heap, size: nat, align: nat, raw: nat): Heap
    requires align > 0 && PoolBytes(size, align).Some? && raw < ADDRESS_LIMIT
  {
    var p := BlockAddress(raw, align);
    Heap(h.live[raw := PoolBytes(size, align).value],
         if align <= POOL_ALIGNMENT || p < POINTER_BYTES then h.mem else WritePointer(h.mem, p - POINTER_BYTES, raw),
         h.blocks[p := Block(raw, size, align)])
  }

  /** What a release passes to FreePool. */
  function PoolPointer(h: Heap, p: nat, align: nat): nat {
    if align <= POOL_ALIGNMENT || p < POINTER_BYTES then p else ReadPointer(h.mem, p - POINTER_BYTES)
  }

  function FreeStep(h: Heap, p: nat, align: nat): Heap {
    Heap(h.live - {PoolPointer(h, p, align)}, h.mem, h.blocks - {p})
  }

  /** A caller writes a byte of its own block. */
  function StoreStep(h: Heap, p: nat, offset: nat, v: byte): Heap {
    h.(mem := h.mem[p + offset := v])
  }

  // The back-pointer slot of one block overlaps no payload, its own or another's.
  lemma SlotsOverlapNoPayload(h: Heap, p: nat, q: nat)
    requires HeapInv(h) && p in h.blocks && q in h.blocks && h.blocks[p].align > POOL_ALIGNMENT
    ensures Disjoint(p - POINTER_BYTES, POINTER_BYTES, q, h.blocks[q].size)
    ensures p != q ==> Disjoint(p, h.blocks[p].size, q, h.blocks[q].size)
  {
    assert BlockOk(h, p) && BlockOk(h, q);
    if p != q {
      assert Disjoint(h.blocks[p].pool, h.live[h.blocks[p].pool], h.blocks[q].pool, h.live[h.blocks[q].pool]);
    }
  }

  /** The pool bytes around a block's address that are its own: never empty past the address for an
      over-aligned block. */
  ghost predicate InPool(h: Heap, p: nat)
    requires p in h.blocks
  {
    var b := h.blocks[p];
    && b.pool in h.live
    && (p == b.pool || (b.pool < p && p < b.pool + h.live[b.pool]))
  }

  lemma BlocksAreInPools(h: Heap, p: nat)
    requires HeapInv(h) && p in h.blocks
    ensures InPool(h, p)
  {
    assert BlockOk(h, p);
  }

  // A fresh block's address is not the address of any live block, empty ones included.
  lemma AddressIsNew(h: Heap, size: nat, align: nat, raw: nat)
    requires HeapInv(h) && align > 0 && PoolBytes(size, align).Some? && Placed(h, PoolBytes(size, align).value, raw)
    ensures BlockAddress(raw, align) !in h.blocks
  {
    hide ReadPointer;
    hide BlockOk;
    var p, total := BlockAddress(raw, align), PoolBytes(size, align).value;
    if align > POOL_ALIGNMENT {
      BlockAddressFits(raw, size, align);
    }
    forall q | q in h.blocks
      ensures q != p
    {
      BlocksAreInPools(h, q);
      var pool := h.blocks[q].pool;
      assert Disjoint(raw, total, pool, h.live[pool]) && raw != pool;
    }
  }

  lemma NewBlockIsOk(h: Heap, size: nat, align: nat, raw: nat)
    requires align > 0 && PoolBytes(size, align).Some? && Placed(h, PoolBytes(size, align).value, raw)
    ensures BlockOk(AllocStep(h, size, align, raw), BlockAddress(raw, align))
  {
    hide ReadPointer;
    hide WritePointer;
    var p := BlockAddress(raw, align);
    if align > POOL_ALIGNMENT {
      BlockAddressFits(raw, size, align);
      PointerRoundTrip(h.mem, p - POINTER_BYTES, raw);
    }
  }

  // What an allocation does to the pool and to memory: a small alignment is the pool's own, a larger
  // one puts the block at the first fitting multiple and the pool address into the slot before it.
  lemma AllocationShape(h: Heap, size: nat, align: nat, raw: nat)
    requires align > 0 && PoolBytes(size, align).Some? && raw + PoolBytes(size, align).value <= ADDRESS_LIMIT
    requires raw < ADDRESS_LIMIT
    ensures var t, p := AllocStep(h, size, align, raw), BlockAddress(raw, align);
            && t.live == h.live[raw := if align <= 8 then size else size + align + 8]
            && (align <= 8 ==> p == raw && t.mem == h.mem)
            && (align > 8 ==>
                  && p % align == 0 && raw + 8 <= p < raw + 8 + align
                  && ReadPointer(t.mem, p - 8) == raw
                  && forall x: nat | !(p - 8 <= x < p) :: ReadByte(t.mem, x) == ReadByte(h.mem, x))
  {
    hide ReadPointer;
    hide WritePointer;
    if align > 8 {
      BlockAddressFits(raw, size, align);
      PointerRoundTrip(h.mem, BlockAddress(raw, align) - 8, raw);
    }
  }

  // Memory changes outside a block's back-pointer slot leave the block intact.
  lemma BlockKept(h: Heap, t: Heap, q: nat)
    requires BlockOk(h, q) && q in t.blocks && t.blocks[q] == h.blocks[q]
    requires var b := h.blocks[q];
             && b.pool in t.live && t.live[b.pool] == h.live[b.pool]
             && (b.align > POOL_ALIGNMENT ==>
                   forall x: nat | q - POINTER_BYTES <= x < q :: ReadByte(t.mem, x) == ReadByte(h.mem, x))
    ensures BlockOk(t, q)
  {
    if h.blocks[q].align > POOL_ALIGNMENT {
      PointerKept(h.mem, t.mem, q - POINTER_BYTES);
    }
  }

  lemma OldBlockIsOk(h: Heap, size: nat, align: nat, raw: nat, q: nat)
    requires HeapInv(h) && align > 0 && PoolBytes(size, align).Some? && Placed(h, PoolBytes(size, align).value, raw)
    requires q in h.blocks
    ensures BlockOk(AllocStep(h, size, align, raw), q)
  {
    hide ReadPointer;
    hide WritePointer;
    hide ReadByte;
    AddressIsNew(h, size, align, raw);
    if align > POOL_ALIGNMENT {
      BlockAddressFits(raw, size, align);
    }
    assert BlockOk(h, q);
    var pool := h.blocks[q].pool;
    assert Disjoint(raw, PoolBytes(size, align).value, pool, h.live[pool]);
    BlockKept(h, AllocStep(h, size, align, raw), q);
  }

  // Any allocation firmware can answer keeps the heap sound.
  lemma AllocKeepsHeap(h: Heap, size: nat, align: nat, raw: nat)
    requires HeapInv(h) && align > 0 && PoolBytes(size, align).Some? && Placed(h, PoolBytes(size, align).value, raw)
    ensures HeapInv(AllocStep(h, size, align, raw))
  {
    hide BlockOk;
    var t, p := AllocStep(h, size, align, raw), BlockAddress(raw, align);
    assert Apart(t.live);
    hide Apart;
    AddressIsNew(h, size, align, raw);
    NewBlockIsOk(h, size, align, raw);
    forall q | q in t.blocks
      ensures BlockOk(t, q)
    {
      if q != p {
        OldBlockIsOk(h, size, align, raw, q);
      }
    }
    forall q | q in h.blocks
      ensures h.blocks[q].pool != raw
    {
      BlocksAreInPools(h, q);
    }
  }

  // A release passes FreePool exactly the pool address of the block.
  lemma FreeFindsThePool(h: Heap, p: nat, align: nat)
    requires HeapInv(h) && p in h.blocks && h.blocks[p].align == align
    ensures PoolPointer(h, p, align) == h.blocks[p].pool && h.blocks[p].pool in h.live
  {
    assert BlockOk(h, p);
  }

  lemma FreeKeepsHeap(h: Heap, p: nat, align: nat)
    requires HeapInv(h) && p in h.blocks && h.blocks[p].align == align
    ensures HeapInv(FreeStep(h, p, align))
  {
    hide BlockOk;
    hide ReadPointer;
    hide PoolPointer;
    FreeFindsThePool(h, p, align);
    var t := FreeStep(h, p, align);
    forall q | q in t.blocks
      ensures BlockOk(t, q)
    {
      BlocksAreInPools(h, q);
      BlockKept(h, t, q);
    }
  }

  lemma StoreKeepsHeap(h: Heap, p: nat, offset: nat, v: byte)
    requires HeapInv(h) && p in h.blocks && offset < h.blocks[p].size
    ensures HeapInv(StoreStep(h, p, offset, v))
  {
    var t := StoreStep(h, p, offset, v);
    forall q | q in t.blocks
      ensures BlockOk(t, q)
    {
      assert BlockOk(h, q);
      if h.blocks[q].align > POOL_ALIGNMENT {
        SlotsOverlapNoPayload(h, q, p);
      }
      BlockKept(h, t, q);
    }
  }

  // ---- Any interleaving -------------------------------------------------------------------

  /** One request; an allocation carries the address firmware answers with, if any. */
  datatype Request =
    | Alloc(size: nat, align: nat, answer: Option<nat>)
    | Free(p: nat, align: nat)
    | Store(p: nat, offset: nat, v: byte)

  /** Callers release a live block with the alignment it was allocated with and write inside their
      blocks; firmware places what it grants. */
  ghost predicate Legal(h: Heap, r: Request) {
    match r
    case Alloc(size, align, answer) =>
      align > 0 && (answer.Some? && PoolBytes(size, align).Some? ==> Placed(h, PoolBytes(size, align).value, answer.value))
    case Free(p, align) => p in h.blocks && h.blocks[p].align == align
    case Store(p, offset, _) => p in h.blocks && offset < h.blocks[p].size
  }

  function Apply(h: Heap, r: Request): Heap
    requires r.Alloc? ==> r.align > 0 && (r.answer.Some? && PoolBytes(r.size, r.align).Some? ==> r.answer.value < ADDRESS_LIMIT)
  {
    match r
    case Alloc(size, align, answer) =>
      if answer.None? || PoolBytes(size, align).None? then h else AllocStep(h, size, align, answer.value)
    case Free(p, align) => FreeStep(h, p, align)
    case Store(p, offset, v) => StoreStep(h, p, offset, v)
  }

  /** `h` leads to `t` by the requests `rs`, each legal where it is made. */
  ghost predicate Leads(h: Heap, rs: seq<Request>, t: Heap)
    decreases |rs|
  {
    if rs == [] then t == h
    else Legal(h, rs[0]) && Leads(Apply(h, rs[0]), rs[1..], t)
  }

  // Over any interleaving of allocations, releases and writes the heap stays sound.
  lemma {:induction false} EveryRunKeepsHeap(h: Heap, rs: seq<Request>, t: Heap)
    requires HeapInv(h) && Leads(h, rs, t)
    ensures HeapInv(t)
    decreases |rs|
  {
    if rs != [] {
      match rs[0] {
        case Alloc(size, align, answer) =>
          if answer.Some? && PoolBytes(size, align).Some? { AllocKeepsHeap(h, size, align, answer.value); }
        case Free(p, align) => FreeKeepsHeap(h, p, align);
        case Store(p, offset, v) => StoreKeepsHeap(h, p, offset, v);
      }
      EveryRunKeepsHeap(Apply(h, rs[0]), rs[1..], t);
    }
  }

  // ---- The allocator ----------------------------------------------------------------------

  class UefiAllocator {
    /** The boot services table has been registered. */
    var ready: bool
    var heap: Heap
    /** The pointers passed to FreePool, in order. */
    ghost var freed: seq<nat>

    ghost predicate Valid()
      reads this
    {
      HeapInv(heap)
    }

    constructor ()
      ensures Valid() && !ready && heap == Heap(map[], map[], map[]) && freed == []
    {
      ready, heap, freed := false, Heap(map[], map[], map[]), [];
    }

    method Init()
      modifies this`ready
      ensures ready
    {
      ready := true;
    }

    /** `alloc`; `answer` is what AllocatePool returns, if it is called and succeeds. */
    method Allocate(size: nat, align: nat, answer: Option<nat>) returns (p: Option<nat>)
      requires Valid() && Legal(heap, Alloc(size, align, answer))
      modifies this
      ensures Valid() && ready == old(ready) && freed == old(freed)
      // Only a missing table, a firmware refusal or an overflowing size makes an allocation fail.
      ensures p.Some? <==> ready && answer.Some? && (align <= 8 || size + align + 8 < 0x1_0000_0000_0000_0000)
      ensures p.Some? ==> heap.live == old(heap).live[answer.value := if align <= 8 then size else size + align + 8]
      ensures p.Some? && align <= 8 ==> p.value == answer.value && heap.mem == old(heap).mem
      ensures p.Some? && align > 8 ==>
                && p.value % align == 0 && answer.value + 8 <= p.value < answer.value + 8 + align
                && ReadPointer(heap.mem, p.value - 8) == answer.value
                && forall x: nat | !(p.value - 8 <= x < p.value) :: ReadByte(heap.mem, x) == ReadByte(old(heap).mem, x)
      ensures heap == if p.Some? then Apply(old(heap), Alloc(size, align, answer)) else old(heap)
      ensures p.Some? ==> p.value !in old(heap).blocks && p.value in heap.blocks && BlockOk(heap, p.value)
                          && heap.blocks[p.value] == Block(answer.value, size, align)
    {
      hide HeapInv;
      hide BlockOk;
      hide WritePointer;
      hide ReadPointer;
      hide ReadByte;
      if !ready {
        return None;
      }
      if align <= POOL_ALIGNMENT {
        if answer.None? {
          return None;
        }
        AllocKeepsHeap(heap, size, align, answer.value);
        AddressIsNew(heap, size, align, answer.value);
        NewBlockIsOk(heap, size, align, answer.value);
        AllocationShape(heap, size, align, answer.value);
        heap := AllocStep(heap, size, align, answer.value);
        return Some(answer.value);
      }
      var total := size + align + POINTER_BYTES;
      if total >= ADDRESS_LIMIT {
        return None;
      }
      if answer.None? {
        return None;
      }
      var raw := answer.value;
      AllocKeepsHeap(heap, size, align, raw);
      AddressIsNew(heap, size, align, raw);
      NewBlockIsOk(heap, size, align, raw);
      AllocationShape(heap, size, align, raw);
      var x := raw + POINTER_BYTES + align - 1;
      var aligned := x - x % align;
      ghost var next := AllocStep(heap, size, align, raw);
      heap := Heap(heap.live[raw := total], WritePointer(heap.mem, aligned - POINTER_BYTES, raw),
                   heap.blocks[aligned := Block(raw, size, align)]);
      assert heap == next;
      return Some(aligned);
    }

    /** `dealloc` with the layout of the allocation. */
    method Deallocate(p: nat, align: nat)
      requires Valid() && Legal(heap, Free(p, align))
      modifies this
      ensures Valid() && ready == old(ready)
      ensures !ready ==> heap == old(heap) && freed == old(freed)
      ensures ready ==> heap == Apply(old(heap), Free(p, align)) && freed == old(freed) + [old(heap).blocks[p].pool]
      ensures ready ==>
                && heap.live == old(heap).live - {old(heap).blocks[p].pool}
                && heap.mem == old(heap).mem && heap.blocks == old(heap).blocks - {p}
    {
      if !ready {
        return;
      }
      FreeFindsThePool(heap, p, align);
      FreeKeepsHeap(heap, p, align);
      var original := if align <= POOL_ALIGNMENT || p < POINTER_BYTES then p else ReadPointer(heap.mem, p - POINTER_BYTES);
      freed := freed + [original];
      heap := Heap(heap.live - {original}, heap.mem, heap.blocks - {p});
    }
  }
}
