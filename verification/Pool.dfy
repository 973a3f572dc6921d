/** The pool allocator: blocks are cut from the newest chunk and never given back; handles to a pool are counted. */
module Pool {
  import opened Options
  import opened Words

  /** A chunk in use up to size; chunks are kept in the order they were added, so the newest one is last. */
  datatype Chunk = Chunk(capacity: nat, size: nat, bytes: seq<Byte>)

  /** A pointer into a chunk's buffer. */
  datatype Ptr = Ptr(chunk: nat, offset: nat)
  datatype Block = Block(ptr: Ptr, size: nat)

  /** RAPIDJSON_ALIGN */
  function Align(n: nat): (r: nat)
    ensures n <= r < n + 8 && r % 8 == 0
  {
    (n + 7) / 8 * 8
  }

  function SumSize(chunks: seq<Chunk>): nat {
    if chunks == [] then 0 else SumSize(chunks[..|chunks| - 1]) + chunks[|chunks| - 1].size
  }

  function SumCapacity(chunks: seq<Chunk>): nat {
    if chunks == [] then 0 else SumCapacity(chunks[..|chunks| - 1]) + chunks[|chunks| - 1].capacity
  }

  predicate Filled(c: Chunk) { c.size <= c.capacity == |c.bytes| && c.size % 8 == 0 }

  /** An aligned block inside the used part of one chunk. */
  predicate Inside(b: Block, chunks: seq<Chunk>) {
    && b.ptr.chunk < |chunks| && b.ptr.offset % 8 == 0 && b.size % 8 == 0 && 0 < b.size
    && b.ptr.offset + b.size <= chunks[b.ptr.chunk].size
  }

  predicate Disjoint(a: Block, b: Block) {
    a.ptr.chunk != b.ptr.chunk || a.ptr.offset + a.size <= b.ptr.offset || b.ptr.offset + b.size <= a.ptr.offset
  }

  /** The first n bytes at p. */
  function Contents(chunks: seq<Chunk>, p: Ptr, n: nat): seq<Byte>
    requires p.chunk < |chunks| && p.offset + n <= |chunks[p.chunk].bytes|
  {
    chunks[p.chunk].bytes[p.offset..p.offset + n]
  }

  lemma {:induction false} SizesBounded(chunks: seq<Chunk>)
    requires forall i :: 0 <= i < |chunks| ==> Filled(chunks[i])
    ensures SumSize(chunks) <= SumCapacity(chunks)
  {
    if chunks != [] { SizesBounded(chunks[..|chunks| - 1]); }
  }

  class MemoryPool {
    const chunkCapacity: nat
    var chunks: seq<Chunk>
    ghost var live: seq<Block>   // every block handed out since the last Clear, at its present size

    /** A pool that owns its buffer starts with an empty chunk. */
    constructor (chunkSize: nat)
      ensures Valid() && live == [] && chunkCapacity == chunkSize && SumSize(chunks) == 0
    {
      chunkCapacity := chunkSize;
      chunks, live := [Chunk(0, 0, [])], [];
    }

    /** Live blocks are aligned, inside one chunk each, and pairwise disjoint. */
    ghost predicate Valid()
      reads this
    {
      && |chunks| > 0 && (forall i :: 0 <= i < |chunks| ==> Filled(chunks[i]))
      && (forall i :: 0 <= i < |live| ==> Inside(live[i], chunks))
      && (forall i, j :: 0 <= i < j < |live| ==> Disjoint(live[i], live[j]))
    }

    /** Every live block still holds what it held in before. */
    twostate predicate ContentsKept()
      reads this
    {
      forall i :: 0 <= i < |old(chunks)| ==> i < |chunks| && chunks[i].bytes == old(chunks)[i].bytes
    }

    /** The base allocator grants or refuses a chunk; a granted one holds arbitrary bytes. */
    method AddChunk(capacity: nat, granted: Option<seq<Byte>>) returns (ok: bool)
      requires Valid() && (granted.Some? ==> |granted.value| == capacity)
      modifies this`chunks
      ensures Valid() && ok == granted.Some?
      ensures chunks == if ok then old(chunks) + [Chunk(capacity, 0, granted.value)] else old(chunks)
    {
      if granted.None? { return false; }
      chunks := chunks + [Chunk(capacity, 0, granted.value)];
      return true;
    }

    function Head(): Chunk
      requires |chunks| > 0
      reads this
    {
      chunks[|chunks| - 1]
    }

    /** The size of the chunk that Malloc asks for. */
    function Wanted(size: nat): nat {
      if chunkCapacity > Align(size) then chunkCapacity else Align(size)
    }

    method Malloc(size: nat, granted: Option<seq<Byte>>) returns (r: Option<Ptr>)
      requires Valid() && (granted.Some? ==> |granted.value| == Wanted(size))
      modifies this
      ensures Valid() && ContentsKept()
      ensures r.None? <==> size == 0 || (old(Head()).size + Align(size) > old(Head()).capacity && granted.None?)
      ensures r.None? ==> chunks == old(chunks) && live == old(live)
      ensures r.Some? ==> live == old(live) + [Block(r.value, Align(size))]
      ensures r.Some? ==> SumSize(chunks) == SumSize(old(chunks)) + Align(size)
      ensures r.Some? && old(Head()).size + Align(size) <= old(Head()).capacity ==>
        r.value == Ptr(|old(chunks)| - 1, old(Head()).size) && |chunks| == |old(chunks)|
      ensures r.Some? && old(Head()).size + Align(size) > old(Head()).capacity ==>
        && r.value == Ptr(|old(chunks)|, 0) && |chunks| == |old(chunks)| + 1
        && Head().capacity in {chunkCapacity, Align(size)} && Head().capacity >= chunkCapacity && Head().capacity >= size
    {
      if size == 0 { return None; }
      var aligned := Align(size);
      if Head().size + aligned > Head().capacity {
        var ok := AddChunk(if chunkCapacity > aligned then chunkCapacity else aligned, granted);
        if !ok { return None; }
        AppendSums(old(chunks), Head());
      }
      var p := Cut(aligned);
      r := Some(p);
    }

    /** The next block of the head chunk. */
    method Cut(n: nat) returns (p: Ptr)
      requires Valid() && 0 < n && n % 8 == 0 && Head().size + n <= Head().capacity
      modifies this
      ensures Valid() && ContentsKept() && live == old(live) + [Block(p, n)] && SumSize(chunks) == SumSize(old(chunks)) + n
      ensures p == Ptr(|chunks| - 1, old(Head()).size) && |chunks| == |old(chunks)| && Head().capacity == old(Head()).capacity
    {
      p := Ptr(|chunks| - 1, Head().size);
      Grow(n);
      live := live + [Block(p, n)];
    }

    /** chunkHead->size += n */
    method Grow(n: nat)
      requires Valid() && n % 8 == 0 && Head().size + n <= Head().capacity
      modifies this`chunks
      ensures Valid() && ContentsKept() && SumSize(chunks) == SumSize(old(chunks)) + n
      ensures chunks == old(chunks)[|old(chunks)| - 1 := old(Head()).(size := old(Head()).size + n)]
    {
      chunks := chunks[|chunks| - 1 := Head().(size := Head().size + n)];
      assert chunks[..|chunks| - 1] == old(chunks)[..|chunks| - 1];
    }

    /** Is this the last block of the head chunk? */
    predicate IsLast(b: Block)
      requires |chunks| > 0
      reads this
    {
      b.ptr.chunk == |chunks| - 1 && b.ptr.offset + b.size == Head().size
    }

    /** Realloc of live block k, given with a size not above its own (it may have been asked to shrink before): kept if
        large enough, grown in place, or copied. */
    method Realloc(original: Option<Ptr>, originalSize: nat, newSize: nat, granted: Option<seq<Byte>>, ghost k: nat)
      returns (r: Option<Ptr>)
      requires Valid() && (granted.Some? ==> |granted.value| == Wanted(Align(newSize)))
      requires original.Some? ==> k < |live| && live[k].ptr == original.value && Align(originalSize) <= live[k].size
      modifies this
      ensures Valid() && Kept(old(chunks), chunks, old(live))
      ensures original.None? && r.Some? ==> live == old(live) + [Block(r.value, Align(newSize))]
      ensures original.Some? && r.Some? && Align(originalSize) >= Align(newSize) ==> r == original && live == old(live)
      ensures original.Some? && r.Some? && Align(originalSize) < Align(newSize) ==>
        live == if r == original then old(live)[k := Block(r.value, Align(newSize))]
                else old(live) + [Block(r.value, Align(newSize))]
      ensures original.Some? && r.Some? ==> Holds(chunks, r.value, Contents(old(chunks), original.value, Align(originalSize)))
      ensures original.Some? && Align(originalSize) < Align(newSize) ==>
        (r == original <==> old(live[k].size == Align(originalSize) && IsLast(live[k])
                                && Head().size + Align(newSize) - live[k].size <= Head().capacity))
      ensures r.None? ==> chunks == old(chunks) && live == old(live) && (newSize == 0 || granted.None?)
    {
      if original.None? {
        AlignTwice(newSize);
        r := Malloc(newSize, granted);
        return;
      }
      if newSize == 0 { return None; }
      var p, aligned0, aligned := original.value, Align(originalSize), Align(newSize);
      if aligned0 >= aligned { return original; }
      if p.chunk == |chunks| - 1 && p.offset == Head().size - aligned0 {
        var increment := aligned - aligned0;
        if Head().size + increment <= Head().capacity {
          GrowLast(k, increment);
          return original;
        }
      }
      AlignTwice(newSize);
      r := MoveBlock(p, aligned0, aligned, granted, k);
    }

    /** A new block with the contents of block k, which stays where it is. */
    method MoveBlock(p: Ptr, size: nat, newSize: nat, granted: Option<seq<Byte>>, ghost k: nat) returns (r: Option<Ptr>)
      requires Valid() && k < |live| && live[k].ptr == p && size <= live[k].size && size < newSize == Align(newSize)
      requires granted.Some? ==> |granted.value| == Wanted(newSize)
      modifies this
      ensures Valid() && Kept(old(chunks), chunks, old(live))
      ensures r.None? ==> chunks == old(chunks) && live == old(live) && granted.None?
      ensures r.Some? ==> live == old(live) + [Block(r.value, newSize)] && r.value != p
      ensures r.Some? ==> Holds(chunks, r.value, Contents(old(chunks), p, size))
    {
      r := Malloc(newSize, granted);
      if r.Some? {
        assert Disjoint(live[k], live[|live| - 1]);
        CopyBlock(r.value, p, size, newSize, k);
      }
    }

    /** The last block of the head chunk takes n more bytes. */
    method GrowLast(ghost k: nat, n: nat)
      requires Valid() && k < |live| && IsLast(live[k]) && n % 8 == 0 && Head().size + n <= Head().capacity
      modifies this
      ensures Valid() && Kept(old(chunks), chunks, old(live))
      ensures live == old(live)[k := Block(old(live)[k].ptr, old(live)[k].size + n)]
    {
      Grow(n);
      live := live[k := Block(live[k].ptr, live[k].size + n)];
    }

    /** memcpy from block k to the block handed out last. */
    method CopyBlock(dst: Ptr, src: Ptr, n: nat, size: nat, ghost k: nat)
      requires Valid() && k < |live| - 1 && live[k].ptr == src && n <= live[k].size
      requires n <= size && live[|live| - 1] == Block(dst, size)
      modifies this`chunks
      ensures Valid() && |chunks| == |old(chunks)| && Kept(old(chunks), chunks, live[..|live| - 1])
      ensures Holds(chunks, dst, Contents(old(chunks), src, n))
    {
      var c := chunks[dst.chunk];
      var data := Contents(chunks, src, n);
      chunks := chunks[dst.chunk := c.(bytes := c.bytes[..dst.offset] + data + c.bytes[dst.offset + n..])];
      forall i | 0 <= i < |live| - 1 ensures SameContents(old(chunks), chunks, live[i]) {
        assert Disjoint(live[i], live[|live| - 1]);
        Untouched(old(chunks), chunks, live[i], dst, n, data);
      }
    }

    /** Clear: back to the empty first chunk; no block is live any more. */
    method Clear()
      requires Valid()
      modifies this
      ensures Valid() && live == [] && chunks == [old(chunks)[0].(size := 0)] && SumSize(chunks) == 0
    {
      live := [];
      while |chunks| > 1
        invariant Valid() && live == [] && chunks == old(chunks)[..|chunks|]
        decreases |chunks|
      {
        chunks := chunks[..|chunks| - 1];
      }
      chunks := [Head().(size := 0)];
    }

    method Size() returns (size: nat)
      requires Valid()
      ensures size == SumSize(chunks) <= SumCapacity(chunks)
    {
      size := 0;
      for i := 0 to |chunks|
        invariant size == SumSize(chunks[..i])
      {
        size := size + chunks[i].size;
        assert chunks[..i + 1][..i] == chunks[..i];
      }
      assert chunks[..|chunks|] == chunks;
      SizesBounded(chunks);
    }

    method Capacity() returns (capacity: nat)
      requires Valid()
      ensures capacity == SumCapacity(chunks) >= SumSize(chunks)
    {
      capacity := 0;
      for i := 0 to |chunks|
        invariant capacity == SumCapacity(chunks[..i])
      {
        capacity := capacity + chunks[i].capacity;
        assert chunks[..i + 1][..i] == chunks[..i];
      }
      assert chunks[..|chunks|] == chunks;
      SizesBounded(chunks);
    }
  }

  /** These bytes are at p. */
  predicate Holds(chunks: seq<Chunk>, p: Ptr, data: seq<Byte>) {
    p.chunk < |chunks| && p.offset + |data| <= |chunks[p.chunk].bytes| && Contents(chunks, p, |data|) == data
  }

  lemma AlignTwice(n: nat)
    ensures Align(Align(n)) == Align(n)
  {
  }

  predicate SameContents(before: seq<Chunk>, after: seq<Chunk>, b: Block) {
    && b.ptr.chunk < |before| <= |after| && b.ptr.offset + b.size <= |before[b.ptr.chunk].bytes|
    && b.ptr.offset + b.size <= |after[b.ptr.chunk].bytes|
    && Contents(after, b.ptr, b.size) == Contents(before, b.ptr, b.size)
  }

  /** The blocks hold what they held. */
  ghost predicate Kept(before: seq<Chunk>, after: seq<Chunk>, blocks: seq<Block>) {
    forall i :: 0 <= i < |blocks| ==> SameContents(before, after, blocks[i])
  }

  /** Writing n bytes at dst leaves a block alone that is disjoint from them. */
  lemma Untouched(before: seq<Chunk>, after: seq<Chunk>, b: Block, dst: Ptr, n: nat, data: seq<Byte>)
    requires Inside(b, before) && Filled(before[b.ptr.chunk]) && Disjoint(b, Block(dst, n)) && |data| == n
    requires dst.chunk < |before| && dst.offset + n <= |before[dst.chunk].bytes|
    requires var c := before[dst.chunk];
      after == before[dst.chunk := c.(bytes := c.bytes[..dst.offset] + data + c.bytes[dst.offset + n..])]
    ensures SameContents(before, after, b)
  {
    if b.ptr.chunk == dst.chunk {
      var bytes := after[dst.chunk].bytes;
      forall i | b.ptr.offset <= i < b.ptr.offset + b.size ensures bytes[i] == before[dst.chunk].bytes[i] { }
    }
  }

  lemma AppendSums(chunks: seq<Chunk>, c: Chunk)
    ensures SumSize(chunks + [c]) == SumSize(chunks) + c.size
    ensures SumCapacity(chunks + [c]) == SumCapacity(chunks) + c.capacity
  {
    assert (chunks + [c])[..|chunks|] == chunks;
  }

  /** The handles that refer to pool s. */
  function Holders(handles: map<nat, Option<nat>>, s: nat): set<nat> {
    set h | h in handles && handles[h] == Some(s)
  }

  /** One handle changes what it refers to. */
  lemma Rebound(handles: map<nat, Option<nat>>, h: nat, x: Option<nat>, s: nat)
    ensures |Holders(handles[h := x], s)|
         == |Holders(handles, s)| - (if h in handles && handles[h] == Some(s) then 1 else 0) + (if x == Some(s) then 1 else 0)
  {
    var before, after := Holders(handles, s), Holders(handles[h := x], s);
    var others := before - {h};
    assert after - {h} == others;
    if h in before { assert before == others + {h}; } else { assert before == others; }
    if x == Some(s) { assert after == others + {h}; } else { assert after == others; }
  }

  lemma ReboundAll(handles: map<nat, Option<nat>>, h: nat, x: Option<nat>)
    ensures forall s: nat :: (
      |Holders(handles[h := x], s)|
      == |Holders(handles, s)| - (if h in handles && handles[h] == Some(s) then 1 else 0) + (if x == Some(s) then 1 else 0))
  {
    forall s: nat
      ensures |Holders(handles[h := x], s)|
           == |Holders(handles, s)| - (if h in handles && handles[h] == Some(s) then 1 else 0) + (if x == Some(s) then 1 else 0)
    {
      Rebound(handles, h, x, s);
    }
  }

  /** The only holder of a pool. */
  lemma SoleHolder(handles: map<nat, Option<nat>>, h: nat, s: nat)
    requires h in handles && handles[h] == Some(s) && |Holders(handles, s)| == 1
    ensures forall k :: k in handles && handles[k] == Some(s) ==> k == h
  {
    var others := Holders(handles, s) - {h};
    assert |others| == 0;
    forall k | k in handles && handles[k] == Some(s) && k != h ensures k in others { }
  }

  /** One handle is gone. */
  lemma DroppedAll(handles: map<nat, Option<nat>>, h: nat)
    requires h in handles
    ensures forall s: nat :: (
      |Holders(handles - {h}, s)| == |Holders(handles, s)| - (if handles[h] == Some(s) then 1 else 0))
  {
    forall s: nat ensures |Holders(handles - {h}, s)| == |Holders(handles, s)| - (if handles[h] == Some(s) then 1 else 0) {
      var others := Holders(handles, s) - {h};
      assert Holders(handles - {h}, s) == others;
      if handles[h] == Some(s) { assert Holders(handles, s) == others + {h}; } else { assert Holders(handles, s) == others; }
    }
  }

  /** Handles to pools that own their buffer, with the reference count that each pool keeps. */
  class HandleCount {
    var handles: map<nat, Option<nat>>   // a handle that was moved from refers to no pool
    var refcount: map<nat, nat>          // of the pools that are still there
    var released: seq<nat>               // the pools in the order they were freed
    var nextPool: nat

    constructor ()
      ensures Valid() && handles == map[] && released == []
    {
      handles, refcount, released, nextPool := map[], map[], [], 0;
    }

    /** The count is the number of handles, a pool is there while it has one, and none is released twice. */
    ghost predicate Valid()
      reads this
    {
      Consistent(nextPool) && forall s :: s in refcount ==> refcount[s] == |Holders(handles, s)| > 0
    }

    ghost predicate Consistent(bound: nat)
      reads this
    {
      && (forall h :: h in handles && handles[h].Some? ==> handles[h].value in refcount)
      && (forall s :: s in refcount ==> s < bound && s !in released)
      && (forall i :: 0 <= i < |released| ==> released[i] < bound)
      && (forall i, j :: 0 <= i < j < |released| ==> released[i] != released[j])
    }

    /** A new pool with one handle. */
    method Construct(h: nat)
      requires Valid() && h !in handles
      modifies this
      ensures Valid() && handles == old(handles)[h := Some(old(nextPool))] && released == old(released)
    {
      var s := nextPool;
      ReboundAll(handles, h, Some(s));
      assert Holders(handles, s) == {};
      handles, refcount, nextPool := handles[h := Some(s)], refcount[s := 1], s + 1;
    }

    /** The copy constructor counts one more handle. */
    method CopyConstruct(h: nat, rhs: nat)
      requires Valid() && h !in handles && rhs in handles && handles[rhs].Some?
      modifies this
      ensures Valid() && handles == old(handles)[h := old(handles)[rhs]] && released == old(released)
    {
      var s := handles[rhs].value;
      ReboundAll(handles, h, Some(s));
      handles, refcount := handles[h := Some(s)], refcount[s := refcount[s] + 1];
    }

    /** The move constructor leaves the other handle without a pool. */
    method MoveConstruct(h: nat, rhs: nat)
      requires Valid() && h !in handles && rhs in handles && handles[rhs].Some?
      modifies this
      ensures Valid() && handles == old(handles)[h := old(handles)[rhs]][rhs := None] && released == old(released)
    {
      var s := handles[rhs].value;
      ReboundAll(handles, h, Some(s));
      ReboundAll(handles[h := Some(s)], rhs, None);
      handles := handles[h := Some(s)][rhs := None];
    }

    lemma Sole(h: nat)
      requires h in handles
      ensures handles[h].Some? && |Holders(handles, handles[h].value)| == 1 ==>
        forall k :: k in handles && handles[k] == handles[h] ==> k == h
    {
      if handles[h].Some? && |Holders(handles, handles[h].value)| == 1 { SoleHolder(handles, h, handles[h].value); }
    }

    /** The body of the destructor: the last handle frees the pool. The handle itself is left to the caller. */
    method Release(x: Option<nat>)
      requires x.Some? ==> x.value in refcount && refcount[x.value] > 0
      modifies this`refcount, this`released
      ensures x.None? ==> refcount == old(refcount) && released == old(released)
      ensures x.Some? && old(refcount)[x.value] > 1 ==>
        refcount == old(refcount)[x.value := old(refcount)[x.value] - 1] && released == old(released)
      ensures x.Some? && old(refcount)[x.value] == 1 ==>
        refcount == old(refcount) - {x.value} && released == old(released) + [x.value]
    {
      if x.None? { return; }
      var s := x.value;
      if refcount[s] > 1 {
        refcount := refcount[s := refcount[s] - 1];
        return;
      }
      refcount, released := refcount - {s}, released + [s];
    }

    method Destroy(h: nat)
      requires Valid() && h in handles
      modifies this
      ensures Valid() && handles == old(handles) - {h}
      ensures released == old(released) + LastOf(old(handles), h)
    {
      DroppedAll(handles, h);
      Sole(h);
      Release(handles[h]);
      handles := handles - {h};
    }

    /** Copy assignment counts first and releases then, so that assigning a handle to itself is harmless. */
    method CopyAssign(h: nat, rhs: nat)
      requires Valid() && h in handles && rhs in handles && handles[rhs].Some?
      modifies this
      ensures Valid() && handles == old(handles)[h := old(handles)[rhs]]
      ensures released == old(released) + if old(handles)[h] == old(handles)[rhs] then [] else LastOf(old(handles), h)
    {
      var s := handles[rhs].value;
      ReboundAll(handles, h, Some(s));
      Sole(h);
      refcount := refcount[s := refcount[s] + 1];
      Release(handles[h]);
      handles := handles[h := Some(s)];
    }

    /** Move assignment releases first; a handle moved to itself loses its pool. */
    method MoveAssign(h: nat, rhs: nat)
      requires Valid() && h in handles && rhs in handles && handles[rhs].Some?
      modifies this
      ensures Valid() && handles == old(handles)[h := old(handles)[rhs]][rhs := None]
      ensures released == old(released) + LastOf(old(handles), h)
    {
      var x := handles[rhs];
      ReboundAll(handles, h, x);
      ReboundAll(handles[h := x], rhs, None);
      Sole(h);
      Release(handles[h]);
      handles := handles[h := x];
      handles := handles[rhs := None];
    }
  }

  /** The pool of h, if h is its only handle. */
  function LastOf(handles: map<nat, Option<nat>>, h: nat): seq<nat>
    requires h in handles
  {
    if handles[h].Some? && |Holders(handles, handles[h].value)| == 1 then [handles[h].value] else []
  }
}
