/** SimpleZoneMemAllocator: blocks cut one after the other from large chunks, each
    behind a header; only the latest block can change size in place. */
module ZoneAllocator {
  import opened Common

  const CHUNK_SIZE := 1024 * 1024
  const HEADER := 16

  /** An address: an offset into a chunk. Chunks start on a page boundary. */
  datatype Buffer = Null | At(chunk: Chunk, offset: nat)

  function Align(n: nat): (r: nat)
    ensures r % 16 == 0 && n <= r < n + 16
  {
    if n % 16 != 0 then n + 16 - (n + 16) % 16 else n
  }

  /** Rounding up never passes a bound that is itself a multiple. */
  lemma AlignWithin(n: nat, bound: nat)
    requires n <= bound && bound % 16 == 0
    ensures Align(n) <= bound
  {
  }

  /** Blocks are aligned, behind a header, inside the used part, and no block reaches into
      the header of the next. */
  ghost predicate Layout(sizes: map<nat, nat>, ptr: nat) {
    && (forall b :: b in sizes ==> HEADER <= b && b % 16 == 0 && b + sizes[b] <= ptr)
    && forall b, c :: b in sizes && c in sizes && b < c ==> b + sizes[b] <= c - HEADER
  }

  lemma ResizeTop(sizes: map<nat, nat>, ptr: nat, b: nat, bytes: nat, end: nat)
    requires Layout(sizes, ptr) && b in sizes && (forall c :: c in sizes ==> c <= b) && b + bytes <= end
    ensures Layout(sizes[b := bytes], end)
  {
    forall c | c in sizes && c != b ensures c + sizes[c] <= end {
      assert c < b;
    }
  }

  class Chunk {
    const mem: array<byte>
    /** _data_ptr, from the start of the chunk */
    var ptr: nat
    /** _allocated_pointers */
    var count: nat
    /** The size in the header of each live block, by the block's offset. */
    var sizes: map<nat, nat>

    ghost predicate Valid()
      reads this`ptr, this`count, this`sizes
    {
      ptr <= CHUNK_SIZE && ptr % 16 == 0 && count == |sizes| && Layout(sizes, ptr)
    }

    ghost predicate Top(b: nat)
      reads this`sizes
    {
      b in sizes && forall c :: c in sizes ==> c <= b
    }

    constructor ()
      ensures Valid() && fresh(mem) && mem.Length == CHUNK_SIZE && sizes == map[] && ptr == 0
    {
      mem := new byte[CHUNK_SIZE];
      ptr, count, sizes := 0, 0, map[];
    }

    function RemainingSpace(): (n: int)
      reads this`ptr
    {
      CHUNK_SIZE - ptr
    }

    method Allocate(bytes: nat) returns (block: Option<nat>)
      requires Valid() && bytes < CHUNK_SIZE
      modifies this`ptr, this`count, this`sizes
      ensures Valid() && (block.None? <==> bytes + HEADER > old(RemainingSpace()))
      ensures block.None? ==> unchanged(this)
      ensures block.Some? ==> block.value == old(ptr) + HEADER && ptr == Align(block.value + bytes)
      ensures block.Some? ==> block.value !in old(sizes) && sizes == old(sizes)[block.value := bytes] && Top(block.value)
    {
      if bytes + HEADER > RemainingSpace() {
        return None;
      }
      Extend(HEADER);
      var b := ptr;
      Extend(bytes);
      ptr := Align(ptr);
      sizes := sizes[b := bytes];
      count := count + 1;
      return Some(b);
    }

    method Extend(bytes: nat)
      requires ptr <= CHUNK_SIZE && ptr % 16 == 0 && RemainingSpace() >= bytes
      modifies this`ptr
      ensures ptr == Align(old(ptr) + bytes) <= CHUNK_SIZE && (bytes % 16 == 0 ==> ptr == old(ptr) + bytes)
    {
      AlignWithin(ptr + bytes, CHUNK_SIZE);
      ptr := Align(ptr + bytes);
    }

    /** The topmost block grows into the unused part, which shrinks by no more than needed. */
    method Grow(b: nat, bytes: nat)
      requires Valid() && b in sizes && Top(b) && sizes[b] < bytes && RemainingSpace() >= bytes - sizes[b]
      modifies this`ptr, this`count, this`sizes
      ensures Valid() && sizes == old(sizes)[b := bytes] && Top(b)
      ensures ptr == Align(old(ptr) + (bytes - old(sizes)[b]))
    {
      assert b + sizes[b] <= ptr;
      hide Align, Layout;
      var extra := bytes - sizes[b];
      sizes := sizes[b := bytes];
      SameCount(old(sizes), b, bytes);
      Extend(extra);
      ResizeTop(old(sizes), old(ptr), b, bytes, ptr);
    }

    /** The topmost block gives back what follows its first bytes. */
    method Shrink(b: nat, bytes: nat)
      requires Valid() && b in sizes && Top(b) && bytes <= sizes[b]
      modifies this`ptr, this`count, this`sizes
      ensures Valid() && sizes == old(sizes)[b := bytes] && Top(b)
      ensures old(b + sizes[b] <= ptr) && ptr == Align(old(ptr) - (old(sizes)[b] - bytes))
    {
      assert b + sizes[b] <= ptr;
      hide Align, Layout;
      var reduce := sizes[b] - bytes;
      sizes := sizes[b := bytes];
      SameCount(old(sizes), b, bytes);
      AlignWithin(ptr - reduce, ptr);
      ptr := Align(ptr - reduce);
      ResizeTop(old(sizes), old(ptr), b, bytes, ptr);
    }

    lemma BlockBelow(b: nat)
      requires Valid() && b in sizes
      ensures b + sizes[b] <= ptr
    {
    }

    method Free(b: nat)
      requires Valid() && b in sizes
      modifies this`count, this`sizes
      ensures Valid() && sizes == old(sizes) - {b} && (Empty() <==> sizes == map[])
      ensures forall c :: c in sizes && old(Top(c)) ==> Top(c)
    {
      OneLess(sizes, b);
      sizes := sizes - {b};
      count := count - 1;
    }

    predicate Empty()
      reads this`count
    {
      count == 0
    }
  }

  lemma SameCount(m: map<nat, nat>, b: nat, v: nat)
    requires b in m
    ensures |m[b := v]| == |m|
  {
    assert m[b := v].Keys == m.Keys;
    assert |m[b := v].Keys| == |m[b := v]| && |m.Keys| == |m|;
  }

  lemma OneLess(m: map<nat, nat>, b: nat)
    requires b in m
    ensures |m - {b}| == |m| - 1
  {
    assert (m - {b}).Keys == m.Keys - {b};
    assert |(m - {b}).Keys| == |m - {b}| && |m.Keys| == |m|;
  }

  function Least(a: nat, b: nat): (c: nat) {
    if a < b then a else b
  }

  /** What chunk c has on its books once block q of that size is there. */
  ghost function Placed(sizes: map<nat, nat>, c: Chunk, q: Buffer, bytes: nat): (r: map<nat, nat>) {
    if q.At? && q.chunk == c then sizes[q.offset := bytes] else sizes
  }

  ghost function Removed(sizes: map<nat, nat>, c: Chunk, p: Buffer): (r: map<nat, nat>) {
    if p.At? && p.chunk == c then sizes - {p.offset} else sizes
  }

  /** The first n bytes at p. */
  ghost function Bytes(p: Buffer, n: nat): (r: seq<byte>)
    requires p.At? && p.offset + n <= p.chunk.mem.Length
    reads if p.At? then {p.chunk.mem} else {}
  {
    p.chunk.mem[p.offset..p.offset + n]
  }

  class Zone {
    var active: Chunk?
    var chunks: set<Chunk>
    /** _last_buffer */
    var last: Buffer

    ghost predicate Live(p: Buffer)
      reads this`chunks, chunks`sizes
    {
      p.At? && p.chunk in chunks && p.offset in p.chunk.sizes
    }

    /** The last buffer is null or the topmost live block of its chunk. */
    ghost predicate Valid()
      reads this, chunks
    {
      && (active != null ==> active in chunks)
      && (forall c :: c in chunks ==> c.Valid() && c.mem.Length == CHUNK_SIZE) && Separate()
      && (last.At? ==> Live(last) && last.chunk.Top(last.offset))
    }

    ghost predicate Separate()
      reads this`chunks
    {
      forall c, d :: c in chunks && d in chunks && c != d ==> c.mem != d.mem
    }

    constructor ()
      ensures Valid() && chunks == {}
    {
      active, chunks, last := null, {}, Null;
    }

    method AddChunk()
      requires Valid()
      modifies this`active, this`chunks
      ensures Valid() && active != null && fresh(active) && fresh(active.mem) && chunks == old(chunks) + {active}
      ensures active.sizes == map[] && active.RemainingSpace() == CHUNK_SIZE
    {
      hide Chunk.Valid;
      var c := new Chunk();
      active := c;
      chunks := chunks + {c};
    }

    /** A block of the active chunk, if there is room. */
    method AllocateActive(bytes: nat) returns (p: Buffer)
      requires Valid() && bytes < CHUNK_SIZE && active != null
      modifies this`last, active`ptr, active`count, active`sizes
      ensures Valid()
      ensures p.Null? <==> bytes + HEADER > old(active.RemainingSpace())
      ensures p.Null? ==> active.sizes == old(active.sizes) && active.ptr == old(active.ptr)
      ensures p.At? ==> p.offset == old(active.ptr) + HEADER && active.ptr == Align(p.offset + bytes)
      ensures p.At? ==> last == p && p.chunk == active && p.offset !in old(active.sizes)
      ensures p.At? ==> active.sizes == old(active.sizes)[p.offset := bytes]
    {
      hide Chunk.Valid;
      var block := active.Allocate(bytes);
      if block.None? {
        return Null;
      }
      p := At(active, block.value);
      last := p;
    }

    /** A block of a new chunk. */
    method AllocateNew(bytes: nat) returns (p: Buffer)
      requires Valid() && bytes < CHUNK_SIZE
      modifies this`active, this`chunks, this`last
      ensures Valid() && active != null && fresh(active) && fresh(active.mem) && chunks == old(chunks) + {active}
      ensures p.Null? <==> bytes > CHUNK_SIZE - HEADER
      ensures p.At? ==> last == p && p.chunk == active && active.ptr == Align(p.offset + bytes)
      ensures active.sizes == Placed(map[], active, p, bytes)
    {
      hide Chunk.Valid, Chunk.Top, Align;
      AddChunk();
      p := AllocateActive(bytes);
    }

    /** Null only for a size that no chunk can hold. No other block changes, and a chunk is
        added only if the active one has no room. */
    method Allocate(bytes: nat) returns (p: Buffer)
      requires Valid() && bytes < CHUNK_SIZE
      modifies this, chunks`ptr, chunks`count, chunks`sizes
      ensures Valid() && last == p && old(chunks) <= chunks
      ensures forall c :: c in chunks - old(chunks) ==> fresh(c) && fresh(c.mem)
      ensures p.Null? <==> bytes > CHUNK_SIZE - HEADER
      ensures p.At? ==> Live(p) && p.chunk.sizes[p.offset] == bytes
      ensures forall c :: c in old(chunks) ==> c.sizes == Placed(old(c.sizes), c, p, bytes)
      ensures p.At? && p.chunk in old(chunks) ==> p.offset !in old(p.chunk.sizes) && p.offset == old(p.chunk.ptr) + HEADER
      ensures p.At? ==> p.chunk.ptr == Align(p.offset + bytes)
      ensures forall c :: c in old(chunks) && !(p.At? && c == p.chunk) ==> c.ptr == old(c.ptr)
      ensures old(active != null && bytes + HEADER <= active.RemainingSpace()) ==> chunks == old(chunks) && p.chunk == old(active)
      ensures forall c :: c in chunks - old(chunks) ==> c.sizes == Placed(map[], c, p, bytes)
    {
      hide Chunk.Valid, Chunk.Top, Align;
      if active == null || active.RemainingSpace() < bytes {
        p := AllocateNew(bytes);
      } else {
        p := AllocateActive(bytes);
      }
      if p.Null? {
        p := AllocateNew(bytes);
      }
      last := p;
    }

    /** Two live blocks of one chunk, headers included, do not overlap. */
    lemma Apart(p: Buffer, q: Buffer)
      requires Valid() && Live(p) && Live(q) && p != q && p.chunk == q.chunk
      ensures p.offset + p.chunk.sizes[p.offset] <= q.offset - HEADER || q.offset + q.chunk.sizes[q.offset] <= p.offset - HEADER
    {
    }

    /** A live block is aligned and lies inside its chunk, behind its header. */
    lemma Inside(p: Buffer)
      requires Valid() && Live(p)
      ensures p.offset % 16 == 0 && HEADER <= p.offset
      ensures p.offset + p.chunk.sizes[p.offset] <= CHUNK_SIZE == p.chunk.mem.Length
    {
    }

    /** A chunk goes exactly when its last live block does. */
    method Free(p: Buffer)
      requires Valid() && Live(p)
      modifies this, p.chunk`count, p.chunk`sizes
      ensures Valid() && p.chunk.sizes == old(p.chunk.sizes) - {p.offset}
      ensures chunks == if p.chunk.sizes == map[] then old(chunks) - {p.chunk} else old(chunks)
      ensures active == if old(active) in chunks then old(active) else null
      ensures last == if old(last) == p then Null else old(last)
    {
      hide Chunk.Valid, Chunk.Top;
      var c := p.chunk;
      c.Free(p.offset);
      if c.Empty() {
        chunks := chunks - {c};
        if active == c {
          active := null;
        }
      }
      if last == p {
        last := Null;
      }
    }

    /** In place, if the chunk has room. */
    method ResizeLast(p: Buffer, bytes: nat) returns (done: bool)
      requires Valid() && Live(p) && last == p
      modifies p.chunk`ptr, p.chunk`count, p.chunk`sizes
      ensures Valid() && Live(p)
      ensures p.chunk.sizes == if done then Placed(Removed(old(p.chunk.sizes), p.chunk, p), p.chunk, p, bytes) else old(p.chunk.sizes)
      ensures done <==> old(FitsInPlace(p, bytes))
      ensures done ==> old(RoomBelow(p)) && p.chunk.ptr == Align(old(p.chunk.ptr - SizeOf(p)) + bytes)
    {
      hide Chunk.Valid, Chunk.Top;
      var c, b := p.chunk, p.offset;
      c.BlockBelow(b);
      if bytes > c.sizes[b] {
        if c.RemainingSpace() < bytes - c.sizes[b] {
          return false;
        }
        c.Grow(b, bytes);
      } else {
        c.Shrink(b, bytes);
      }
      return true;
    }

    /** memcpy from the front of block p to the front of block q. */
    method Copy(p: Buffer, q: Buffer, n: nat)
      requires p.At? && q.At? && p.offset + n <= p.chunk.mem.Length && q.offset + n <= q.chunk.mem.Length
      modifies q.chunk.mem
      ensures Bytes(q, n) == old(Bytes(p, n))
      ensures forall k :: 0 <= k < q.chunk.mem.Length && !(q.offset <= k < q.offset + n) ==>
        q.chunk.mem[k] == old(q.chunk.mem[k])
    {
      var to, from := q.chunk.mem, p.chunk.mem;
      forall k | q.offset <= k < q.offset + n {
        to[k] := from[p.offset + (k - q.offset)];
      }
    }

    method CopyLive(p: Buffer, q: Buffer, n: nat, bytes: nat)
      requires Valid() && p.At? && p.offset + n <= p.chunk.mem.Length
      requires q.At? && q.chunk in chunks && q.offset + bytes <= q.chunk.mem.Length && n <= bytes
      modifies q.chunk.mem
      ensures Valid() && Bytes(q, n) == old(Bytes(p, n))
      ensures forall c, k :: c in chunks && 0 <= k < c.mem.Length && !(c == q.chunk && q.offset <= k < q.offset + bytes) ==>
        c.mem[k] == old(c.mem[k])
    {
      hide Chunk.Valid, Chunk.Top;
      Copy(p, q, n);
    }

    /** A new block with the bytes of block p; nothing else is written. */
    method Duplicate(p: Buffer, size: nat, bytes: nat) returns (q: Buffer)
      requires Valid() && Live(p) && size == p.chunk.sizes[p.offset] && bytes <= CHUNK_SIZE - HEADER
      requires p.offset + size <= p.chunk.mem.Length
      modifies this, chunks`ptr, chunks`count, chunks`sizes, Mems()
      ensures Valid() && Live(p) && Live(q) && q != p && last == q && old(chunks) <= chunks
      ensures forall c :: c in chunks - old(chunks) ==> fresh(c) && fresh(c.mem)
      ensures q.offset + bytes <= q.chunk.mem.Length
      ensures Bytes(q, Least(size, bytes)) == old(Bytes(p, Least(size, bytes))) && q.chunk.ptr == Align(q.offset + bytes)
      ensures forall c :: c in old(chunks) ==> c.sizes == Placed(old(c.sizes), c, q, bytes)
      ensures forall c :: c in chunks - old(chunks) ==> c.sizes == Placed(map[], c, q, bytes)
      ensures forall c, k :: c in old(chunks) && 0 <= k < c.mem.Length && !(c == q.chunk && q.offset <= k < q.offset + bytes) ==>
        c.mem[k] == old(c.mem[k])
    {
      hide Chunk.Valid, Zone.Valid;
      q := Allocate(bytes);
      Inside(q);
      CopyLive(p, q, Least(size, bytes), bytes);
    }

    /** Block p, or a new one, with p's first bytes; the chunks' books show q in p's place,
        no byte outside q is written, and p's chunk goes if p was its last block. */
    method Reallocate(p: Buffer, bytes: nat) returns (q: Buffer)
      requires Valid() && (p.At? ==> Live(p)) && bytes <= CHUNK_SIZE - HEADER
      modifies this, chunks`ptr, chunks`count, chunks`sizes, Mems()
      ensures Valid() && Live(q) && q.offset + bytes <= q.chunk.mem.Length && last == q && (q == p <==> old(FitsInPlace(p, bytes)))
      ensures q == p ==> old(RoomBelow(p)) && q.chunk.ptr == Align(old(p.chunk.ptr - SizeOf(p)) + bytes)
      ensures q != p ==> q.chunk.ptr == Align(q.offset + bytes)
      ensures p.At? ==> p.offset + old(SizeOf(p)) <= p.chunk.mem.Length
      ensures p.At? ==> Bytes(q, Least(old(SizeOf(p)), bytes)) == old(Bytes(p, Least(SizeOf(p), bytes)))
      ensures forall c :: c in old(chunks) ==> c.sizes == Placed(Removed(old(c.sizes), c, p), c, q, bytes)
      ensures forall c :: c in chunks - old(chunks) ==> c.sizes == Placed(map[], c, q, bytes)
      ensures forall c :: c in old(chunks) - chunks ==> p.At? && c == p.chunk && c.sizes == map[]
      ensures p.At? && p.chunk.sizes == map[] ==> p.chunk !in chunks
      ensures forall c, k :: c in old(chunks) && 0 <= k < c.mem.Length && !(c == q.chunk && q.offset <= k < q.offset + bytes) ==>
        c.mem[k] == old(c.mem[k])
    {
      hide Chunk.Valid, Zone.Valid;
      if p.Null? {
        q := Allocate(bytes);
        Inside(q);
      } else {
        Inside(p);
        q := Resize(p, p.chunk.sizes[p.offset], bytes);
      }
    }

    method Resize(p: Buffer, size: nat, bytes: nat) returns (q: Buffer)
      requires Valid() && Live(p) && size == p.chunk.sizes[p.offset] && bytes <= CHUNK_SIZE - HEADER
      requires p.offset + size <= p.chunk.mem.Length
      modifies this, chunks`ptr, chunks`count, chunks`sizes, Mems()
      ensures Valid() && Live(q) && q.offset + bytes <= q.chunk.mem.Length && last == q && (q == p <==> old(FitsInPlace(p, bytes)))
      ensures q == p ==> old(RoomBelow(p)) && q.chunk.ptr == Align(old(p.chunk.ptr - SizeOf(p)) + bytes)
      ensures q != p ==> q.chunk.ptr == Align(q.offset + bytes)
      ensures Bytes(q, Least(size, bytes)) == old(Bytes(p, Least(size, bytes)))
      ensures forall c :: c in old(chunks) ==> c.sizes == Placed(Removed(old(c.sizes), c, p), c, q, bytes)
      ensures forall c :: c in chunks - old(chunks) ==> c.sizes == Placed(map[], c, q, bytes)
      ensures forall c :: c in old(chunks) - chunks ==> c == p.chunk && c.sizes == map[]
      ensures p.chunk.sizes == map[] ==> p.chunk !in chunks
      ensures forall c, k :: c in old(chunks) && 0 <= k < c.mem.Length && !(c == q.chunk && q.offset <= k < q.offset + bytes) ==>
        c.mem[k] == old(c.mem[k])
    {
      hide Chunk.Valid, Zone.Valid;
      if p == last {
        var done := ResizeLast(p, bytes);
        if done {
          Inside(p);
          return p;
        }
      }
      q := Replace(p, size, bytes);
    }

    method Replace(p: Buffer, size: nat, bytes: nat) returns (q: Buffer)
      requires Valid() && Live(p) && size == p.chunk.sizes[p.offset] && bytes <= CHUNK_SIZE - HEADER
      requires p.offset + size <= p.chunk.mem.Length
      modifies this, chunks`ptr, chunks`count, chunks`sizes, Mems()
      ensures Valid() && Live(q) && q.offset + bytes <= q.chunk.mem.Length && q != p && last == q
      ensures Bytes(q, Least(size, bytes)) == old(Bytes(p, Least(size, bytes))) && q.chunk.ptr == Align(q.offset + bytes)
      ensures forall c :: c in old(chunks) ==> c.sizes == Placed(Removed(old(c.sizes), c, p), c, q, bytes)
      ensures forall c :: c in chunks - old(chunks) ==> c.sizes == Placed(map[], c, q, bytes)
      ensures forall c :: c in old(chunks) - chunks ==> c == p.chunk && c.sizes == map[]
      ensures p.chunk.sizes == map[] ==> p.chunk !in chunks
      ensures forall c, k :: c in old(chunks) && 0 <= k < c.mem.Length && !(c == q.chunk && q.offset <= k < q.offset + bytes) ==>
        c.mem[k] == old(c.mem[k])
    {
      hide Chunk.Valid, Zone.Valid;
      q := Duplicate(p, size, bytes);
      Free(p);
      assert q.offset in q.chunk.sizes;
    }

    /** p is the last buffer, and the size shrinks or its chunk has room for the rest. */
    ghost predicate FitsInPlace(p: Buffer, bytes: nat)
      reads this`last, if p.At? then {p.chunk} else {}
    {
      p.At? && p == last && (bytes <= SizeOf(p) || p.chunk.RemainingSpace() >= bytes - SizeOf(p))
    }

    ghost predicate RoomBelow(p: Buffer)
      reads if p.At? then {p.chunk} else {}
    {
      p.At? && SizeOf(p) <= p.chunk.ptr
    }

    ghost function SizeOf(p: Buffer): (n: nat)
      reads if p.At? then {p.chunk} else {}
    {
      if p.At? && p.offset in p.chunk.sizes then p.chunk.sizes[p.offset] else 0
    }

    ghost function Mems(): (r: set<array<byte>>)
      reads this`chunks
    {
      set c: Chunk | c in chunks :: c.mem
    }
  }
}
