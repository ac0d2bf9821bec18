/** From an application's range to the native range the server flushes or invalidates.

    The client cuts a range into chunks that are whole atoms wherever they do not end the range; the
    server rounds each chunk out to atoms. Alignment is done with bit masks on 64-bit values.
  */
module TransferRanges {
  import opened Limits
  import opened Options

  const WORD: nat := 0x1_0000_0000_0000_0000
  const WHOLE_SIZE: nat := WORD - 1

  // ---------------------------------------------------------------------------
  // Masks
  // ---------------------------------------------------------------------------

  function Pow2(k: nat): (p: nat)
    ensures p > 0
  {
    if k == 0 then 1 else 2 * Pow2(k - 1)
  }

  /** Bitwise conjunction. */
  function And(x: nat, y: nat): nat {
    if x == 0 || y == 0 then 0 else (x % 2) * (y % 2) + 2 * And(x / 2, y / 2)
  }

  /** Bitwise complement in 64 bits. */
  function Not(x: nat): nat
    requires x < WORD
  {
    WORD - 1 - x
  }

  lemma {:induction false} Pow2Monotone(j: nat, k: nat)
    requires j <= k
    ensures Pow2(j) <= Pow2(k) && Pow2(k) % Pow2(j) == 0
    decreases k
  {
    if j < k {
      Pow2Monotone(j, k - 1);
      var q := Pow2(k - 1) / Pow2(j);
      assert Pow2(k) == (2 * q) * Pow2(j);
      MultipleMod(2 * q, Pow2(j));
    }
  }

  lemma MultipleMod(q: nat, m: nat)
    requires m > 0
    ensures (q * m) % m == 0
  {
    ModOf(q * m, m, q, 0);
  }

  lemma MulMonotone(a: nat, b: nat, m: nat)
    requires a <= b
    ensures a * m <= b * m
  {
  }

  lemma MulOrder(a: nat, b: nat, m: nat)
    requires a * m < b * m
    ensures a < b
  {
    if b <= a { MulMonotone(b, a, m); }
  }

  /** The remainder is the one number below the divisor that leaves a multiple. */
  lemma ModOf(v: nat, m: nat, q: nat, r: nat)
    requires m > 0 && v == q * m + r && r < m
    ensures v % m == r && v / m == q
  {
    var q', r' := Quotient(v, m);
    NextMultiple(q, m);
    NextMultiple(q', m);
    MulOrder(q, q' + 1, m);
    MulOrder(q', q + 1, m);
  }

  lemma Quotient(v: nat, m: nat) returns (q: nat, r: nat)
    requires m > 0
    ensures q == v / m && r == v % m && r < m && v == q * m + r
  {
    q, r := v / m, v % m;
  }

  lemma NextMultiple(q: nat, m: nat)
    ensures (q + 1) * m == q * m + m
  {
  }

  lemma SmallMod(v: nat, m: nat)
    requires v < m
    ensures v % m == v
  {
  }

  /** Halving a value halves its remainder by a power of two. */
  lemma HalfMod(v: nat, k: nat)
    requires k > 0
    ensures v % Pow2(k) == v % 2 + 2 * ((v / 2) % Pow2(k - 1))
  {
    var m := Pow2(k - 1);
    var q, r := (v / 2) / m, (v / 2) % m;
    assert v / 2 == q * m + r;
    assert v == 2 * (q * m + r) + v % 2 == q * (2 * m) + (2 * r + v % 2);
    ModOf(v, 2 * m, q, 2 * r + v % 2);
  }

  lemma AndUnfold(x: nat, y: nat)
    ensures And(x, y) == (x % 2) * (y % 2) + 2 * And(x / 2, y / 2)
  {
  }

  /** A mask of n bits without its k lowest clears exactly those. */
  lemma {:induction false} MaskClears(v: nat, n: nat, k: nat)
    requires k <= n && v < Pow2(n)
    ensures Pow2(k) <= Pow2(n) && And(v, Pow2(n) - Pow2(k)) == v - v % Pow2(k)
    decreases n
  {
    if k == n {
      SmallMod(v, Pow2(k));
    } else if k == 0 {
      AllOnes(v, n);
    } else {
      var half := Pow2(n - 1) - Pow2(k - 1);
      assert Pow2(n) == 2 * Pow2(n - 1) && Pow2(k) == 2 * Pow2(k - 1);
      hide And, Pow2;
      MaskClears(v / 2, n - 1, k - 1);
      HalfMod(v, k);
      EvenMask(v, half);
    }
  }

  lemma EvenMask(v: nat, half: nat)
    ensures And(v, 2 * half) == 2 * And(v / 2, half)
  {
    AndUnfold(v, 2 * half);
    hide And;
    HalfOf(half);
  }

  lemma HalfOf(half: nat)
    ensures (2 * half) / 2 == half && (2 * half) % 2 == 0
  {
  }

  lemma {:induction false} AllOnes(v: nat, n: nat)
    requires v < Pow2(n)
    ensures And(v, Pow2(n) - 1) == v
    decreases n
  {
    if n > 0 {
      var mask, half := Pow2(n) - 1, Pow2(n - 1) - 1;
      AllOnes(v / 2, n - 1);
      AndUnfold(v, mask);
      assert mask == 2 * half + 1 && mask / 2 == half && mask % 2 == 1;
    }
  }

  /** A mask of the k lowest bits keeps exactly those. */
  lemma {:induction false} MaskKeeps(v: nat, k: nat)
    ensures And(v, Pow2(k) - 1) == v % Pow2(k)
    decreases k
  {
    if k > 0 {
      var mask, half := Pow2(k) - 1, Pow2(k - 1) - 1;
      assert mask == 2 * half + 1;
      hide And, Pow2;
      MaskKeeps(v / 2, k - 1);
      HalfMod(v, k);
      AndUnfold(v, mask);
      assert mask == 2 * half + 1 && mask / 2 == half && mask % 2 == 1;
    }
  }

  lemma Pow64()
    ensures Pow2(64) == WORD
  {
    assert Pow2(8) == 256;
    assert Pow2(16) == 0x1_0000;
    assert Pow2(24) == 0x100_0000;
    assert Pow2(32) == 0x1_0000_0000;
    assert Pow2(40) == 0x100_0000_0000;
    assert Pow2(48) == 0x1_0000_0000_0000;
    assert Pow2(56) == 0x100_0000_0000_0000;
  }

  ghost predicate PowerOfTwo(a: nat) {
    exists k: nat :: k < 64 && a == Pow2(k)
  }

  /** The server's rounding: the mask form of the largest multiple not above the value. */
  function AlignDown(value: nat, alignment: nat): nat
    requires 0 < alignment <= WORD
  {
    And(value, Not(alignment - 1))
  }

  lemma AlignDownIs(value: nat, alignment: nat)
    requires PowerOfTwo(alignment) && value < WORD
    ensures 0 < alignment <= WORD && AlignDown(value, alignment) == value - value % alignment
  {
    var k: nat :| k < 64 && alignment == Pow2(k);
    Pow64();
    MaskClears(value, 64, k);
    Pow2Monotone(k, 64);
  }

  /** A power of two divides the size of the address space. */
  lemma DividesWord(alignment: nat)
    requires PowerOfTwo(alignment)
    ensures WORD % alignment == 0 && alignment < WORD
  {
    var k: nat :| k < 64 && alignment == Pow2(k);
    Pow64();
    Pow2Monotone(k, 64);
    Pow2Monotone(k, 63);
  }

  // ---------------------------------------------------------------------------
  // Remainders
  // ---------------------------------------------------------------------------

  lemma ModAdd(a: nat, b: nat, m: nat)
    requires m > 0 && a % m == 0 && b % m == 0
    ensures (a + b) % m == 0 && (a >= b ==> (a - b) % m == 0)
  {
    var p, q := a / m, b / m;
    assert a == p * m && b == q * m;
    assert a + b == (p + q) * m;
    MultipleMod(p + q, m);
    if a >= b {
      if a > b { MulOrder(q, p, m); }
      if a == b {
        assert a - b == 0 * m;
        MultipleMod(0, m);
      } else {
        assert a - b == (p - q) * m;
        MultipleMod(p - q, m);
      }
    }
  }

  lemma RoundedDown(v: nat, m: nat)
    requires m > 0
    ensures v % m <= v && (v - v % m) % m == 0
  {
    var q := v / m;
    assert v == q * m + v % m;
    assert v - v % m == q * m;
    MultipleMod(q, m);
  }

  /** The next multiple, computed as the server does. */
  lemma RoundedUp(v: nat, m: nat)
    requires m > 0
    ensures var up := (v + m - 1) - (v + m - 1) % m;
            v <= up < v + m && up % m == 0 && (v % m == 0 ==> up == v)
  {
    var w := v + m - 1;
    RoundedDown(w, m);
    if v % m == 0 {
      ModOf(w, m, v / m, m - 1);
    }
  }

  /** Of two multiples, the smaller is at most the larger rounded down. */
  lemma MultipleBelow(a: nat, b: nat, m: nat)
    requires m > 0 && a % m == 0 && a <= b
    ensures a <= b - b % m
  {
    var p, q := a / m, b / m;
    assert a == p * m && b == q * m + b % m;
    assert p * m < (q + 1) * m;
    MulOrder(p, q + 1, m);
    MulMonotone(p, q, m);
  }

  /** Two different multiples are at least the divisor apart. */
  lemma MultipleGap(a: nat, b: nat, m: nat)
    requires m > 0 && a % m == 0 && b % m == 0 && a < b
    ensures a + m <= b
  {
    var p, q := a / m, b / m;
    assert a == p * m && b == q * m;
    MulOrder(p, q, m);
    MulMonotone(p + 1, q, m);
  }

  // ---------------------------------------------------------------------------
  // The client's ranges
  // ---------------------------------------------------------------------------

  datatype Allocation = Allocation(size: nat, atom: nat, coherent: bool)
  {
    predicate Valid() {
      size < WORD && atom < WORD
    }
  }

  datatype Range = Range(offset: nat, size: nat)

  /** A requested range of an allocation; the whole size means up to its end. */
  function ResolveAllocation(size: nat, offset: nat, requested: nat): (resolved: Option<nat>)
    ensures resolved.Some? <==> offset < size && (requested == WHOLE_SIZE || 0 < requested <= size - offset)
    ensures resolved.Some? ==> 0 < resolved.value && offset + resolved.value <= size
    ensures resolved.Some? ==> if requested == WHOLE_SIZE then offset + resolved.value == size else resolved.value == requested
  {
    if offset >= size then None
    else
      var available := size - offset;
      if requested == WHOLE_SIZE then Some(available)
      else if requested == 0 || requested > available then None
      else Some(requested)
  }

  predicate RangeOk(allocation: Option<Allocation>, range: Range) {
    && allocation.Some?
    && var a := allocation.value;
       var size := ResolveAllocation(a.size, range.offset, range.size);
       && size.Some?
       && (!a.coherent ==>
             && a.atom != 0 && range.offset % a.atom == 0
             && (range.offset + size.value == a.size || size.value % a.atom == 0))
  }

  method ValidateRanges(allocations: map<nat, Allocation>, memories: seq<nat>, ranges: seq<Range>) returns (ok: bool)
    requires |memories| == |ranges|
    ensures ok <==> forall i | 0 <= i < |ranges| ::
              RangeOk(if memories[i] in allocations then Some(allocations[memories[i]]) else None, ranges[i])
    ensures ok <==> forall i | 0 <= i < |ranges| ::
              && memories[i] in allocations
              && var a, begin, size := allocations[memories[i]], ranges[i].offset, ranges[i].size;
                 && begin < a.size && (size == WHOLE_SIZE || 0 < size <= a.size - begin)
                 && (!a.coherent ==>
                       && a.atom != 0 && begin % a.atom == 0
                       && (size == WHOLE_SIZE || begin + size == a.size || size % a.atom == 0))
  {
    for i := 0 to |ranges|
      invariant forall j | 0 <= j < i ::
        RangeOk(if memories[j] in allocations then Some(allocations[memories[j]]) else None, ranges[j])
    {
      if memories[i] !in allocations { return false; }
      var a, range := allocations[memories[i]], ranges[i];
      var size := ResolveAllocation(a.size, range.offset, range.size);
      if size.None? { return false; }
      if a.coherent { continue; }
      if a.atom == 0 || range.offset % a.atom != 0 { return false; }
      if range.offset + size.value != a.size && size.value % a.atom != 0 { return false; }
    }
    ok := true;
  }

  /** A requested range of a mapping; here the whole size means up to the mapping's end. */
  function ResolveMapping(mapping: Range, range: Range): (resolved: Option<nat>)
    ensures resolved.Some? <==>
              mapping.offset <= range.offset <= mapping.offset + mapping.size
              && (range.size == WHOLE_SIZE || range.offset + range.size <= mapping.offset + mapping.size)
    ensures resolved.Some? ==> if range.size == WHOLE_SIZE then range.offset + resolved.value == mapping.offset + mapping.size
                               else resolved.value == range.size
  {
    if range.offset < mapping.offset || range.offset - mapping.offset > mapping.size then None
    else
      var available := mapping.size - (range.offset - mapping.offset);
      var resolved := if range.size == WHOLE_SIZE then available else range.size;
      if resolved > available then None else Some(resolved)
  }

  function Min(a: nat, b: nat): nat {
    if a < b then a else b
  }

  /** The next chunk of what is left of a range: whole atoms, unless it ends the range. */
  function ChunkOf(left: nat, atom: nat): nat
    requires atom > 0
  {
    var chunk := Min(MAX_CHUNK, left);
    if chunk < left then chunk - chunk % atom else chunk
  }

  predicate Tiles(chunks: seq<Range>, offset: nat, size: nat) {
    if chunks == [] then size == 0
    else
      var last := chunks[|chunks| - 1];
      last.size <= size && last.offset == offset + (size - last.size)
      && Tiles(chunks[..|chunks| - 1], offset, size - last.size)
  }

  /** Every chunk is within the bound, begins at an atom, and ends at an atom or at the range's end. */
  predicate ChunkAligned(c: Range, atom: nat, end: nat)
    requires atom > 0
  {
    0 < c.size <= MAX_CHUNK && c.offset % atom == 0 && (c.offset + c.size == end || (c.offset + c.size) % atom == 0)
  }

  /** The transfer loop of a flush or a download: its requests, or a refusal. */
  method CutRange(offset: nat, size: nat, atom: nat) returns (chunks: Option<seq<Range>>)
    requires atom > 0
    ensures chunks.None? <==> size > MAX_CHUNK && MAX_CHUNK < atom
    ensures chunks.Some? ==> Tiles(chunks.value, offset, size)
    ensures chunks.Some? ==> forall i | 0 <= i < |chunks.value| :: 0 < chunks.value[i].size <= MAX_CHUNK
    ensures chunks.Some? ==> forall i | 0 <= i < |chunks.value| - 1 :: chunks.value[i].size == MAX_CHUNK - MAX_CHUNK % atom
    ensures chunks.Some? && offset % atom == 0 ==>
              forall i | 0 <= i < |chunks.value| :: ChunkAligned(chunks.value[i], atom, offset + size)
  {
    ghost var whole := WholeChunk(atom);
    WholeIs(atom);
    hide ChunkOf, ChunkAligned, WholeChunk;
    var done: nat, made: seq<Range> := 0, [];
    while done < size
      invariant done <= size && Tiles(made, offset, done)
      invariant offset % atom == 0 && done < size ==> (offset + done) % atom == 0
      invariant done > 0 ==> size <= MAX_CHUNK || atom <= MAX_CHUNK
      invariant forall i | 0 <= i < |made| :: 0 < made[i].size <= MAX_CHUNK
      invariant forall i | 0 <= i < |made| && (done < size || i < |made| - 1) :: made[i].size == whole
      invariant offset % atom == 0 ==> forall i | 0 <= i < |made| :: ChunkAligned(made[i], atom, offset + size)
      decreases size - done
    {
      var chunk := ChunkOf(size - done, atom);
      ChunkIs(size - done, atom);
      if chunk < size - done {
        if chunk == 0 { return None; }
      }
      var next := Range(offset + done, chunk);
      NextAligned(next, offset, size, done, atom);
      assert (made + [next])[..|made|] == made;
      made := made + [next];
      done := done + chunk;
    }
    assert forall i | 0 <= i < |made| - 1 :: made[i].size == MAX_CHUNK - MAX_CHUNK % atom;
    chunks := Some(made);
  }

  /** A chunk that does not end its range: as many whole atoms as fit. */
  function WholeChunk(atom: nat): nat
    requires atom > 0
  {
    MAX_CHUNK - MAX_CHUNK % atom
  }

  lemma WholeIs(atom: nat)
    requires atom > 0
    ensures WholeChunk(atom) == MAX_CHUNK - MAX_CHUNK % atom && WholeChunk(atom) <= MAX_CHUNK
    ensures WholeChunk(atom) == 0 <==> MAX_CHUNK < atom
    ensures WholeChunk(atom) % atom == 0
  {
    RoundedDown(MAX_CHUNK, atom);
    ChunkZero(atom);
  }

  lemma ChunkIs(left: nat, atom: nat)
    requires atom > 0 && left > 0
    ensures ChunkOf(left, atom) == if left > MAX_CHUNK then WholeChunk(atom) else left
    ensures WholeChunk(atom) <= MAX_CHUNK
  {
  }

  lemma NextAligned(next: Range, offset: nat, size: nat, done: nat, atom: nat)
    requires atom > 0 && done < size && next.offset == offset + done && 0 < next.size <= MAX_CHUNK
    requires next.size == if size - done > MAX_CHUNK then WholeChunk(atom) else size - done
    ensures next.size < size - done && (offset + done) % atom == 0 ==> (offset + done + next.size) % atom == 0
    ensures (offset + done) % atom == 0 ==> ChunkAligned(next, atom, offset + size)
  {
    if size - done > MAX_CHUNK && (offset + done) % atom == 0 {
      WholeIs(atom);
      ModAdd(offset + done, next.size, atom);
    }
  }

  lemma ChunkZero(atom: nat)
    requires atom > 0
    ensures MAX_CHUNK - MAX_CHUNK % atom == 0 <==> MAX_CHUNK < atom
  {
  }

  /** The chunks of a range cover each of its bytes exactly once, and no other byte. */
  lemma {:induction false} TilesCover(chunks: seq<Range>, offset: nat, size: nat, i: nat)
    requires Tiles(chunks, offset, size)
    ensures offset <= i < offset + size <==>
              exists k :: 0 <= k < |chunks| && chunks[k].offset <= i < chunks[k].offset + chunks[k].size
    ensures forall j, k | 0 <= j < k < |chunks| :: chunks[j].offset + chunks[j].size <= chunks[k].offset
    ensures forall k | 0 <= k < |chunks| :: offset <= chunks[k].offset && chunks[k].offset + chunks[k].size <= offset + size
    decreases |chunks|
  {
    if chunks != [] {
      var n := |chunks| - 1;
      var front := chunks[..n];
      TilesCover(front, offset, size - chunks[n].size, i);
      assert forall k | 0 <= k < n :: front[k] == chunks[k];
      if chunks[n].offset <= i < chunks[n].offset + chunks[n].size {
        assert exists k :: 0 <= k < |chunks| && chunks[k].offset <= i < chunks[k].offset + chunks[k].size;
      } else if k :| 0 <= k < n && front[k].offset <= i < front[k].offset + front[k].size {
        assert chunks[k].offset <= i < chunks[k].offset + chunks[k].size;
      }
      if k :| 0 <= k < |chunks| && chunks[k].offset <= i < chunks[k].offset + chunks[k].size {
        if k < n { assert front[k].offset <= i < front[k].offset + front[k].size; }
      }
    }
  }

  // ---------------------------------------------------------------------------
  // The server's native range
  // ---------------------------------------------------------------------------

  datatype ServerMemory = ServerMemory(size: nat, alignment: nat, atom: nat)
  {
    ghost predicate Valid() {
      size < WORD && PowerOfTwo(alignment) && PowerOfTwo(atom)
    }
  }

  /** The subtraction says the same of the sum, which might wrap. */
  lemma TransferOkExactly(m: ServerMemory, c: Range)
    ensures TransferOk(m, c) <==> 0 < c.size <= MAX_CHUNK && c.offset + c.size <= m.size
  {
  }

  /** What the server accepts. */
  predicate TransferOk(m: ServerMemory, c: Range) {
    c.size != 0 && c.size <= MAX_CHUNK && c.offset <= m.size && c.size <= m.size - c.offset
  }

  function Larger(a: nat, b: nat): nat {
    if a > b then a else b
  }

  /** Where the server maps the memory from; it always maps to its end. */
  function MapOffset(m: ServerMemory, c: Range): nat
    requires 0 < m.alignment < WORD && 0 < m.atom < WORD
  {
    AlignDown(c.offset, Larger(m.alignment, m.atom))
  }

  /** The range flushed or invalidated on memory that is not coherent, in 64-bit arithmetic. */
  function NativeRange(m: ServerMemory, c: Range): Range
    requires 0 < m.atom < WORD && c.offset + c.size < WORD
  {
    var begin, end := AlignDown(c.offset, m.atom), c.offset + c.size;
    if end == m.size then Range(begin, WHOLE_SIZE)
    else
      var rounded := AlignDown((end + m.atom - 1) % WORD, m.atom);
      Range(begin, (rounded - begin) % WORD)
  }

  /** The end of a native range of a memory. */
  function NativeEnd(m: ServerMemory, native: Range): nat {
    if native.size == WHOLE_SIZE then m.size else native.offset + native.size
  }

  /** A native range the driver may be given: it begins at an atom, ends at one or at the end of the
      allocation, lies in the allocation and in what is mapped, and covers the chunk. */
  predicate NativeOk(m: ServerMemory, c: Range, native: Range, mapOffset: nat)
    requires m.atom > 0
  {
    && native.offset % m.atom == 0 && mapOffset <= native.offset <= c.offset
    && c.offset + c.size <= NativeEnd(m, native) <= m.size
    && (native.size == WHOLE_SIZE || native.size % m.atom == 0)
  }

  /** The multiple of the larger power of two is a multiple of the smaller. */
  lemma SmallerAlignment(v: nat, m: ServerMemory)
    requires m.Valid() && v < WORD
    ensures var big := Larger(m.alignment, m.atom);
            0 < big < WORD && AlignDown(v, big) <= v - v % m.atom && AlignDown(v, big) == v - v % big
  {
    var big := Larger(m.alignment, m.atom);
    assert PowerOfTwo(big);
    AlignDownIs(v, big);
    DividesWord(big);
    RoundedDown(v, big);
    var j: nat :| j < 64 && m.atom == Pow2(j);
    var k: nat :| k < 64 && big == Pow2(k);
    if j > k {
      Pow2Monotone(k, j);
      Pow2Strict(k, j);
    }
    Pow2Monotone(j, k);
    MultipleOfMultiple(v - v % big, big, m.atom);
    MultipleBelow(v - v % big, v, m.atom);
  }

  lemma {:induction false} Pow2Strict(j: nat, k: nat)
    requires j < k
    ensures Pow2(j) < Pow2(k)
    decreases k
  {
    if j < k - 1 {
      Pow2Strict(j, k - 1);
    }
  }

  lemma MultipleOfMultiple(v: nat, big: nat, small: nat)
    requires big > 0 && small > 0 && v % big == 0 && big % small == 0
    ensures v % small == 0
  {
    var p, q := v / big, big / small;
    assert v == p * big && big == q * small;
    assert v == (p * q) * small;
    MultipleMod(p * q, small);
  }

  /** The rounded end of a chunk that ends at an atom is its end: nothing wraps. */
  lemma EndIsRounded(end: nat, atom: nat)
    requires PowerOfTwo(atom) && end < WORD && end % atom == 0
    ensures 0 < atom < WORD && AlignDown((end + atom - 1) % WORD, atom) == end
  {
    hide AlignDown;
    DividesWord(atom);
    MultipleGap(end, WORD, atom);
    RoundedUp(end, atom);
    AlignDownIs(end + atom - 1, atom);
  }

  /** The native range of a chunk that begins and ends at an atom is the chunk; one that ends the
      allocation is flushed to the end. */
  lemma NativeIsChunk(m: ServerMemory, c: Range)
    requires m.Valid() && c.offset + c.size <= m.size && m.atom > 0 && ChunkAligned(c, m.atom, m.size)
    ensures m.atom < WORD
    ensures NativeRange(m, c) == Range(c.offset, if c.offset + c.size == m.size then WHOLE_SIZE else c.size)
    ensures c.offset + c.size != m.size ==> c.size % m.atom == 0
  {
    DividesWord(m.atom);
    AlignDownIs(c.offset, m.atom);
    var end := c.offset + c.size;
    if end != m.size {
      EndIsRounded(end, m.atom);
      ModAdd(end, c.offset, m.atom);
      SmallMod(c.size, WORD);
    }
  }

  /** Every aligned chunk of the client is accepted and gets a proper native range: the one that
      begins where the chunk does and ends where the chunk does, or at the end of the allocation. */
  lemma AlignedChunkIsNative(m: ServerMemory, c: Range)
    requires m.Valid() && c.offset + c.size <= m.size
    requires m.atom > 0 && ChunkAligned(c, m.atom, m.size)
    ensures 0 < m.alignment < WORD && m.atom < WORD && TransferOk(m, c)
    ensures NativeOk(m, c, NativeRange(m, c), MapOffset(m, c))
    ensures NativeRange(m, c).offset == c.offset && NativeEnd(m, NativeRange(m, c)) == c.offset + c.size
  {
    NativeIsChunk(m, c);
    DividesWord(m.alignment);
    SmallerAlignment(c.offset, m);
  }

  /** The next multiple of an atom, without a word size. */
  function RoundUp(v: nat, atom: nat): nat
    requires atom > 0
  {
    (v + atom - 1) - (v + atom - 1) % atom
  }

  /** An end leaves room for its atom: it ends the allocation, or the atom it is in does not leave it. */
  predicate Fits(m: ServerMemory, end: nat)
    requires m.atom > 0
  {
    end == m.size || RoundUp(end, m.atom) <= m.size
  }

  /** The sum did not leave the 64-bit range: the server rounds as if there were none. */
  lemma RoundsInside(m: ServerMemory, c: Range)
    requires m.Valid() && 0 < m.atom < WORD && c.offset + c.size < m.size && c.offset % m.atom == 0
    requires c.offset + c.size + m.atom - 1 < WORD
    ensures var end := RoundUp(c.offset + c.size, m.atom);
            && c.offset + c.size <= end && end - c.offset < WHOLE_SIZE && (end - c.offset) % m.atom == 0
            && NativeRange(m, c) == Range(c.offset, end - c.offset)
  {
    hide AlignDown;
    var end := c.offset + c.size;
    RoundedUp(end, m.atom);
    AlignDownIs(c.offset, m.atom);
    AlignDownIs(end + m.atom - 1, m.atom);
    SmallMod(end + m.atom - 1, WORD);
    var up := RoundUp(end, m.atom);
    ModAdd(up, c.offset, m.atom);
    SmallMod(up - c.offset, WORD);
    if up - c.offset == WHOLE_SIZE {
      DividesWord(m.atom);
      MultipleGap(up, WORD, m.atom);
    }
  }

  /** It did: the rounded sum comes round to 0, and the true one is past every allocation. */
  lemma RoundsOutside(end: nat, atom: nat)
    requires PowerOfTwo(atom) && end < WORD <= end + atom - 1
    ensures 1 < atom < WORD && RoundUp(end, atom) >= WORD
    ensures AlignDown((end + atom - 1) % WORD, atom) == 0
  {
    hide AlignDown;
    var w := end + atom - 1;
    DividesWord(atom);
    MultipleBelow(WORD, w, atom);
    AlignDownIs(w - WORD, atom);
    SmallMod(w - WORD, atom);
    ModOf(w, WORD, 1, w - WORD);
  }

  lemma WrappedNative(m: ServerMemory, c: Range)
    requires m.Valid() && 0 < m.atom < WORD && c.offset + c.size < m.size && c.offset % m.atom == 0
    requires c.offset + c.size + m.atom - 1 >= WORD
    ensures RoundUp(c.offset + c.size, m.atom) > m.size
    ensures NativeRange(m, c) == Range(c.offset, (0 - c.offset) % WORD) && c.offset != 1
  {
    RoundsOutside(c.offset + c.size, m.atom);
    AlignDownIs(c.offset, m.atom);
    hide AlignDown, RoundUp, PowerOfTwo;
    if c.offset == 1 { SmallMod(1, m.atom); }
  }

  /** A range that was rounded past the end of its word is not proper: it ends at 0. */
  lemma WrappedIsNotOk(m: ServerMemory, c: Range, native: Range, mapOffset: nat)
    requires 0 < m.atom < WORD && c.offset + c.size < m.size < WORD <= c.offset + c.size + m.atom - 1
    requires native == Range(c.offset, (0 - c.offset) % WORD) && c.offset != 1
    ensures !NativeOk(m, c, native, mapOffset)
  {
    if c.offset == 0 {
      assert native.size == 0;
    } else {
      assert native.size == WORD - c.offset != WHOLE_SIZE;
    }
  }

  /** A range rounded inside the word is proper exactly when it does not leave the allocation. */
  lemma RoundedIsOk(m: ServerMemory, c: Range, up: nat, mapOffset: nat)
    requires m.atom > 0 && mapOffset <= c.offset && c.offset % m.atom == 0
    requires c.offset + c.size <= up && up - c.offset < WHOLE_SIZE && (up - c.offset) % m.atom == 0
    ensures NativeOk(m, c, Range(c.offset, up - c.offset), mapOffset) <==> up <= m.size
  {
  }

  /** A chunk that ends the allocation is flushed to its end. */
  lemma EndingIsOk(m: ServerMemory, c: Range, mapOffset: nat)
    requires m.Valid() && 0 < m.atom < WORD && c.offset + c.size == m.size && c.offset % m.atom == 0
    requires mapOffset <= c.offset
    ensures NativeOk(m, c, NativeRange(m, c), mapOffset)
  {
    AlignDownIs(c.offset, m.atom);
    hide AlignDown;
  }

  /** A chunk that begins at an atom gets a proper native range exactly when its end fits. */
  lemma AlignedNativeExactly(m: ServerMemory, c: Range)
    requires m.Valid() && m.atom > 0 && c.offset + c.size <= m.size && c.offset % m.atom == 0
    ensures 0 < m.alignment < WORD && m.atom < WORD
    ensures NativeOk(m, c, NativeRange(m, c), MapOffset(m, c)) <==> Fits(m, c.offset + c.size)
  {
    DividesWord(m.atom);
    DividesWord(m.alignment);
    SmallerAlignment(c.offset, m);
    var mapOffset := MapOffset(m, c);
    assert mapOffset <= c.offset;
    hide AlignDown, RoundUp, NativeOk, NativeRange, MapOffset, PowerOfTwo;
    if c.offset + c.size == m.size {
      EndingIsOk(m, c, mapOffset);
    } else if c.offset + c.size + m.atom - 1 < WORD {
      RoundsInside(m, c);
      RoundedIsOk(m, c, RoundUp(c.offset + c.size, m.atom), mapOffset);
    } else {
      WrappedNative(m, c);
      WrappedIsNotOk(m, c, NativeRange(m, c), mapOffset);
    }
  }

  /** Rounding the begin down to its atom changes neither the native range nor whether it is proper. */
  lemma BeginRoundsDown(m: ServerMemory, c: Range)
    requires m.Valid() && c.offset + c.size <= m.size
    ensures 0 < m.alignment < WORD && 0 < m.atom < WORD
    ensures var d := Range(c.offset - c.offset % m.atom, c.size + c.offset % m.atom);
            && d.offset % m.atom == 0 && NativeRange(m, d) == NativeRange(m, c) && NativeRange(m, c).offset == d.offset
            && MapOffset(m, c) <= d.offset && MapOffset(m, d) <= d.offset
  {
    DividesWord(m.atom);
    DividesWord(m.alignment);
    RoundedDown(c.offset, m.atom);
    var d := Range(c.offset - c.offset % m.atom, c.size + c.offset % m.atom);
    AlignDownIs(c.offset, m.atom);
    AlignDownIs(d.offset, m.atom);
    SmallerAlignment(c.offset, m);
    SmallerAlignment(d.offset, m);
    hide AlignDown, PowerOfTwo;
  }

  lemma SameNative(m: ServerMemory, c: Range, d: Range, native: Range, a: nat, b: nat)
    requires m.atom > 0 && d.offset <= c.offset && c.offset + c.size == d.offset + d.size && native.offset == d.offset
    requires a <= d.offset && b <= d.offset
    ensures NativeOk(m, c, native, a) <==> NativeOk(m, d, native, b)
  {
  }

  lemma EndOfNative(m: ServerMemory, c: Range)
    requires m.Valid() && 0 < m.atom < WORD && c.offset + c.size <= m.size && c.offset % m.atom == 0
    requires Fits(m, c.offset + c.size)
    ensures NativeEnd(m, NativeRange(m, c))
            == if c.offset + c.size == m.size then m.size else RoundUp(c.offset + c.size, m.atom)
  {
    hide AlignDown;
    if c.offset + c.size != m.size {
      if c.offset + c.size + m.atom - 1 >= WORD {
        WrappedNative(m, c);
        assert false;
      }
      RoundsInside(m, c);
    }
  }

  /** A chunk gets a proper native range exactly when its end fits. The range begins at the atom below
      the chunk and then ends at the atom above it, or with the allocation; the memory is mapped from the larger
      alignment below. */
  lemma NativeExactly(m: ServerMemory, c: Range)
    requires m.Valid() && c.offset + c.size <= m.size
    ensures 0 < m.alignment < WORD && 0 < m.atom < WORD
    ensures NativeOk(m, c, NativeRange(m, c), MapOffset(m, c)) <==> Fits(m, c.offset + c.size)
    ensures NativeRange(m, c).offset == c.offset - c.offset % m.atom
    ensures Fits(m, c.offset + c.size) ==>
              NativeEnd(m, NativeRange(m, c))
              == if c.offset + c.size == m.size then m.size else RoundUp(c.offset + c.size, m.atom)
    ensures MapOffset(m, c) == c.offset - c.offset % (if m.alignment > m.atom then m.alignment else m.atom)
  {
    BeginRoundsDown(m, c);
    SmallerAlignment(c.offset, m);
    var d := Range(c.offset - c.offset % m.atom, c.size + c.offset % m.atom);
    AlignedNativeExactly(m, d);
    hide AlignDown, NativeRange, Fits, NativeOk, PowerOfTwo;
    SameNative(m, c, d, NativeRange(m, c), MapOffset(m, c), MapOffset(m, d));
    if Fits(m, d.offset + d.size) {
      EndOfNative(m, d);
    }
  }

  /** A multiple of the atom inside the allocation fits. */
  lemma MultipleFits(m: ServerMemory, end: nat)
    requires m.atom > 0 && end <= m.size && end % m.atom == 0
    ensures Fits(m, end)
  {
    RoundedUp(end, m.atom);
  }

  /** The chunks of a transfer that begins at an atom. */
  predicate CutAs(m: ServerMemory, chunks: seq<Range>, offset: nat, size: nat)
    requires m.atom > 0
  {
    && offset % m.atom == 0 && Tiles(chunks, offset, size)
    && forall i | 0 <= i < |chunks| :: ChunkAligned(chunks[i], m.atom, offset + size)
  }

  /** Every chunk of a transfer gets a proper native range exactly when the transfer's end fits. */
  lemma TransferIsNative(m: ServerMemory, chunks: seq<Range>, offset: nat, size: nat)
    requires m.Valid() && m.atom > 0 && offset + size <= m.size && CutAs(m, chunks, offset, size)
    ensures 0 < m.alignment < WORD && m.atom < WORD
    ensures forall k | 0 <= k < |chunks| :: chunks[k].offset + chunks[k].size <= m.size
    ensures (forall k | 0 <= k < |chunks| ::
               NativeOk(m, chunks[k], NativeRange(m, chunks[k]), MapOffset(m, chunks[k]))) <==> Fits(m, offset + size)
  {
    hide AlignDown, NativeOk, Fits, NativeRange, MapOffset;
    DividesWord(m.atom);
    DividesWord(m.alignment);
    TilesCover(chunks, offset, size, 0);
    forall k | 0 <= k < |chunks|
      ensures NativeOk(m, chunks[k], NativeRange(m, chunks[k]), MapOffset(m, chunks[k]))
              <==> Fits(m, chunks[k].offset + chunks[k].size)
      ensures chunks[k].offset + chunks[k].size == offset + size || Fits(m, chunks[k].offset + chunks[k].size)
    {
      NativeExactly(m, chunks[k]);
      if chunks[k].offset + chunks[k].size != offset + size {
        MultipleFits(m, chunks[k].offset + chunks[k].size);
      }
    }
    if chunks == [] {
      MultipleFits(m, offset);
    } else {
      var last := chunks[|chunks| - 1];
      assert last.offset + last.size == offset + size;
    }
  }

  /** The whole way from a validated range of a mapping, on memory that is not coherent: every chunk
      gets a proper native range exactly when the range's end fits, which a caller can tell before. */
  lemma ValidatedRangeExactly(m: ServerMemory, mapping: Range, range: Range, chunks: seq<Range>)
    requires m.Valid() && mapping.offset + mapping.size <= m.size
    requires RangeOk(Some(Allocation(m.size, m.atom, false)), range)
    requires ResolveMapping(mapping, range).Some?
    requires CutAs(m, chunks, range.offset, ResolveMapping(mapping, range).value)
    ensures 0 < m.alignment < WORD && 0 < m.atom < WORD
    ensures forall k | 0 <= k < |chunks| ::
              && TransferOk(m, chunks[k])
              && mapping.offset <= chunks[k].offset
              && chunks[k].offset + chunks[k].size <= mapping.offset + mapping.size
    ensures (forall k | 0 <= k < |chunks| ::
               NativeOk(m, chunks[k], NativeRange(m, chunks[k]), MapOffset(m, chunks[k])))
            <==> (range.size == WHOLE_SIZE ==> Fits(m, mapping.offset + mapping.size))
  {
    hide AlignDown, NativeOk, Fits, NativeRange, MapOffset;
    var size := ResolveMapping(mapping, range).value;
    TilesCover(chunks, range.offset, size, 0);
    TransferIsNative(m, chunks, range.offset, size);
    if range.size != WHOLE_SIZE {
      if range.offset + size != m.size {
        ModAdd(range.offset, size, m.atom);
        MultipleFits(m, range.offset + size);
      } else {
        EndFits(m);
      }
    }
  }

  lemma EndFits(m: ServerMemory)
    requires m.atom > 0
    ensures Fits(m, m.size)
  {
  }

  /** So each chunk of a range whose end fits gets one. */
  lemma ValidatedRangeIsNative(m: ServerMemory, mapping: Range, range: Range, chunks: seq<Range>, k: nat)
    requires m.Valid() && mapping.offset + mapping.size <= m.size
    requires RangeOk(Some(Allocation(m.size, m.atom, false)), range)
    requires ResolveMapping(mapping, range).Some? && k < |chunks|
    requires CutAs(m, chunks, range.offset, ResolveMapping(mapping, range).value)
    requires range.size == WHOLE_SIZE ==> Fits(m, mapping.offset + mapping.size)
    ensures 0 < m.alignment < WORD && 0 < m.atom < WORD && TransferOk(m, chunks[k])
    ensures NativeOk(m, chunks[k], NativeRange(m, chunks[k]), MapOffset(m, chunks[k]))
    ensures mapping.offset <= chunks[k].offset && chunks[k].offset + chunks[k].size <= mapping.offset + mapping.size
  {
    ValidatedRangeExactly(m, mapping, range, chunks);
  }

  /** Without that, the rounding can leave the allocation: a mapping that ends inside an atom, near the
      end of an allocation that does too, flushed as a whole. */
  lemma WholeSizeMayOverrun()
    ensures var m, mapping, range := ServerMemory(100, 64, 64), Range(0, 70), Range(0, WHOLE_SIZE);
            && m.Valid() && RangeOk(Some(Allocation(100, 64, false)), range)
            && ResolveMapping(mapping, range) == Some(70)
            && NativeEnd(m, NativeRange(m, Range(0, 70))) == 128 > m.size && !Fits(m, 70)
  {
    assert Pow2(6) == 64;
    hide AlignDown, And;
    var m := ServerMemory(100, 64, 64);
    assert PowerOfTwo(64);
    AlignDownIs(0, 64);
    AlignDownIs(133, 64);
  }

  // ---------------------------------------------------------------------------
  // The shadow's alignment
  // ---------------------------------------------------------------------------

  /** How far into its allocation a shadow begins. */
  function Adjustment(address: nat, offset: nat, alignment: nat): nat
    requires address < WORD && 0 < alignment
  {
    var residue := And(offset, alignment - 1);
    And((residue + WORD - address) % WORD, alignment - 1)
  }

  lemma AndMask(v: nat, alignment: nat)
    requires PowerOfTwo(alignment)
    ensures alignment > 0 && And(v, alignment - 1) == v % alignment
  {
    var k: nat :| k < 64 && alignment == Pow2(k);
    MaskKeeps(v, k);
  }

  /** The pointer an application gets is aligned as if it addressed the memory itself, and the shadow
      fits the block that was allocated for it. */
  lemma ShadowAligned(address: nat, offset: nat, size: nat, alignment: nat)
    requires PowerOfTwo(alignment) && address < WORD && offset < WORD
    ensures alignment > 0
    ensures var adjustment := Adjustment(address, offset, alignment);
            && (address + adjustment) % alignment == offset % alignment
            && adjustment + size <= size + alignment - 1
  {
    DividesWord(alignment);
    AndMask(offset, alignment);
    var residue := offset % alignment;
    var raw := residue + WORD - address;
    AndMask(raw % WORD, alignment);
    WrapMod(raw, alignment);
    SumIsAligned(address, residue, raw, alignment);
  }

  /** Adding back what is missing to the residue reaches it. */
  lemma SumIsAligned(address: nat, residue: nat, raw: nat, m: nat)
    requires m > 0 && WORD % m == 0 && residue < m && address < WORD && raw == residue + WORD - address
    ensures (address + raw % m) % m == residue
  {
    var q, w := raw / m, WORD / m;
    assert raw == q * m + raw % m && WORD == w * m;
    assert address + raw % m == residue + w * m - q * m;
    assert q * m < (w + 1) * m;
    MulOrder(q, w + 1, m);
    assert address + raw % m == (w - q) * m + residue;
    ModOf(address + raw % m, m, w - q, residue);
  }

  lemma WrapMod(v: nat, m: nat)
    requires m > 0 && WORD % m == 0
    ensures (v % WORD) % m == v % m
  {
    var q, r := v / WORD, v % WORD;
    var w := WORD / m;
    assert v == q * WORD + r && WORD == w * m;
    var s, t := r / m, r % m;
    assert r == s * m + t;
    assert v == (q * w + s) * m + t;
    ModOf(v, m, q * w + s, t);
  }
}
