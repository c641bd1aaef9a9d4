/** malloc, free and realloc as whole calls, and what holds over every run. */
module AllocRuns {
  import opened AllocSpec
  import opened AllocProofs

  // ---------------------------------------------------------------- the calls

  lemma ListMembers(s: State, i: int)
    requires ListsOk(s.chunks, s.lists) && 0 <= i < CLASSES
    ensures forall k :: 0 <= k < |s.lists[i]| ==> s.lists[i][k] in s.chunks
  {
    forall k | 0 <= k < |s.lists[i]| ensures s.lists[i][k] in s.chunks {
      assert Listed(s.chunks, s.lists, i, k);
    }
  }

  /** The first chunk on the request's list that fits. */
  function Search(s: State, size: int): (r: Option<int>)
    requires Inv(s) && 0 <= size < MAX_BLOCK
    ensures r.Some? ==>
      && r.value in s.chunks && s.chunks[r.value].free
      && ClassOf(s.chunks[r.value]) == SizeClass(size)
      && Fits(s.chunks, r.value, size)
  {
    ListMembers(s, SizeClass(size));
    var r := FirstFit(s.chunks, s.lists[SizeClass(size)], size);
    assert r.Some? ==> s.chunks[r.value].free && ClassOf(s.chunks[r.value]) == SizeClass(size) by {
      if r.Some? { ListsMember(s, SizeClass(size), r.value); }
    }
    r
  }

  lemma PagesForFits(size: int)
    requires 0 <= size
    ensures MIN_PAGES <= PagesFor(size) && size + HEADER <= PagesFor(size) * PAGE
  {
  }

  /** A listed chunk that fits comes off its list alone and large enough. */
  lemma ClaimOk(s: State, size: int)
    requires Inv(s) && 0 <= size < MAX_BLOCK && Search(s, size).Some?
    ensures |s.lists| == CLASSES == |s.complete|
    ensures var a := Search(s, size).value;
      var t := ClaimCounted(s, SizeClass(size), a);
      InHand(t, a) && Alone(t.chunks, a) && HEADER + size <= t.chunks[a].len
  {
    ClaimInHand(s, Search(s, size).value);
  }

  lemma ObtainOk(s: State, size: int, page: int)
    requires Inv(s) && MallocOk(s, size, page) && page != 0
    ensures page !in s.chunks && 0 < page
    ensures var t := Obtain(s, page, PagesFor(size));
      InHand(t, page) && Alone(t.chunks, page) && HEADER + size <= t.chunks[page].len
  {
    PagesForFits(size);
    ObtainShape(s.chunks, page, PagesFor(size));
    ObtainInHand(s, page, PagesFor(size));
  }

  /** malloc: the new state and the payload address, 0 when there is no memory. */
  ghost function Malloc(s: State, size: int, page: int): (r: (State, int))
    requires Inv(s) && MallocOk(s, size, page)
    ensures Inv(r.0)
  {
    PagesForFits(size);
    var found := Search(s, size);
    if found.Some? then
      ClaimInHand(s, found.value);
      var t := ClaimCounted(s, SizeClass(size), found.value);
      CarveInv(t, found.value, size);
      (Carve(t, found.value, size), found.value + HEADER)
    else if page == 0 then
      (s, 0)
    else
      ObtainInHand(s, page, PagesFor(size));
      var t := Obtain(s, page, PagesFor(size));
      CarveInv(t, page, size);
      (Carve(t, page, size), page + HEADER)
  }

  /** Join the chunk in hand with its free neighbours: the grown chunk. */
  ghost function JoinAll(s: State, a: int): (r: (State, int))
    requires InHand(s, a)
    ensures InHand(r.0, r.1) && Alone(r.0.chunks, r.1)
    ensures r.0.live == s.live
  {
    var left := FindLeftFree(s.chunks, a);
    var (t, b) :=
      if left.Some? then
        JoinLeftInHand(s, left.value, a);
        JoinLeftAlone(s, left.value, a);
        (JoinLeft(s, left.value, a), left.value)
      else (s, a);
    if RightFree(t.chunks, b) then
      JoinRightInHand(t, b);
      JoinRightAlone(t, b);
      (JoinRight(t, b), b)
    else (t, b)
  }

  ghost function Free(s: State, p: int): (r: (State, Option<Block>))
    requires Inv(s) && (p == 0 || p in s.live)
    ensures Inv(r.0)
  {
    if p == 0 then (s, None)
    else
      SurrenderInHand(s, p);
      var (t, a) := JoinAll(s.(live := s.live - {p}), p - HEADER);
      ReturnInv(t, a);
      Return(t, a)
  }

  /** What a caller of realloc sees: a pointer (0 for NULL), or the store through
      NULL that the copy makes when malloc has no memory. */
  datatype Outcome = Pointer(ptr: int) | NullStore

  ghost function Realloc(s: State, p: int, size: int, page: int): (r: (State, Outcome))
    requires Inv(s) && (p == 0 || p in s.live) && MallocOk(s, size, page)
    ensures Inv(r.0)
  {
    if size == 0 then (Free(s, p).0, Pointer(0))
    else if p == 0 then
      var (t, q) := Malloc(s, size, page);
      (t, Pointer(q))
    else
      var n := if s.live[p] > size then size else s.live[p];
      var (t, q) := Malloc(s, size, page);
      if q == 0 && n > 0 then (t, NullStore)
      else
        MallocLive(s, size, page);
        (Free(t, p).0, Pointer(q))
  }

  /** malloc adds one payload, at an address that was not a payload, and takes
      none away and resizes none; without memory it changes nothing. */
  lemma MallocLive(s: State, size: int, page: int)
    requires Inv(s) && MallocOk(s, size, page)
    ensures var (t, p) := Malloc(s, size, page);
      if p == 0 then t == s
      else p !in s.live && t.live == s.live[p := size]
    ensures Malloc(s, size, page).1 == 0 <==> page == 0 && Search(s, size).None?
  {
    var found := Search(s, size);
    if found.Some? {
      ClaimInHand(s, found.value);
      assert ChunkOk(s.chunks, found.value);
    } else if page != 0 {
      PagesForFits(size);
      ObtainInHand(s, page, PagesFor(size));
    }
  }

  lemma FreeLive(s: State, p: int)
    requires Inv(s) && (p == 0 || p in s.live)
    ensures Free(s, p).0.live == s.live - {p}
  {
    forall q | q in s.live ensures q != 0 {
      LiveAddress(s, q);
    }
    if p == 0 {
      assert s.live - {0} == s.live;
    }
  }

  /** realloc to a nonzero size swaps a payload for a new one, and fails only by
      the store through NULL, exactly when malloc has no memory and there is a
      byte to copy; with nothing to copy it frees the payload and returns NULL. */
  lemma ReallocLive(s: State, p: int, size: int, page: int)
    requires Inv(s) && p in s.live && size != 0 && MallocOk(s, size, page)
    ensures var (t, r) := Realloc(s, p, size, page);
      var none := page == 0 && Search(s, size).None?;
      && (r == NullStore <==> none && s.live[p] > 0)
      && (r == NullStore ==> t == s)
      && (r == Pointer(0) <==> none && s.live[p] == 0)
      && (r == Pointer(0) ==> t.live == s.live - {p})
      && (!none ==> r.Pointer? && r.ptr !in s.live && t.live == (s.live - {p})[r.ptr := size])
  {
    hide Inv;
    hide Search;
    hide Malloc;
    hide Free;
    LiveAddress(s, p);
    MallocLive(s, size, page);
    var (t, q) := Malloc(s, size, page);
    FreeLive(t, p);
    if q != 0 {
      assert s.live[q := size] - {p} == (s.live - {p})[q := size];
    }
  }

  lemma LiveAddress(s: State, p: int)
    requires Inv(s) && p in s.live
    ensures p > HEADER && LiveOk(s.chunks, s.live, p)
  {
    assert LiveOk(s.chunks, s.live, p);
    assert ChunkOk(s.chunks, p - HEADER);
  }

  // ---------------------------------------------------------------- isolation

  predicate Apart(a: int, n: int, b: int, k: int) {
    a + n <= b || b + k <= a
  }

  /** Payloads in use do not meet, and stay inside the block they came from. */
  lemma PayloadsApart(s: State, p: int, q: int)
    requires Inv(s) && p in s.live && q in s.live
    ensures p != q ==> Apart(p, s.live[p], q, s.live[q])
    ensures p - HEADER in s.chunks
    ensures var c := s.chunks[p - HEADER]; c.base + HEADER <= p && p + s.live[p] <= c.limit
  {
    LiveAddress(s, p);
    LiveAddress(s, q);
    assert ChunkOk(s.chunks, p - HEADER);
    assert Placed(s.chunks, p - HEADER, q - HEADER);
    assert Placed(s.chunks, q - HEADER, p - HEADER);
  }

  /** Payloads in use meet no header, of used or free chunks. */
  lemma PayloadMissesHeader(s: State, p: int, a: int)
    requires Inv(s) && p in s.live && a in s.chunks
    ensures Apart(p, s.live[p], a, HEADER)
  {
    LiveAddress(s, p);
    assert ChunkOk(s.chunks, a);
    assert Placed(s.chunks, p - HEADER, a);
    assert Placed(s.chunks, a, p - HEADER);
  }

  /** A payload held before and after meets no header of the one state or the other. */
  lemma HeadersMissPayloads(s: State, t: State, p: int, a: int)
    requires Inv(s) && Inv(t) && p in s.live && p in t.live && s.live[p] == t.live[p]
    requires a in s.chunks || a in t.chunks
    ensures Apart(p, s.live[p], a, HEADER)
  {
    if a in s.chunks {
      PayloadMissesHeader(s, p, a);
    } else {
      PayloadMissesHeader(t, p, a);
    }
  }

  // ---------------------------------------------------------------- tiling

  /** The split chain from chunk a to the end of its block. */
  function Chain(m: Chunks, a: int): (c: seq<int>)
    requires ChunksOk(m) && a in m
    ensures c != [] && c[0] == a
    decreases m[a].limit - a
  {
    assert ChunkOk(m, a);
    if a + m[a].len < m[a].limit then
      assert ChunkOk(m, a + m[a].len);
      [a] + Chain(m, a + m[a].len)
    else [a]
  }

  function ChainBytes(m: Chunks, c: seq<int>): int
    requires forall k :: 0 <= k < |c| ==> c[k] in m
  {
    if c == [] then 0 else m[c[0]].len + ChainBytes(m, c[1..])
  }

  /** c lists chunks of one block, each ending where the next starts, from
      address `from` to the block's end. */
  predicate Tiling(m: Chunks, c: seq<int>, from: int, block: Chunk) {
    && c != [] && c[0] == from
    && (forall k :: 0 <= k < |c| ==> c[k] in m && SameBlock(m[c[k]], block))
    && (forall k :: 0 <= k < |c| - 1 ==> c[k] + m[c[k]].len == c[k + 1])
    && c[|c| - 1] + m[c[|c| - 1]].len == block.limit
  }

  lemma TilingCons(m: Chunks, a: int, d: seq<int>, block: Chunk)
    requires a in m && SameBlock(m[a], block) && Tiling(m, d, a + m[a].len, block)
    ensures Tiling(m, [a] + d, a, block)
    ensures ChainBytes(m, [a] + d) == m[a].len + ChainBytes(m, d)
  {
    assert ([a] + d)[1..] == d;
  }

  /** The chain is contiguous and its lengths add up to what is left of the block. */
  lemma {:induction false} ChainTiles(m: Chunks, a: int, block: Chunk)
    requires ChunksOk(m) && a in m && SameBlock(m[a], block)
    ensures Tiling(m, Chain(m, a), a, block)
    ensures ChainBytes(m, Chain(m, a)) == block.limit - a
    decreases block.limit - a
  {
    assert ChunkOk(m, a);
    var b := a + m[a].len;
    if b < m[a].limit {
      assert ChunkOk(m, b);
      ChainTiles(m, b, block);
      TilingCons(m, a, Chain(m, b), block);
    } else {
      assert Chain(m, a)[1..] == [];
    }
  }

  /** Every chunk of the block that starts at or after a is on the chain from a. */
  lemma {:induction false} ChainHasAll(m: Chunks, a: int, x: int)
    requires ChunksOk(m) && a in m && x in m && SameBlock(m[x], m[a]) && a <= x
    ensures x in Chain(m, a)
    decreases m[a].limit - a
  {
    if x != a {
      assert ChunkOk(m, a) && ChunkOk(m, x) && Placed(m, a, x);
      var b := a + m[a].len;
      assert ChunkOk(m, b);
      ChainHasAll(m, b, x);
      assert x in [a] + Chain(m, b);
    }
  }

  /** Every block is tiled by the split chain that starts at its base. */
  lemma BlocksTiled(s: State, x: int)
    requires Inv(s) && x in s.chunks
    ensures var base := s.chunks[x].base;
      && base in s.chunks
      && x in Chain(s.chunks, base)
      && Tiling(s.chunks, Chain(s.chunks, base), base, s.chunks[x])
      && ChainBytes(s.chunks, Chain(s.chunks, base)) == s.chunks[x].limit - base
      && (s.chunks[x].limit - base) % PAGE == 0
  {
    BaseChunk(s.chunks, x);
    assert ChunkOk(s.chunks, x);
    ChainTiles(s.chunks, s.chunks[x].base, s.chunks[x]);
    ChainHasAll(s.chunks, s.chunks[x].base, x);
  }

  /** When every payload has been freed, every block is one free chunk again. */
  lemma AllFreed(s: State)
    requires Inv(s) && s.live == map[]
    ensures forall a :: a in s.chunks ==> s.chunks[a].free && Whole(s.chunks, a)
  {
    forall a | a in s.chunks ensures s.chunks[a].free && a + s.chunks[a].len == s.chunks[a].limit {
      assert ChunkOk(s.chunks, a);
      assert IsRight(s.chunks, a, a + s.chunks[a].len) || a + s.chunks[a].len == s.chunks[a].limit;
    }
    forall a | a in s.chunks ensures Whole(s.chunks, a) {
      BaseChunk(s.chunks, a);
      assert ChunkOk(s.chunks, a) && Placed(s.chunks, s.chunks[a].base, a);
      assert ChunkOk(s.chunks, a) && ChunkOk(s.chunks, s.chunks[a].base);
    }
  }

  // ---------------------------------------------------------------- conservation

  datatype Measure = FreeBytes | UsedBytes | BlockBytes

  /** A whole block counts once, at its first chunk. */
  function Weight(k: Measure, a: int, c: Chunk): int {
    match k
    case FreeBytes => if c.free then c.len else 0
    case UsedBytes => if c.free then 0 else c.len
    case BlockBytes => if a == c.base then c.limit - c.base else 0
  }

  ghost function Any(keys: set<int>): (a: int)
    requires keys != {}
    ensures a in keys
  {
    assert exists a :: a in keys by { assert (forall a :: a !in keys) ==> keys == {}; }
    var a :| a in keys;
    a
  }

  ghost function Sum(k: Measure, m: Chunks): int {
    if m.Keys == {} then 0
    else
      var a := Any(m.Keys);
      Weight(k, a, m[a]) + Sum(k, m - {a})
  }

  lemma {:induction false} SumWithout(k: Measure, m: Chunks, a: int)
    requires a in m
    ensures Sum(k, m) == Weight(k, a, m[a]) + Sum(k, m - {a})
    decreases |m|
  {
    var b := Any(m.Keys);
    if a != b {
      SumWithout(k, m - {b}, a);
      SumWithout(k, m - {a}, b);
      assert m - {b} - {a} == m - {a} - {b};
    }
  }

  lemma SumUpdate(k: Measure, m: Chunks, a: int, c: Chunk)
    requires a in m
    ensures Sum(k, m[a := c]) == Sum(k, m) - Weight(k, a, m[a]) + Weight(k, a, c)
  {
    SumWithout(k, m, a);
    SumWithout(k, m[a := c], a);
    assert m[a := c] - {a} == m - {a};
  }

  lemma MergeWeights(m: Chunks, a: int, b: int)
    requires ChunksOk(m) && a in m && IsRight(m, a, b) && b in m && a < b
    ensures var n := Merge(m, a, b);
      && Sum(BlockBytes, n) == Sum(BlockBytes, m)
      && Sum(FreeBytes, n) + Sum(UsedBytes, n) == Sum(FreeBytes, m) + Sum(UsedBytes, m)
  {
    assert ChunkOk(m, a) && ChunkOk(m, b);
    var c := m[a].(len := m[a].len + m[b].len);
    SumWithout(BlockBytes, m, b);
    SumWithout(FreeBytes, m, b);
    SumWithout(UsedBytes, m, b);
    SumUpdate(BlockBytes, m - {b}, a, c);
    SumUpdate(FreeBytes, m - {b}, a, c);
    SumUpdate(UsedBytes, m - {b}, a, c);
  }

  /** The bytes on the lists and the bytes in use, headers included, are exactly
      the bytes of the blocks held. */
  lemma {:induction false} BytesConserved(m: Chunks)
    requires ChunksOk(m)
    ensures Sum(FreeBytes, m) + Sum(UsedBytes, m) == Sum(BlockBytes, m)
    decreases |m|
  {
    if a, b :| a in m && b in m && IsRight(m, a, b) {
      MergeShape(m, a, b);
      MergeWeights(m, a, b);
      assert |m - {b}| == |m| - 1;
      assert |Merge(m, a, b)| == |m| - 1;
      BytesConserved(Merge(m, a, b));
    } else {
      forall a | a in m ensures Whole(m, a) {
        assert ChunkOk(m, a) && !IsRight(m, a, a + m[a].len);
        BaseChunk(m, a);
        assert ChunkOk(m, m[a].base) && !IsRight(m, m[a].base, m[a].base + m[m[a].base].len);
        assert Placed(m, m[a].base, a);
      }
      WholeWeights(m);
    }
  }

  lemma {:induction false} WholeWeights(m: Chunks)
    requires forall a :: a in m ==> Whole(m, a)
    ensures Sum(FreeBytes, m) + Sum(UsedBytes, m) == Sum(BlockBytes, m)
    decreases |m|
  {
    if m.Keys != {} {
      var a := Any(m.Keys);
      SumWithout(FreeBytes, m, a);
      SumWithout(UsedBytes, m, a);
      SumWithout(BlockBytes, m, a);
      WholeWeights(m - {a});
    }
  }

  // ---------------------------------------------------------------- the ledger

  /** The blocks held from the page layer: base and number of pages. */
  function Held(m: Chunks): map<int, int> {
    map a | a in m && a == m[a].base :: (m[a].limit - m[a].base) / PAGE
  }

  lemma HeldKept(m: Chunks, n: Chunks)
    requires forall a :: a in m && a == m[a].base ==> a in n && SameBlock(n[a], m[a])
    requires forall a :: a in n && a == n[a].base ==> a in m && SameBlock(n[a], m[a])
    ensures Held(n) == Held(m)
  {
  }

  lemma HeldMark(m: Chunks, a: int, free: bool)
    requires a in m
    ensures Held(m[a := m[a].(free := free)]) == Held(m)
  {
    HeldKept(m, m[a := m[a].(free := free)]);
  }

  lemma HeldMerge(m: Chunks, a: int, b: int)
    requires ChunksOk(m) && a in m && IsRight(m, a, b) && b in m
    ensures Held(Merge(m, a, b)) == Held(m)
  {
    assert ChunkOk(m, a);
    HeldKept(m, Merge(m, a, b));
  }

  lemma HeldDivide(m: Chunks, a: int, n: int)
    requires ChunksOk(m) && a in m && HEADER <= n <= m[a].len - HEADER
    ensures a + n !in m && Held(Divide(m, a, n)) == Held(m)
  {
    DivideShape(m, a, n);
    assert ChunkOk(m, a);
    HeldKept(m, Divide(m, a, n));
  }

  lemma HeldCarve(s: State, a: int, size: int)
    requires InHand(s, a) && 0 <= size
    ensures Held(Carve(s, a, size).chunks) == Held(s.chunks)
  {
    if Splittable(s.chunks[a], size) {
      var n := HEADER + size;
      HeldDivide(s.chunks, a, n);
      HeldMark(Divide(s.chunks, a, n), a + n, true);
    }
  }

  /** malloc asks the page layer for the pages of the request exactly when no
      listed chunk fits, and gives nothing back. */
  lemma MallocHeld(s: State, size: int, page: int)
    requires Inv(s) && MallocOk(s, size, page)
    ensures Held(Malloc(s, size, page).0.chunks) ==
      if Search(s, size).None? && page != 0 then Held(s.chunks)[page := PagesFor(size)] else Held(s.chunks)
  {
    var found := Search(s, size);
    if found.Some? {
      ClaimInHand(s, found.value);
      var t := ClaimCounted(s, SizeClass(size), found.value);
      CarveInv(t, found.value, size);
      HeldMark(s.chunks, found.value, false);
      HeldCarve(t, found.value, size);
    } else if page != 0 {
      PagesForFits(size);
      ObtainInHand(s, page, PagesFor(size));
      var t := Obtain(s, page, PagesFor(size));
      CarveInv(t, page, size);
      HeldCarve(t, page, size);
      ObtainShape(s.chunks, page, PagesFor(size));
      HeldObtain(s, page, PagesFor(size));
    }
  }

  lemma HeldObtain(s: State, page: int, pages: int)
    requires page !in s.chunks
    ensures Held(Obtain(s, page, pages).chunks) == Held(s.chunks)[page := pages]
  {
    assert (page + pages * PAGE - page) / PAGE == pages;
  }

  lemma JoinLeftHeld(s: State, p: int, a: int)
    requires InHand(s, a) && p in s.chunks && LeftFree(s.chunks, p, a)
    requires p < a
    ensures Held(JoinLeft(s, p, a).chunks) == Held(s.chunks)
  {
    var m := s.chunks[p := s.chunks[p].(free := false)];
    RightLeft(s.chunks, p, a);
    SameShape(s.chunks, m);
    HeldMark(s.chunks, p, false);
    HeldMerge(m, p, a);
  }

  lemma JoinRightHeld(s: State, a: int)
    requires InHand(s, a) && RightFree(s.chunks, a)
    ensures Held(JoinRight(s, a).chunks) == Held(s.chunks)
  {
    var b := a + s.chunks[a].len;
    var m := s.chunks[b := s.chunks[b].(free := false)];
    RightLeft(s.chunks, a, b);
    SameShape(s.chunks, m);
    HeldMark(s.chunks, b, false);
    HeldMerge(m, a, b);
  }

  lemma JoinAllHeld(s: State, a: int)
    requires InHand(s, a)
    ensures Held(JoinAll(s, a).0.chunks) == Held(s.chunks)
  {
    var left := FindLeftFree(s.chunks, a);
    var t, b := s, a;
    if left.Some? {
      JoinLeftInHand(s, left.value, a);
      JoinLeftAlone(s, left.value, a);
      JoinLeftHeld(s, left.value, a);
      t, b := JoinLeft(s, left.value, a), left.value;
    }
    if RightFree(t.chunks, b) {
      JoinRightInHand(t, b);
      JoinRightHeld(t, b);
    }
  }

  lemma ReturnHeld(s: State, a: int)
    requires |s.lists| == |s.complete| == CLASSES && a in s.chunks
    ensures var (t, back) := Return(s, a);
      if back.None? then Held(t.chunks) == Held(s.chunks)
      else
        && back.value.base in Held(s.chunks)
        && Held(s.chunks)[back.value.base] == back.value.pages
        && Held(t.chunks) == Held(s.chunks) - {back.value.base}
  {
    HeldMark(s.chunks, a, true);
  }

  /** free gives back at most one block, and then with the base address and the
      number of pages with which it was obtained. */
  lemma FreeHeld(s: State, p: int)
    requires Inv(s) && (p == 0 || p in s.live)
    ensures var (t, back) := Free(s, p);
      if back.None? then Held(t.chunks) == Held(s.chunks)
      else
        && back.value.base in Held(s.chunks)
        && Held(s.chunks)[back.value.base] == back.value.pages
        && Held(t.chunks) == Held(s.chunks) - {back.value.base}
  {
    if p != 0 {
      SurrenderInHand(s, p);
      var u := s.(live := s.live - {p});
      var (t, a) := JoinAll(u, p - HEADER);
      JoinAllHeld(u, p - HEADER);
      ReturnInv(t, a);
      ReturnHeld(t, a);
    }
  }

  // ---------------------------------------------------------------- undo

  /** Freeing what malloc just took from a list restores every chunk, count and
      payload; the chunk moves to the front of its list. */
  lemma FreeUndoesMalloc(s: State, size: int, page: int)
    requires Inv(s) && MallocOk(s, size, page) && Search(s, size).Some?
    ensures var (t, p) := Malloc(s, size, page);
      var i := SizeClass(size);
      var a := Search(s, size).value;
      && p in t.live
      && Free(t, p) == (s.(lists := s.lists[i := [a] + Without(s.lists[i], a)]), None)
  {
    MallocLive(s, size, page);
    var (t, p) := Malloc(s, size, page);
    var i, a := SizeClass(size), Search(s, size).value;
    ClaimInHand(s, a);
    var u := ClaimCounted(s, i, a);
    CarveInv(u, a, size);
    LiveAddress(t, p);
    assert ChunkOk(s.chunks, a);
    UndoCarve(u, a, size);
    UndoReturn(s, u, a);
  }

  /** Freeing what malloc just obtained from the page layer gives the block straight
      back if its class already keeps enough, and otherwise keeps it, whole and
      counted, at the front of its list. */
  lemma FreeUndoesObtain(s: State, size: int, page: int)
    requires Inv(s) && MallocOk(s, size, page) && Search(s, size).None? && page != 0
    ensures var (t, p) := Malloc(s, size, page);
      var n := PagesFor(size);
      var i := SizeClass(n * PAGE - HEADER);
      && p in t.live
      && Free(t, p) ==
           if s.complete[i] == MAX_COMPLETE then (s, Some(Block(page, n)))
           else (State(s.chunks[page := Chunk(page, page + n * PAGE, n * PAGE, true)], s.lists[i := [page] + s.lists[i]],
                       s.complete[i := s.complete[i] + 1], s.live), None)
  {
    hide Free;
    hide Carve;
    hide Search;
    hide Alone;
    hide Inv;
    hide SizeClass;
    hide Return;
    PagesForFits(size);
    MallocLive(s, size, page);
    var (t, p) := Malloc(s, size, page);
    ObtainOk(s, size, page);
    var u := Obtain(s, page, PagesFor(size));
    CarveInv(u, page, size);
    LiveAddress(t, p);
    UndoCarve(u, page, size);
    ReturnObtained(s, page, PagesFor(size));
  }

  lemma ReturnObtained(s: State, page: int, n: int)
    requires |s.lists| == |s.complete| == CLASSES && page !in s.chunks
    ensures var i := SizeClass(n * PAGE - HEADER);
      Return(Obtain(s, page, n), page) ==
        if s.complete[i] == MAX_COMPLETE then (s, Some(Block(page, n)))
        else (State(s.chunks[page := Chunk(page, page + n * PAGE, n * PAGE, true)], s.lists[i := [page] + s.lists[i]],
                    s.complete[i := s.complete[i] + 1], s.live), None)
  {
    var u := Obtain(s, page, n);
    assert u.chunks - {page} == s.chunks;
    assert n * PAGE / PAGE == n;
    assert u.chunks[page := Chunk(page, page + n * PAGE, n * PAGE, true)]
        == s.chunks[page := Chunk(page, page + n * PAGE, n * PAGE, true)];
  }

  /** Surrendered and joined, a carved chunk is what it was before. */
  lemma UndoCarve(u: State, a: int, size: int)
    requires InHand(u, a) && Alone(u.chunks, a) && 0 <= size && HEADER + size <= u.chunks[a].len
    requires Inv(Carve(u, a, size))
    ensures var t := Carve(u, a, size);
      && a + HEADER in t.live
      && Free(t, a + HEADER) == Return(u, a)
  {
    var t := Carve(u, a, size);
    var p := a + HEADER;
    LiveAddress(t, p);
    SurrenderInHand(t, p);
    var v := t.(live := t.live - {p});
    assert v.live == u.live;
    if Splittable(u.chunks[a], size) {
      UndoSplit(u, v, a, size);
    } else {
      assert v == u;
      assert FindLeftFree(v.chunks, a) == None;
      assert !RightFree(v.chunks, a);
      assert JoinAll(v, a) == (u, a);
    }
    ReturnInv(u, a);
  }

  lemma UndoSplit(u: State, v: State, a: int, size: int)
    requires InHand(u, a) && Alone(u.chunks, a) && 0 <= size && Splittable(u.chunks[a], size)
    requires v == Split(u, a, size) && InHand(v, a)
    ensures JoinAll(v, a) == (u, a)
  {
    var n := HEADER + size;
    DivideShape(u.chunks, a, n);
    assert ChunkOk(u.chunks, a);
    forall q | q in v.chunks ensures !LeftFree(v.chunks, q, a) {
      assert q != a + n ==> !LeftFree(u.chunks, q, a);
    }
    assert FindLeftFree(v.chunks, a) == None;
    assert RightFree(v.chunks, a);
    JoinRightInHand(v, a);
    JoinUndoesSplit(u, a, size);
  }

  lemma JoinUndoesSplit(u: State, a: int, size: int)
    requires |u.lists| == CLASSES && a in u.chunks && !u.chunks[a].free && 0 <= size
    requires Splittable(u.chunks[a], size) && a + u.chunks[a].len <= u.chunks[a].limit
    requires a + HEADER + size !in u.chunks
    ensures var v := Split(u, a, size);
      RightFree(v.chunks, a) && 0 <= ClassOf(v.chunks[a + HEADER + size]) < CLASSES && JoinRight(v, a) == u
  {
    var v := Split(u, a, size);
    var b := a + HEADER + size;
    var w := JoinRight(v, a);
    assert w.chunks == u.chunks;
    var j := ClassOf(v.chunks[b]);
    assert v.lists[j][0] == b && v.lists[j][1..] == u.lists[j];
    assert w.lists == u.lists;
  }

  lemma UndoReturn(s: State, u: State, a: int)
    requires |s.lists| == CLASSES == |s.complete| && a in s.chunks && s.chunks[a].free
    requires s.complete[ClassOf(s.chunks[a])] <= MAX_COMPLETE
    requires u == ClaimCounted(s, ClassOf(s.chunks[a]), a)
    ensures var i := ClassOf(s.chunks[a]);
      Return(u, a) == (s.(lists := s.lists[i := [a] + Without(s.lists[i], a)]), None)
  {
    var i := ClassOf(s.chunks[a]);
    var r := Return(u, a).0;
    assert r.chunks == s.chunks;
    assert r.lists == s.lists[i := [a] + Without(s.lists[i], a)];
    assert r.complete == s.complete;
  }

  // ---------------------------------------------------------------- runs

  datatype Op =
    | DoMalloc(size: int, page: int)
    | DoFree(p: int)
    | DoRealloc(p: int, size: int, page: int)

  /** Callers free and resize only NULL and payloads they hold. */
  predicate Allowed(s: State, op: Op) {
    match op
    case DoMalloc(size, page) => MallocOk(s, size, page)
    case DoFree(p) => p == 0 || p in s.live
    case DoRealloc(p, size, page) => (p == 0 || p in s.live) && MallocOk(s, size, page)
  }

  ghost function Step(s: State, op: Op): (t: State)
    requires Inv(s) && Allowed(s, op)
    ensures Inv(t)
  {
    match op
    case DoMalloc(size, page) => Malloc(s, size, page).0
    case DoFree(p) => Free(s, p).0
    case DoRealloc(p, size, page) => Realloc(s, p, size, page).0
  }

  ghost predicate AllowedRun(s: State, ops: seq<Op>)
    requires Inv(s)
    decreases |ops|
  {
    ops == [] || (Allowed(s, ops[0]) && AllowedRun(Step(s, ops[0]), ops[1..]))
  }

  /** Inv over a run: its postcondition is the invariant of every reachable heap. */
  ghost function Run(s: State, ops: seq<Op>): (t: State)
    requires Inv(s) && AllowedRun(s, ops)
    ensures Inv(t)
    decreases |ops|
  {
    if ops == [] then s else Run(Step(s, ops[0]), ops[1..])
  }

  const Empty := State(map[], seq(CLASSES, _ => []), seq(CLASSES, _ => 0), map[])

  lemma EmptyInv()
    ensures Inv(Empty)
  {
    forall i | 0 <= i < CLASSES ensures CompleteSet(Empty.chunks, i) == {} {
    }
    assert CountsOk(Empty.chunks, Empty.complete);
  }

  // ---------------------------------------------------------------- realloc without memory

  /** realloc stores through NULL whenever the list of the new size is empty, the
      page layer has nothing, and the payload has a byte. */
  lemma NullStoreWhen(s: State, p: int, size: int)
    requires Inv(s) && p in s.live && s.live[p] > 0 && size > 0 && MallocOk(s, size, 0)
    requires s.lists[SizeClass(size)] == []
    ensures Realloc(s, p, size, 0) == (s, NullStore)
  {
    hide Inv;
    ReallocLive(s, p, size, 0);
  }

  lemma ClassAbove(n: nat, k: nat)
    requires 8 <= k < CLASSES && Pow2(k) <= n
    ensures SizeClass(n) >= k
  {
    Pow2Mono(8, k);
    assert Pow2(8) == 256;
    Log2Bounds(n);
    if Log2(n) < k {
      Pow2Mono(Log2(n) + 1, k);
    }
  }

  lemma ClassBelow(n: nat, k: nat)
    requires 8 < k < CLASSES && n < Pow2(k)
    ensures SizeClass(n) < k
  {
    if n >= 256 {
      Log2Bounds(n);
      if Log2(n) >= k {
        Pow2Mono(k, Log2(n));
      }
    }
  }

  /** Such a heap is reached: one small payload from one block, and then realloc to
      more than the block has left, with no further pages. */
  lemma NullStoreReached()
    ensures Inv(Empty) && AllowedRun(Empty, [DoMalloc(1, PAGE)])
    ensures var s := Run(Empty, [DoMalloc(1, PAGE)]);
      && Allowed(s, DoRealloc(PAGE + HEADER, 70000, 0))
      && Realloc(s, PAGE + HEADER, 70000, 0) == (s, NullStore)
  {
    EmptyInv();
    assert MallocOk(Empty, 1, PAGE);
    assert Search(Empty, 1) == None;
    var ops := [DoMalloc(1, PAGE)];
    assert AllowedRun(Step(Empty, ops[0]), ops[1..]);
    var s := Malloc(Empty, 1, PAGE).0;
    assert Run(Empty, ops) == s;
    MallocLive(Empty, 1, PAGE);
    assert PagesFor(1) == MIN_PAGES;
    var u := Obtain(Empty, PAGE, MIN_PAGES);
    assert Splittable(u.chunks[PAGE], 1);
    assert s == Split(u, PAGE, 1).(live := s.live);
    var rest := MIN_PAGES * PAGE - HEADER - 1;
    assert s.lists == Empty.lists[SizeClass(rest - HEADER) := [PAGE + HEADER + 1] + Empty.lists[SizeClass(rest - HEADER)]];
    assert Pow2(8) == 256;
    assert Pow2(16) == 65536;
    ClassBelow(rest - HEADER, 16);
    ClassAbove(70000, 16);
    NullStoreWhen(s, PAGE + HEADER, 70000);
  }

  predicate Touches(op: Op, p: int) {
    match op
    case DoMalloc(_, _) => false
    case DoFree(q) => q == p
    case DoRealloc(q, _, _) => q == p
  }

  lemma StepKeepsOthers(s: State, op: Op, p: int)
    requires Inv(s) && Allowed(s, op) && p in s.live && !Touches(op, p)
    ensures p in Step(s, op).live && Step(s, op).live[p] == s.live[p]
  {
    hide Inv, Malloc, Free, Search, LiveOk;
    LiveAddress(s, p);
    match op
    case DoMalloc(size, page) =>
      MallocLive(s, size, page);
    case DoFree(q) =>
      FreeLive(s, q);
    case DoRealloc(q, size, page) =>
      FreeLive(s, q);
      MallocLive(s, size, page);
      if size != 0 && q != 0 {
        FreeLive(Malloc(s, size, page).0, q);
      }
  }

  /** A payload that no call of a run frees or resizes is neither moved nor
      resized, whatever the other calls are. */
  lemma {:induction false} RunKeepsOthers(s: State, ops: seq<Op>, p: int)
    requires Inv(s) && AllowedRun(s, ops) && p in s.live
    requires forall k :: 0 <= k < |ops| ==> !Touches(ops[k], p)
    ensures p in Run(s, ops).live && Run(s, ops).live[p] == s.live[p]
    decreases |ops|
  {
    if ops != [] {
      StepKeepsOthers(s, ops[0], p);
      RunKeepsOthers(Step(s, ops[0]), ops[1..], p);
    }
  }

  // ---------------------------------------------------------------- page traffic

  ghost function Pages(h: map<int, int>): int {
    if h.Keys == {} then 0
    else
      var a := Any(h.Keys);
      h[a] + Pages(h - {a})
  }

  lemma {:induction false} PagesWithout(h: map<int, int>, a: int)
    requires a in h
    ensures Pages(h) == h[a] + Pages(h - {a})
    decreases |h|
  {
    var b := Any(h.Keys);
    if a != b {
      PagesWithout(h - {b}, a);
      PagesWithout(h - {a}, b);
      assert h - {b} - {a} == h - {a} - {b};
    }
  }

  lemma HeldWithout(m: Chunks, a: int)
    requires a in m
    ensures Held(m - {a}) == if a == m[a].base then Held(m) - {a} else Held(m)
  {
  }

  lemma HeldPages(m: Chunks, a: int)
    requires a in m
    ensures Pages(Held(m)) == (if a == m[a].base then (m[a].limit - m[a].base) / PAGE else 0) + Pages(Held(m - {a}))
  {
    HeldWithout(m, a);
    if a == m[a].base {
      PagesWithout(Held(m), a);
    }
  }

  lemma BlockWeight(a: int, c: Chunk)
    requires BlockOk(c.base, c.limit)
    ensures Weight(BlockBytes, a, c) == PAGE * (if a == c.base then (c.limit - c.base) / PAGE else 0)
  {
  }

  lemma {:induction false} BlockBytesArePages(m: Chunks)
    requires forall a {:trigger BlockOk(m[a].base, m[a].limit)} :: a in m ==> BlockOk(m[a].base, m[a].limit)
    ensures Sum(BlockBytes, m) == PAGE * Pages(Held(m))
    decreases |m|
  {
    if m.Keys == {} {
      assert Held(m).Keys == {};
    } else {
      hide Weight;
      hide Held;
      hide Pages;
      hide BlockOk;
      var a := Any(m.Keys);
      forall b | b in m - {a} ensures BlockOk((m - {a})[b].base, (m - {a})[b].limit) {
        assert BlockOk(m[b].base, m[b].limit);
      }
      BlockBytesArePages(m - {a});
      HeldPages(m, a);
      assert BlockOk(m[a].base, m[a].limit);
      BlockWeight(a, m[a]);
    }
  }

  /** Pages malloc obtains. */
  ghost function MallocPages(s: State, size: int, page: int): int
    requires Inv(s) && MallocOk(s, size, page)
  {
    if Search(s, size).None? && page != 0 then PagesFor(size) else 0
  }

  /** Pages free returns. */
  ghost function FreePages(s: State, p: int): int
    requires Inv(s) && (p == 0 || p in s.live)
  {
    var back := Free(s, p).1;
    if back.Some? then back.value.pages else 0
  }

  lemma MallocPagesHeld(s: State, size: int, page: int)
    requires Inv(s) && MallocOk(s, size, page)
    ensures Pages(Held(Malloc(s, size, page).0.chunks)) == Pages(Held(s.chunks)) + MallocPages(s, size, page)
  {
    hide Fresh;
    hide Search;
    hide Malloc;
    MallocHeld(s, size, page);
    if Search(s, size).None? && page != 0 {
      PagesForFits(size);
      ObtainShape(s.chunks, page, PagesFor(size));
      var h := Held(s.chunks);
      PagesWithout(h[page := PagesFor(size)], page);
      assert h[page := PagesFor(size)] - {page} == h;
    }
  }

  lemma FreePagesHeld(s: State, p: int)
    requires Inv(s) && (p == 0 || p in s.live)
    ensures Pages(Held(Free(s, p).0.chunks)) == Pages(Held(s.chunks)) - FreePages(s, p)
  {
    FreeHeld(s, p);
    var back := Free(s, p).1;
    if back.Some? {
      PagesWithout(Held(s.chunks), back.value.base);
    }
  }

  /** Pages obtained less pages returned by one call. */
  ghost function NetPages(s: State, op: Op): int
    requires Inv(s) && Allowed(s, op)
  {
    match op
    case DoMalloc(size, page) => MallocPages(s, size, page)
    case DoFree(p) => -FreePages(s, p)
    case DoRealloc(p, size, page) =>
      if size == 0 then -FreePages(s, p)
      else if p == 0 || Realloc(s, p, size, page).1 == NullStore then MallocPages(s, size, page)
      else
        MallocLive(s, size, page);
        MallocPages(s, size, page) - FreePages(Malloc(s, size, page).0, p)
  }

  lemma StepPages(s: State, op: Op)
    requires Inv(s) && Allowed(s, op)
    ensures Pages(Held(Step(s, op).chunks)) == Pages(Held(s.chunks)) + NetPages(s, op)
  {
    match op
    case DoMalloc(size, page) =>
      MallocPagesHeld(s, size, page);
    case DoFree(p) =>
      FreePagesHeld(s, p);
    case DoRealloc(p, size, page) =>
      if size == 0 {
        FreePagesHeld(s, p);
      } else {
        MallocPagesHeld(s, size, page);
        MallocLive(s, size, page);
        if p != 0 {
          FreePagesHeld(Malloc(s, size, page).0, p);
        }
      }
  }

  ghost function RunNetPages(s: State, ops: seq<Op>): int
    requires Inv(s) && AllowedRun(s, ops)
    decreases |ops|
  {
    if ops == [] then 0 else NetPages(s, ops[0]) + RunNetPages(Step(s, ops[0]), ops[1..])
  }

  lemma {:induction false} RunPages(s: State, ops: seq<Op>)
    requires Inv(s) && AllowedRun(s, ops)
    ensures Pages(Held(Run(s, ops).chunks)) == Pages(Held(s.chunks)) + RunNetPages(s, ops)
    decreases |ops|
  {
    if ops != [] {
      StepPages(s, ops[0]);
      RunPages(Step(s, ops[0]), ops[1..]);
    }
  }

  /** Over every run from an empty heap, the bytes free and the bytes in use make
      up exactly the pages obtained less the pages returned. */
  lemma RunConservesBytes(ops: seq<Op>)
    requires Inv(Empty) && AllowedRun(Empty, ops)
    ensures var m := Run(Empty, ops).chunks;
      Sum(FreeBytes, m) + Sum(UsedBytes, m) == PAGE * RunNetPages(Empty, ops)
  {
    var m := Run(Empty, ops).chunks;
    BytesConserved(m);
    forall a | a in m ensures BlockOk(m[a].base, m[a].limit) {
      assert ChunkOk(m, a);
    }
    BlockBytesArePages(m);
    RunPages(Empty, ops);
    assert Held(Empty.chunks) == map[];
  }

  // ---------------------------------------------------------------- bounds

  predicate Below(m: Chunks, top: int) {
    forall a :: a in m ==> m[a].limit <= top
  }

  lemma CarveBelow(s: State, a: int, size: int, top: int)
    requires InHand(s, a) && 0 <= size && Below(s.chunks, top)
    ensures Below(Carve(s, a, size).chunks, top)
  {
  }

  lemma MallocBelow(s: State, size: int, page: int, top: int)
    requires Inv(s) && MallocOk(s, size, page) && Below(s.chunks, top)
    requires page != 0 ==> page + PagesFor(size) * PAGE <= top
    ensures Below(Malloc(s, size, page).0.chunks, top)
  {
    var found := Search(s, size);
    if found.Some? {
      ClaimInHand(s, found.value);
      var t := ClaimCounted(s, SizeClass(size), found.value);
      CarveInv(t, found.value, size);
      CarveBelow(t, found.value, size, top);
    } else if page != 0 {
      PagesForFits(size);
      ObtainInHand(s, page, PagesFor(size));
      var t := Obtain(s, page, PagesFor(size));
      CarveInv(t, page, size);
      CarveBelow(t, page, size, top);
    }
  }

  lemma FreeBelow(s: State, p: int, top: int)
    requires Inv(s) && (p == 0 || p in s.live) && Below(s.chunks, top)
    ensures Below(Free(s, p).0.chunks, top)
  {
    if p != 0 {
      SurrenderInHand(s, p);
      JoinAllBelow(s.(live := s.live - {p}), p - HEADER, top);
      var (t, a) := JoinAll(s.(live := s.live - {p}), p - HEADER);
      ReturnInv(t, a);
    }
  }

  lemma JoinAllBelow(s: State, a: int, top: int)
    requires InHand(s, a) && Below(s.chunks, top)
    ensures Below(JoinAll(s, a).0.chunks, top)
  {
    var left := FindLeftFree(s.chunks, a);
    var t, b := s, a;
    if left.Some? {
      JoinLeftInHand(s, left.value, a);
      JoinLeftAlone(s, left.value, a);
      t, b := JoinLeft(s, left.value, a), left.value;
      assert Below(t.chunks, top);
    }
    if RightFree(t.chunks, b) {
      JoinRightInHand(t, b);
      assert Below(JoinRight(t, b).chunks, top);
    }
  }

  lemma LiveSize(s: State, p: int)
    requires Inv(s) && p in s.live
    ensures 0 <= s.live[p] < MAX_BLOCK
  {
    LiveAddress(s, p);
    assert ChunkOk(s.chunks, p - HEADER);
  }

  /** The ranges that realloc copies between lie in memory and do not meet. */
  lemma CopyOk(s: State, q: int, p: int, n: int, top: int)
    requires Inv(s) && Below(s.chunks, top) && p in s.live && 0 <= n <= s.live[p]
    requires if q == 0 then n == 0 else q in s.live && q != p && n <= s.live[q]
    ensures 0 <= q && q + n <= top && 0 <= p && p + n <= top && Apart(q, n, p, n)
  {
    LiveAddress(s, p);
    PayloadsApart(s, p, p);
    if q != 0 {
      LiveAddress(s, q);
      PayloadsApart(s, q, p);
    }
  }
}
