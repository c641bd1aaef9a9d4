/** The heap allocator of alloc.c as a state machine on values.

    A heap is a finite map from header addresses to chunks, one free list of
    header addresses per size class, the per-class count of complete pages, and
    the payloads the callers currently hold.  The operations below are the
    steps that malloc and free are made of; Alloc.dfy proves that the pointer
    code performs exactly these steps, AllocProofs.dfy what they keep. */
module AllocSpec {

  const HEADER := 48         // sizeof (struct boundary_tag)
  const PAGE := 4096         // l_pageSize
  const MIN_PAGES := 16      // l_pageCount
  const MAX_COMPLETE := 5    // MAXCOMPLETE
  const CLASSES := 32        // MAXEXP
  const MIN_CLASS := 8       // MINEXP
  const MAX_BLOCK := 0x8000_0000

  datatype Option<T> = None | Some(value: T)

  /** The memory governed by one boundary tag: header and payload together fill
      [a, a + len), where a is the key of the chunk.  [base, limit) is the page
      block it was carved from.  `free` says whether it is on a free list. */
  datatype Chunk = Chunk(base: int, limit: int, len: int, free: bool)

  type Chunks = map<int, Chunk>

  /** `live` maps the payload address a caller holds to the size it asked for. */
  datatype State = State(chunks: Chunks, lists: seq<seq<int>>, complete: seq<int>, live: map<int, int>)

  /** A block handed back to the page layer. */
  datatype Block = Block(base: int, pages: int)

  // ---------------------------------------------------------------- size classes

  function Pow2(n: nat): (p: nat)
    ensures p >= 1
  {
    if n == 0 then 1 else 2 * Pow2(n - 1)
  }

  function Log2(n: nat): nat
    requires n >= 1
  {
    if n == 1 then 0 else 1 + Log2(n / 2)
  }

  lemma Log2Bounds(n: nat)
    requires n >= 1
    ensures Pow2(Log2(n)) <= n < Pow2(Log2(n) + 1)
  {
    if n > 1 {
      Log2Bounds(n / 2);
    }
  }

  lemma Pow2Mono(a: nat, b: nat)
    requires a <= b
    ensures Pow2(a) <= Pow2(b)
    decreases b
  {
    if a < b {
      Pow2Mono(a, b - 1);
    }
  }

  lemma Log2AtLeast(n: nat)
    requires n >= 256
    ensures Log2(n) >= 8
  {
    Log2Bounds(n);
    assert Pow2(8) == 256;
    if Log2(n) < 8 {
      Pow2Mono(Log2(n) + 1, 8);
    }
  }

  /** The list on which a chunk with n payload bytes is kept. */
  function SizeClass(n: int): (i: int)
    ensures MIN_CLASS <= i < CLASSES
  {
    if n < 256 then MIN_CLASS
    else
      Log2AtLeast(n);
      if Log2(n) < CLASSES then Log2(n) else CLASSES - 1
  }

  function ClassOf(c: Chunk): (i: int)
    ensures MIN_CLASS <= i < CLASSES
  {
    SizeClass(c.len - HEADER)
  }

  /** Pages requested for a payload of `size` bytes. */
  function PagesFor(size: int): int {
    var pages := (size + HEADER + PAGE - 1) / PAGE;
    if pages < MIN_PAGES then MIN_PAGES else pages
  }

  // ---------------------------------------------------------------- sequences

  predicate NoDup(s: seq<int>) {
    forall j, k :: 0 <= j < k < |s| ==> s[j] != s[k]
  }

  /** s without the first occurrence of a. */
  function Without(s: seq<int>, a: int): seq<int> {
    if s == [] then [] else if s[0] == a then s[1..] else [s[0]] + Without(s[1..], a)
  }

  // ---------------------------------------------------------------- well-formed heaps

  /** A block is a number of whole pages, at least the minimum. */
  predicate BlockOk(base: int, limit: int) {
    (limit - base) % PAGE == 0 && MIN_PAGES * PAGE <= limit - base < MAX_BLOCK
  }

  predicate ChunkOk(m: Chunks, a: int)
    requires a in m
  {
    var c := m[a];
    && 0 < c.base <= a
    && HEADER <= c.len
    && a + c.len <= c.limit
    && BlockOk(c.base, c.limit)
    && c.base in m
    && (a + c.len < c.limit ==>
          && a + c.len in m
          && m[a + c.len].base == c.base
          && m[a + c.len].limit == c.limit)
  }

  predicate SameBlock(c: Chunk, d: Chunk) {
    c.base == d.base && c.limit == d.limit
  }

  predicate Placed(m: Chunks, a: int, b: int)
    requires a in m && b in m
  {
    && (a < b ==> a + m[a].len <= b)
    && (SameBlock(m[a], m[b]) || m[a].limit <= m[b].base || m[b].limit <= m[a].base)
  }

  /** Every block is tiled by its chunks: each chunk ends at its block's end or
      where another chunk of the block starts, and no two overlap. */
  predicate ChunksOk(m: Chunks) {
    && (forall a {:trigger ChunkOk(m, a)} :: a in m ==> ChunkOk(m, a))
    && (forall a, b {:trigger Placed(m, a, b)} :: a in m && b in m ==> Placed(m, a, b))
  }

  predicate IsRight(m: Chunks, a: int, b: int)
    requires a in m
  {
    a + m[a].len < m[a].limit && b == a + m[a].len
  }

  predicate Coalesced(m: Chunks) {
    forall a, b {:trigger IsRight(m, a, b)} :: a in m && b in m && m[a].free && IsRight(m, a, b) ==> !m[b].free
  }

  predicate Listed(m: Chunks, ls: seq<seq<int>>, i: int, k: int)
    requires |ls| == CLASSES && 0 <= i < CLASSES && 0 <= k < |ls[i]|
  {
    var a := ls[i][k];
    a in m && m[a].free && ClassOf(m[a]) == i
  }

  predicate InItsList(m: Chunks, ls: seq<seq<int>>, a: int)
    requires a in m
  {
    |ls| == CLASSES && a in ls[ClassOf(m[a])]
  }

  /** Each list holds, once each, exactly the free chunks of its class. */
  predicate ListsOk(m: Chunks, ls: seq<seq<int>>) {
    && |ls| == CLASSES
    && (forall i, k :: 0 <= i < CLASSES && 0 <= k < |ls[i]| ==> Listed(m, ls, i, k))
    && (forall i :: 0 <= i < CLASSES ==> NoDup(ls[i]))
    && (forall a :: a in m && m[a].free ==> InItsList(m, ls, a))
  }

  /** A chunk that is a whole block: its tag has no split neighbours. */
  predicate Whole(m: Chunks, a: int)
    requires a in m
  {
    a == m[a].base && a + m[a].len == m[a].limit
  }

  function CompleteSet(m: Chunks, i: int): set<int> {
    set a | a in m && m[a].free && Whole(m, a) && ClassOf(m[a]) == i
  }

  predicate CountsOk(m: Chunks, complete: seq<int>) {
    && |complete| == CLASSES
    && (forall i :: 0 <= i < CLASSES ==>
          complete[i] == |CompleteSet(m, i)| && complete[i] <= MAX_COMPLETE)
  }

  /** A payload held by a caller lies inside a chunk that is not free. */
  predicate LiveOk(m: Chunks, live: map<int, int>, p: int)
    requires p in live
  {
    var a := p - HEADER;
    a in m && !m[a].free && 0 <= live[p] && HEADER + live[p] <= m[a].len
  }

  /** Everything but the ownership of chunk a, which is off the lists and not
      yet (or no longer) a caller's: the state in the middle of malloc or free. */
  predicate InHand(s: State, a: int) {
    && ChunksOk(s.chunks)
    && ListsOk(s.chunks, s.lists)
    && CountsOk(s.chunks, s.complete)
    && Coalesced(s.chunks)
    && a in s.chunks && !s.chunks[a].free && a + HEADER !in s.live
    && (forall b :: b in s.chunks && !s.chunks[b].free && b != a ==> b + HEADER in s.live)
    && (forall p {:trigger LiveOk(s.chunks, s.live, p)} :: p in s.live ==> LiveOk(s.chunks, s.live, p))
  }

  /** The state between calls. */
  predicate Inv(s: State) {
    && ChunksOk(s.chunks)
    && ListsOk(s.chunks, s.lists)
    && CountsOk(s.chunks, s.complete)
    && Coalesced(s.chunks)
    && (forall b :: b in s.chunks && !s.chunks[b].free ==> b + HEADER in s.live)
    && (forall p {:trigger LiveOk(s.chunks, s.live, p)} :: p in s.live ==> LiveOk(s.chunks, s.live, p))
  }

  predicate RightFree(m: Chunks, a: int)
    requires a in m
  {
    a + m[a].len < m[a].limit && a + m[a].len in m && m[a + m[a].len].free
  }

  predicate IsLeft(m: Chunks, p: int, a: int)
    requires a in m
  {
    p in m && p + m[p].len == a && SameBlock(m[p], m[a])
  }

  predicate LeftFree(m: Chunks, p: int, a: int)
    requires a in m
  {
    IsLeft(m, p, a) && m[p].free
  }

  ghost predicate Alone(m: Chunks, a: int)
    requires a in m
  {
    !RightFree(m, a) && forall p :: p in m ==> !LeftFree(m, p, a)
  }

  // ---------------------------------------------------------------- steps

  /** The page layer hands out a block: one chunk, in the hand of the caller. */
  function Obtain(s: State, page: int, pages: int): State {
    s.(chunks := s.chunks[page := Chunk(page, page + pages * PAGE, pages * PAGE, false)])
  }

  /** Take chunk a off list i. */
  function Claim(s: State, i: int, a: int): State
    requires 0 <= i < |s.lists| && a in s.chunks
  {
    s.(chunks := s.chunks[a := s.chunks[a].(free := false)],
       lists := s.lists[i := Without(s.lists[i], a)])
  }

  /** Take chunk a off list i in malloc, keeping the count of complete pages. */
  function ClaimCounted(s: State, i: int, a: int): State
    requires 0 <= i < |s.lists| && a in s.chunks && |s.complete| == |s.lists|
  {
    var t := Claim(s, i, a);
    if Whole(s.chunks, a) then t.(complete := s.complete[i := s.complete[i] - 1]) else t
  }

  /** Put chunk a at the head of list i. */
  function Put(s: State, i: int, a: int): State
    requires 0 <= i < |s.lists| && a in s.chunks
  {
    s.(chunks := s.chunks[a := s.chunks[a].(free := true)],
       lists := s.lists[i := [a] + s.lists[i]])
  }

  /** Chunk a swallows chunk b. */
  function Merge(m: Chunks, a: int, b: int): Chunks
    requires a in m && b in m
  {
    (m - {b})[a := m[a].(len := m[a].len + m[b].len)]
  }

  /** Cut chunk a after n bytes. */
  function Divide(m: Chunks, a: int, n: int): Chunks
    requires a in m
  {
    m[a := m[a].(len := n)][a + n := Chunk(m[a].base, m[a].limit, m[a].len - n, false)]
  }

  predicate Splittable(c: Chunk, size: int) {
    c.len - size - 2 * HEADER >= 256
  }

  /** Hand a payload of `size` bytes in chunk a to the caller; what is left over
      becomes a free chunk when it can hold 256 bytes. */
  function Carve(s: State, a: int, size: int): State
    requires |s.lists| == CLASSES && a in s.chunks && 0 <= size
  {
    var t := if Splittable(s.chunks[a], size) then Split(s, a, size) else s;
    t.(live := s.live[a + HEADER := size])
  }

  function Split(s: State, a: int, size: int): State
    requires |s.lists| == CLASSES && a in s.chunks && 0 <= size
  {
    var n := HEADER + size;
    var m := Divide(s.chunks, a, n);
    Put(s.(chunks := m), ClassOf(m[a + n]), a + n)
  }

  /** A whole block leaves the heap. */
  function Release(s: State, a: int): State {
    s.(chunks := s.chunks - {a})
  }

  // ---------------------------------------------------------------- malloc and free

  predicate Fits(m: Chunks, a: int, size: int)
    requires a in m
  {
    m[a].len - HEADER >= size + HEADER
  }

  /** The first chunk of a list with room for `size` bytes and a second header. */
  function FirstFit(m: Chunks, list: seq<int>, size: int): (r: Option<int>)
    requires forall k :: 0 <= k < |list| ==> list[k] in m
    ensures r.Some? ==> r.value in list && r.value in m && Fits(m, r.value, size)
    ensures r.None? ==> forall k :: 0 <= k < |list| ==> !Fits(m, list[k], size)
  {
    if list == [] then None
    else if Fits(m, list[0], size) then Some(list[0])
    else FirstFit(m, list[1..], size)
  }

  /** What the page layer promises: a range that meets no block still held. */
  predicate Fresh(m: Chunks, page: int, pages: int) {
    0 < page && forall a :: a in m ==> m[a].limit <= page || page + pages * PAGE <= m[a].base
  }

  /** Requests that 32-bit tags can describe, with the page layer's answer
      (0 when it has none). */
  predicate MallocOk(s: State, size: int, page: int) {
    && 0 <= size
    && PagesFor(size) * PAGE < MAX_BLOCK
    && (page != 0 ==> Fresh(s.chunks, page, PagesFor(size)))
  }

  /** Join chunk a, in hand, with a free left neighbour p. */
  function JoinLeft(s: State, p: int, a: int): State
    requires |s.lists| == CLASSES && p in s.chunks && a in s.chunks && p != a
  {
    var t := Claim(s, ClassOf(s.chunks[p]), p);
    t.(chunks := Merge(t.chunks, p, a))
  }

  /** Join chunk a, in hand, with its free right neighbour. */
  function JoinRight(s: State, a: int): State
    requires |s.lists| == CLASSES && a in s.chunks && RightFree(s.chunks, a)
  {
    var b := a + s.chunks[a].len;
    var t := Claim(s, ClassOf(s.chunks[b]), b);
    t.(chunks := Merge(t.chunks, a, b))
  }

  ghost function FindLeftFree(m: Chunks, a: int): (r: Option<int>)
    requires a in m
    ensures r.Some? ==> LeftFree(m, r.value, a)
    ensures r.None? ==> forall p :: p in m ==> !LeftFree(m, p, a)
  {
    if exists p :: p in m && LeftFree(m, p, a) then
      var p :| p in m && LeftFree(m, p, a);
      Some(p)
    else
      None
  }

  /** Return chunk a, in hand and with no free neighbour, to the lists or, when
      it is a whole block and its class already keeps enough of those, to the
      page layer. */
  function Return(s: State, a: int): (State, Option<Block>)
    requires |s.lists| == |s.complete| == CLASSES && a in s.chunks
  {
    var i := ClassOf(s.chunks[a]);
    if !Whole(s.chunks, a) then
      (Put(s, i, a), None)
    else if s.complete[i] == MAX_COMPLETE then
      (Release(s, a), Some(Block(a, s.chunks[a].len / PAGE)))
    else
      (Put(s.(complete := s.complete[i := s.complete[i] + 1]), i, a), None)
  }
}
