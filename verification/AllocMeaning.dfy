/** What malloc, free and realloc do, said once more in the numbers of alloc.c and
    without the steps that AllocSpec builds them from. */
module AllocMeaning {
  import opened AllocSpec
  import opened AllocProofs
  import opened AllocRuns

  // ---------------------------------------------------------------- numbers

  /** A list keeps the payload sizes from 2^i to below 2^(i+1); list 8 the smaller too. */
  lemma ClassMeans(n: nat)
    requires n < 0x8000_0000
    ensures n < 256 ==> SizeClass(n) == 8
    ensures n >= 256 ==> Pow2(SizeClass(n)) <= n < Pow2(SizeClass(n) + 1)
  {
    assert Pow2(8) == 256;
    assert Pow2(16) == 0x1_0000;
    assert Pow2(24) == 0x100_0000;
    assert Pow2(31) == 0x8000_0000;
    if n >= 256 {
      Log2Bounds(n);
      if Log2(n) >= 31 {
        Pow2Mono(31, Log2(n));
      }
    }
  }

  /** The least number of pages, from 16 up, that holds the header and the payload. */
  lemma PagesMean(size: nat)
    ensures PagesFor(size) >= 16 && size + 48 <= 4096 * PagesFor(size)
    ensures PagesFor(size) > 16 ==> 4096 * (PagesFor(size) - 1) < size + 48
  {
  }

  /** Between calls: blocks of whole pages and at least 16, room for a header of 48
      bytes in every chunk, at most five whole free blocks on a list, and the payloads
      behind the headers of chunks that hold them. */
  lemma HeapNumbers(s: State)
    requires Inv(s)
    ensures forall a {:trigger s.chunks[a]} :: a in s.chunks ==>
              var c := s.chunks[a];
              && (c.limit - c.base) % 4096 == 0 && c.limit - c.base >= 16 * 4096
              && c.base <= a && 48 <= c.len && a + c.len <= c.limit
    ensures |s.lists| == |s.complete| == 32 && forall i :: 0 <= i < 32 ==> s.complete[i] <= 5
    ensures forall p {:trigger s.live[p]} :: p in s.live ==>
              p - 48 in s.chunks && !s.chunks[p - 48].free && 48 + s.live[p] <= s.chunks[p - 48].len
  {
    forall a | a in s.chunks
      ensures var c := s.chunks[a];
              && (c.limit - c.base) % 4096 == 0 && c.limit - c.base >= 16 * 4096
              && c.base <= a && 48 <= c.len && a + c.len <= c.limit
    {
      assert ChunkOk(s.chunks, a);
    }
    forall p | p in s.live
      ensures p - 48 in s.chunks && !s.chunks[p - 48].free && 48 + s.live[p] <= s.chunks[p - 48].len
    {
      assert LiveOk(s.chunks, s.live, p);
    }
  }

  // ---------------------------------------------------------------- malloc

  lemma {:induction false} FirstFitIs(m: Chunks, list: seq<int>, size: int)
    requires forall k :: 0 <= k < |list| ==> list[k] in m
    ensures FirstFit(m, list, size) == None ==> forall k :: 0 <= k < |list| ==> m[list[k]].len < size + 96
    ensures FirstFit(m, list, size) != None ==>
              exists k :: 0 <= k < |list| && FirstFit(m, list, size) == Some(list[k]) && m[list[k]].len >= size + 96
                          && forall j :: 0 <= j < k ==> m[list[j]].len < size + 96
    decreases |list|
  {
    if list != [] && m[list[0]].len < size + 96 {
      FirstFitIs(m, list[1..], size);
      if FirstFit(m, list, size) != None {
        var k :| 0 <= k < |list[1..]| && FirstFit(m, list[1..], size) == Some(list[1..][k]) && m[list[1..][k]].len >= size + 96
                 && forall j :: 0 <= j < k ==> m[list[1..][j]].len < size + 96;
        assert list[k + 1] == list[1..][k];
        forall j | 0 <= j < k + 1 ensures m[list[j]].len < size + 96 {
          if j > 0 { assert list[j] == list[1..][j - 1]; }
        }
      }
    } else if list != [] {
      assert FirstFit(m, list, size) == Some(list[0]);
    }
  }

  /** malloc fails if and only if the page layer does and no chunk on the list of the
      size has room for the payload and two headers; it takes the first that has. */
  lemma MallocChooses(s: State, size: int, page: int)
    requires Inv(s) && MallocOk(s, size, page)
    ensures var list := s.lists[SizeClass(size)];
      var p := Malloc(s, size, page).1;
      && (forall k :: 0 <= k < |list| ==> list[k] in s.chunks)
      && (p == 0 <==> page == 0 && forall k :: 0 <= k < |list| ==> s.chunks[list[k]].len < size + 96)
      && (forall k :: 0 <= k < |list| && s.chunks[list[k]].len >= size + 96
                      && (forall j :: 0 <= j < k ==> s.chunks[list[j]].len < size + 96) ==>
            p == list[k] + 48)
      && ((forall k :: 0 <= k < |list| ==> s.chunks[list[k]].len < size + 96) && page != 0 ==> p == page + 48)
  {
    var i := SizeClass(size);
    var list := s.lists[i];
    ListMembers(s, i);
    FirstFitIs(s.chunks, list, size);
    MallocLive(s, size, page);
    if Search(s, size).Some? {
      var k :| 0 <= k < |list| && FirstFit(s.chunks, list, size) == Some(list[k]) && s.chunks[list[k]].len >= size + 96
               && forall j :: 0 <= j < k ==> s.chunks[list[j]].len < size + 96;
      assert Malloc(s, size, page).1 == list[k] + 48;
    }
  }

  /** The chunks after `size` bytes of chunk a, which is c, are handed out: the rest is
      a free chunk of its own if it has room for a header and 256 bytes. */
  function HandedOut(m: Chunks, a: int, c: Chunk, size: int): Chunks {
    if c.len - size - 96 >= 256 then
      m[a := Chunk(c.base, c.limit, 48 + size, false)][a + 48 + size := Chunk(c.base, c.limit, c.len - 48 - size, true)]
    else m[a := Chunk(c.base, c.limit, c.len, false)]
  }

  lemma CarveChanges(u: State, a: int, size: nat)
    requires |u.lists| == CLASSES && a in u.chunks && !u.chunks[a].free
    ensures var t, c := Carve(u, a, size), u.chunks[a];
      && t.chunks == HandedOut(u.chunks, a, c, size)
      && t.complete == u.complete && t.live == u.live[a + 48 := size] && |t.lists| == CLASSES
      && forall i {:trigger t.lists[i]} :: 0 <= i < CLASSES ==>
           t.lists[i] == (if c.len - size - 96 >= 256 && i == SizeClass(c.len - size - 96) then [a + 48 + size] else []) + u.lists[i]
  {
    var t, c := Carve(u, a, size), u.chunks[a];
    assert u.chunks[a := c] == u.chunks;
    assert forall l: seq<int> :: [] + l == l;
    hide SizeClass;
  }

  /** A chunk is on no list but its own. */
  lemma WithoutOther(s: State, i: int, a: int)
    requires ListsOk(s.chunks, s.lists) && 0 <= i < CLASSES
    requires a in s.chunks && s.chunks[a].free ==> i != ClassOf(s.chunks[a])
    ensures Without(s.lists[i], a) == s.lists[i]
  {
    if a in s.lists[i] {
      ListsMember(s, i, a);
    }
    WithoutAbsent(s.lists[i], a);
  }

  lemma ListedChanges(s: State, a: int, size: nat)
    requires ListsOk(s.chunks, s.lists) && |s.complete| == CLASSES && a in s.chunks && s.chunks[a].free
    ensures var c := s.chunks[a];
      var t := Carve(ClaimCounted(s, ClassOf(c), a), a, size);
      && t.chunks == HandedOut(s.chunks, a, c, size) && |t.lists| == |t.complete| == 32
      && (forall i {:trigger t.lists[i]} :: 0 <= i < 32 ==>
            t.lists[i] == (if c.len - size - 96 >= 256 && i == SizeClass(c.len - size - 96) then [a + 48 + size] else [])
                            + Without(s.lists[i], a))
      && forall i {:trigger t.complete[i]} :: 0 <= i < 32 ==>
           t.complete[i] == if a == c.base && a + c.len == c.limit && i == SizeClass(c.len - 48)
                            then s.complete[i] - 1 else s.complete[i]
  {
    hide SizeClass;
    hide Carve;
    var u := ClaimCounted(s, ClassOf(s.chunks[a]), a);
    CarveChanges(u, a, size);
    assert HandedOut(u.chunks, a, u.chunks[a], size) == HandedOut(s.chunks, a, s.chunks[a], size);
    hide HandedOut;
    forall i | 0 <= i < 32 && i != ClassOf(s.chunks[a]) ensures Without(s.lists[i], a) == s.lists[i] {
      WithoutOther(s, i, a);
    }
    hide Without;
  }

  lemma ObtainedChanges(s: State, page: int, n: nat, size: nat)
    requires ListsOk(s.chunks, s.lists) && |s.complete| == CLASSES && page !in s.chunks
    ensures var c := Chunk(page, page + n * 4096, n * 4096, true);
      var t := Carve(Obtain(s, page, n), page, size);
      && t.chunks == HandedOut(s.chunks, page, c, size) && t.complete == s.complete && |t.lists| == 32
      && forall i {:trigger t.lists[i]} :: 0 <= i < 32 ==>
            t.lists[i] == (if c.len - size - 96 >= 256 && i == SizeClass(c.len - size - 96) then [page + 48 + size] else [])
                            + Without(s.lists[i], page)
  {
    hide SizeClass;
    hide Carve;
    var c := Chunk(page, page + n * 4096, n * 4096, true);
    var u := Obtain(s, page, n);
    CarveChanges(u, page, size);
    assert HandedOut(u.chunks, page, u.chunks[page], size) == HandedOut(s.chunks, page, c, size);
    hide HandedOut;
    forall i | 0 <= i < 32 ensures Without(s.lists[i], page) == s.lists[i] {
      WithoutOther(s, i, page);
    }
    hide Without;
  }

  /** malloc changes the chunk it takes and nothing else: that chunk comes off its list
      and out of the count of whole blocks, and the rest of it goes to the front of its
      own list. */
  lemma MallocChanges(s: State, size: int, page: int)
    requires Inv(s) && MallocOk(s, size, page) && Malloc(s, size, page).1 != 0
    ensures var (t, p) := Malloc(s, size, page);
      var a := p - 48;
      var n := PagesFor(size) * 4096;
      && (a in s.chunks || a == page)
      && var c := if a in s.chunks then s.chunks[a] else Chunk(page, page + n, n, true);
      && t.chunks == HandedOut(s.chunks, a, c, size)
      && t.live == s.live[p := size]
      && |s.lists| == |t.lists| == |s.complete| == |t.complete| == 32
      && (forall i {:trigger t.lists[i]} :: 0 <= i < 32 ==>
            t.lists[i] == (if c.len - size - 96 >= 256 && i == SizeClass(c.len - size - 96) then [a + 48 + size] else [])
                            + Without(s.lists[i], a))
      && forall i {:trigger t.complete[i]} :: 0 <= i < 32 ==>
           t.complete[i] == if a in s.chunks && a == c.base && a + c.len == c.limit && i == SizeClass(c.len - 48)
                            then s.complete[i] - 1 else s.complete[i]
  {
    hide SizeClass;
    hide Carve;
    hide Malloc;
    MallocLive(s, size, page);
    var t, a := MallocSteps(s, size, page);
    hide HandedOut;
    if Search(s, size).Some? {
      ListedChanges(s, a, size);
    } else {
      ObtainedChanges(s, page, PagesFor(size), size);
    }
  }

  lemma MallocSteps(s: State, size: int, page: int) returns (t: State, a: int)
    requires Inv(s) && MallocOk(s, size, page) && Malloc(s, size, page).1 != 0
    ensures (t, a) == (Malloc(s, size, page).0, Malloc(s, size, page).1 - 48)
    ensures |s.lists| == |s.complete| == CLASSES && ListsOk(s.chunks, s.lists)
    ensures Search(s, size).Some? ==>
      && a == Search(s, size).value && a in s.chunks && s.chunks[a].free && ClassOf(s.chunks[a]) == SizeClass(size)
      && t == Carve(ClaimCounted(s, SizeClass(size), a), a, size)
    ensures Search(s, size).None? ==>
      a == page && page !in s.chunks && t == Carve(Obtain(s, page, PagesFor(size)), page, size)
  {
    t, a := Malloc(s, size, page).0, Malloc(s, size, page).1 - 48;
    if Search(s, size).None? {
      ObtainOk(s, size, page);
    }
  }

  // ---------------------------------------------------------------- free

  /** The free space around chunk a begins at b: at the free chunk of the block that
      ends at a, or at a itself. */
  predicate BeginsAt(m: Chunks, a: int, b: int)
    requires a in m
  {
    if b == a then
      forall l :: l in m && m[l].base == m[a].base && m[l].limit == m[a].limit && l + m[l].len == a ==> !m[l].free
    else
      b in m && m[b].free && m[b].base == m[a].base && m[b].limit == m[a].limit && b + m[b].len == a
  }

  /** It ends at e: behind the free chunk of the block that starts where a ends, or
      where a ends. */
  predicate EndsAt(m: Chunks, a: int, e: int)
    requires a in m
  {
    var r := a + m[a].len;
    if r < m[a].limit && r in m && m[r].free then e == r + m[r].len else e == r
  }

  lemma LeftUnique(s: State, a: int, b: int)
    requires ChunksOk(s.chunks) && a in s.chunks && BeginsAt(s.chunks, a, b)
    ensures FindLeftFree(s.chunks, a) == if b == a then None else Some(b)
  {
    var found := FindLeftFree(s.chunks, a);
    assert ChunkOk(s.chunks, a);
    if found.Some? && b != a {
      var l := found.value;
      assert ChunkOk(s.chunks, l) && ChunkOk(s.chunks, b);
      assert Placed(s.chunks, l, b) && Placed(s.chunks, b, l);
    } else if b != a {
      assert LeftFree(s.chunks, b, a);
    }
  }

  /** The free chunk at f is joined with the chunk at a, and the result starts at b. */
  predicate Joined(s: State, t: State, a: int, f: int, b: int) {
    && |s.lists| == |t.lists| == 32 && a in s.chunks && f in s.chunks && (b == a || b == f) && a != f
    && t.chunks == (s.chunks - {a, f})[b := Chunk(s.chunks[a].base, s.chunks[a].limit, s.chunks[a].len + s.chunks[f].len, false)]
    && (forall i {:trigger t.lists[i]} :: 0 <= i < 32 ==> t.lists[i] == Without(s.lists[i], f))
    && t.complete == s.complete && t.live == s.live
  }

  lemma LeftJoined(s: State, b: int, a: int)
    requires InHand(s, a) && LeftFree(s.chunks, b, a)
    ensures b != a && |s.lists| == CLASSES && Joined(s, JoinLeft(s, b, a), a, b, b)
  {
    JoinLeftInHand(s, b, a);
    var t := JoinLeft(s, b, a);
    hide SizeClass;
    forall i | 0 <= i < 32 ensures t.lists[i] == Without(s.lists[i], b) {
      if i != ClassOf(s.chunks[b]) { WithoutOther(s, i, b); }
    }
  }

  lemma RightJoined(s: State, a: int)
    requires InHand(s, a) && RightFree(s.chunks, a)
    ensures |s.lists| == CLASSES && Joined(s, JoinRight(s, a), a, a + s.chunks[a].len, a)
  {
    var r := a + s.chunks[a].len;
    assert ChunkOk(s.chunks, a) && ChunkOk(s.chunks, r);
    var t := JoinRight(s, a);
    hide SizeClass;
    forall i | 0 <= i < 32 ensures t.lists[i] == Without(s.lists[i], r) {
      if i != ClassOf(s.chunks[r]) { WithoutOther(s, i, r); }
    }
  }

  /** The chunks after the free space from b to e has become one chunk in hand. */
  predicate Gathered(m: Chunks, n: Chunks, a: int, b: int, e: int)
    requires a in m
  {
    && b in n && n[b] == Chunk(m[a].base, m[a].limit, e - b, false)
    && (forall q :: q in n && q != b ==> q in m && n[q] == m[q] && !(b <= q < e))
    && (forall q :: q in m && !(b <= q < e) ==> q in n)
  }

  /** No other chunk starts inside a chunk. */
  lemma Outside(m: Chunks, x: int)
    requires ChunksOk(m) && x in m
    ensures forall q {:trigger q in m} :: q in m && q != x ==> !(x <= q < x + m[x].len)
    ensures 48 <= m[x].len
  {
    assert ChunkOk(m, x);
    forall q | q in m && q != x ensures !(x <= q < x + m[x].len) {
      assert Placed(m, x, q);
    }
  }

  lemma LeftGathers(s: State, a: int, b: int)
    requires InHand(s, a) && BeginsAt(s.chunks, a, b)
    ensures var u := if b == a then s else JoinLeft(s, b, a);
      && |s.lists| == CLASSES && (b != a ==> b in s.chunks)
      && FindLeftFree(s.chunks, a) == (if b == a then None else Some(b))
      && (b != a ==> LeftFree(s.chunks, b, a))
      && InHand(u, b) && Gathered(s.chunks, u.chunks, a, b, a + s.chunks[a].len)
      && |u.lists| == 32 && u.complete == s.complete && u.live == s.live
      && forall i {:trigger u.lists[i]} :: 0 <= i < 32 ==> u.lists[i] == Without(s.lists[i], b)
  {
    LeftUnique(s, a, b);
    Outside(s.chunks, a);
    if b != a {
      assert LeftFree(s.chunks, b, a);
      LeftJoined(s, b, a);
      JoinLeftInHand(s, b, a);
      Outside(s.chunks, b);
    } else {
      forall i | 0 <= i < 32 ensures Without(s.lists[i], a) == s.lists[i] {
        WithoutOther(s, i, a);
      }
    }
  }

  /** Gathering goes on to the right. */
  lemma RightGathers(s: State, u: State, a: int, b: int, e: int)
    requires ChunksOk(s.chunks) && a in s.chunks && !s.chunks[a].free && EndsAt(s.chunks, a, e) && b <= a
    requires InHand(u, b) && Gathered(s.chunks, u.chunks, a, b, a + s.chunks[a].len)
    ensures var r := a + s.chunks[a].len;
      var t := if RightFree(u.chunks, b) then JoinRight(u, b) else u;
      && |u.lists| == CLASSES && Gathered(s.chunks, t.chunks, a, b, e)
      && |t.lists| == 32 && t.complete == u.complete && t.live == u.live
      && forall i {:trigger t.lists[i]} :: 0 <= i < 32 ==>
           t.lists[i] == if r < s.chunks[a].limit then Without(u.lists[i], r) else u.lists[i]
  {
    var r := a + s.chunks[a].len;
    Outside(s.chunks, a);
    assert RightFree(u.chunks, b) <==> r < s.chunks[a].limit && r in s.chunks && s.chunks[r].free;
    if RightFree(u.chunks, b) {
      RightJoined(u, b);
      Outside(s.chunks, r);
    } else if r < s.chunks[a].limit {
      forall i | 0 <= i < 32 ensures Without(u.lists[i], r) == u.lists[i] {
        if r in u.lists[i] {
          ListsMember(u, i, r);
        }
        WithoutAbsent(u.lists[i], r);
      }
    }
  }

  lemma JoinAllGathers(s: State, a: int, b: int, e: int)
    requires InHand(s, a) && BeginsAt(s.chunks, a, b) && EndsAt(s.chunks, a, e)
    ensures var (t, c) := JoinAll(s, a);
      && c == b && Gathered(s.chunks, t.chunks, a, b, e)
      && |s.lists| == |t.lists| == 32 && t.complete == s.complete && t.live == s.live
      && forall i {:trigger t.lists[i]} :: 0 <= i < 32 ==>
           var r := a + s.chunks[a].len;
           t.lists[i] == if r < s.chunks[a].limit then Without(Without(s.lists[i], b), r) else Without(s.lists[i], b)
  {
    assert b <= a by {
      if b != a { assert ChunkOk(s.chunks, b); }
    }
    LeftGathers(s, a, b);
    var u := if b == a then s else JoinLeft(s, b, a);
    RightGathers(s, u, a, b, e);
    if b != a {
      JoinLeftInHand(s, b, a);
      JoinLeftAlone(s, b, a);
    }
    hide Gathered, Without, BeginsAt, EndsAt;
  }

  /** The state in which the joined chunk is returned. */
  lemma FreeSteps(s: State, p: int, b: int, e: int) returns (u: State)
    requires Inv(s) && p in s.live && p - 48 in s.chunks
    requires BeginsAt(s.chunks, p - 48, b) && EndsAt(s.chunks, p - 48, e)
    ensures |u.lists| == |u.complete| == CLASSES && b in u.chunks && Free(s, p) == Return(u, b)
    ensures b < e && Gathered(s.chunks, u.chunks, p - 48, b, e) && u.complete == s.complete && |s.lists| == 32
    ensures forall i {:trigger u.lists[i]} :: 0 <= i < 32 ==>
              var c, r := s.chunks[p - 48], p - 48 + s.chunks[p - 48].len;
              u.lists[i] == if r < c.limit then Without(Without(s.lists[i], b), r) else Without(s.lists[i], b)
  {
    hide SizeClass, JoinAll, Return, Gathered, Without, BeginsAt, EndsAt;
    LiveAddress(s, p);
    SurrenderInHand(s, p);
    var v := s.(live := s.live - {p});
    JoinAllGathers(v, p - 48, b, e);
    u := JoinAll(v, p - 48).0;
    GatheredSize(s.chunks, u.chunks, p - 48, b, e);
  }

  lemma GatheredSize(m: Chunks, n: Chunks, a: int, b: int, e: int)
    requires a in m && Gathered(m, n, a, b, e) && ChunksOk(n)
    ensures b in n && b < e
  {
    Outside(n, b);
  }

  /** free joins the payload's chunk with the free chunks of its block on either side,
      which leave their lists, and changes no other chunk.  If the result is a whole
      block and its list already counts five, the block goes back; otherwise the result
      goes to the front of the list of its size, counted if it is whole. */
  lemma FreeChanges(s: State, p: int, b: int, e: int)
    requires Inv(s) && p in s.live && p - 48 in s.chunks
    requires BeginsAt(s.chunks, p - 48, b) && EndsAt(s.chunks, p - 48, e)
    ensures var (t, back) := Free(s, p);
      var c, r, i := s.chunks[p - 48], p - 48 + s.chunks[p - 48].len, SizeClass(e - b - 48);
      var whole := b == c.base && e == c.limit;
      && |s.lists| == |t.lists| == |s.complete| == 32
      && t.live == s.live - {p}
      && (forall q :: q in t.chunks && q != b ==> q in s.chunks && t.chunks[q] == s.chunks[q] && !(b <= q < e))
      && (forall q :: q in s.chunks && !(b <= q < e) ==> q in t.chunks)
      && (back.Some? <==> whole && s.complete[i] == 5)
      && (back.Some? ==> back.value == Block(b, (e - b) / 4096) && b !in t.chunks && t.complete == s.complete)
      && (back.None? ==> b in t.chunks && t.chunks[b] == Chunk(c.base, c.limit, e - b, true)
                         && t.complete == if whole then s.complete[i := s.complete[i] + 1] else s.complete)
      && forall j {:trigger t.lists[j]} :: 0 <= j < 32 ==>
           t.lists[j] == (if back.None? && j == i then [b] else [])
                           + (if r < c.limit then Without(Without(s.lists[j], b), r) else Without(s.lists[j], b))
  {
    hide SizeClass, Inv, Free, Without, Return, BeginsAt, EndsAt;
    var u := FreeSteps(s, p, b, e);
    FreeLive(s, p);
    ReturnChanges(u, b);
    var c := s.chunks[p - 48];
    assert u.chunks[b] == Chunk(c.base, c.limit, e - b, false);
  }

  /** The end of free. */
  lemma ReturnChanges(u: State, b: int)
    requires |u.lists| == |u.complete| == 32 && b in u.chunks && !u.chunks[b].free
    ensures var (t, back) := Return(u, b);
      var c := u.chunks[b];
      var i := SizeClass(c.len - 48);
      var whole := b == c.base && b + c.len == c.limit;
      && 0 <= i < 32 && |t.lists| == 32
      && (back.Some? <==> whole && u.complete[i] == 5)
      && (back.Some? ==> back.value == Block(b, c.len / 4096) && t.chunks == u.chunks - {b} && t.complete == u.complete)
      && (back.None? ==> t.chunks == u.chunks[b := c.(free := true)]
                         && t.complete == if whole then u.complete[i := u.complete[i] + 1] else u.complete)
      && forall j {:trigger t.lists[j]} :: 0 <= j < 32 ==>
           t.lists[j] == (if back.None? && j == i then [b] else []) + u.lists[j]
  {
    hide SizeClass;
    assert forall l: seq<int> :: [] + l == l;
  }

  /** The space that free gathers always has a beginning and an end. */
  lemma SpaceExists(s: State, a: int) returns (b: int, e: int)
    requires Inv(s) && a in s.chunks
    ensures BeginsAt(s.chunks, a, b) && EndsAt(s.chunks, a, e)
  {
    var found := FindLeftFree(s.chunks, a);
    b := if found.Some? then found.value else a;
    var r := a + s.chunks[a].len;
    e := if r < s.chunks[a].limit && r in s.chunks && s.chunks[r].free then r + s.chunks[r].len else r;
    assert ChunkOk(s.chunks, a);
    if found.Some? {
      assert ChunkOk(s.chunks, b);
    } else {
      forall l | l in s.chunks && s.chunks[l].base == s.chunks[a].base && s.chunks[l].limit == s.chunks[a].limit
                 && l + s.chunks[l].len == a
        ensures !s.chunks[l].free
      {
        assert !LeftFree(s.chunks, l, a);
      }
    }
  }

  // ---------------------------------------------------------------- realloc

  /** realloc of NULL is malloc, and to size 0 is free with NULL for an answer. */
  lemma ReallocEdges(s: State, p: int, size: int, page: int)
    requires Inv(s) && (p == 0 || p in s.live) && MallocOk(s, size, page)
    ensures size == 0 ==> Realloc(s, p, size, page) == (Free(s, p).0, Pointer(0))
    ensures size != 0 && p == 0 ==> Realloc(s, p, size, page) == (Malloc(s, size, page).0, Pointer(Malloc(s, size, page).1))
    ensures Free(s, 0) == (s, None)
  {
  }
}
