/** What the steps of malloc and free keep: each lemma takes the heap from a
    state between calls, through states with one chunk in hand, and back. */
module AllocProofs {
  import opened AllocSpec

  // ---------------------------------------------------------------- lists

  lemma {:induction false} WithoutAt(s: seq<int>, k: nat)
    requires NoDup(s) && k < |s|
    ensures Without(s, s[k]) == s[..k] + s[k + 1..]
  {
    if k > 0 {
      assert s[0] != s[k];
      WithoutAt(s[1..], k - 1);
      assert s[1..][k - 1] == s[k];
      assert s[..k] + s[k + 1..] == [s[0]] + (s[1..][..k - 1] + s[1..][k..]);
    }
  }

  lemma {:induction false} WithoutMember(s: seq<int>, a: int)
    requires NoDup(s)
    ensures NoDup(Without(s, a))
    ensures forall b :: b in Without(s, a) <==> b in s && b != a
  {
    if a in s {
      var k :| 0 <= k < |s| && s[k] == a;
      WithoutAt(s, k);
      forall b ensures b in Without(s, a) <==> b in s && b != a {
        if b in s && b != a {
          var j :| 0 <= j < |s| && s[j] == b;
          if j < k { assert s[..k][j] == b; } else { assert s[k + 1..][j - k - 1] == b; }
        }
      }
    } else {
      WithoutAbsent(s, a);
    }
  }

  lemma {:induction false} WithoutAbsent(s: seq<int>, a: int)
    requires a !in s
    ensures Without(s, a) == s
  {
    if s != [] {
      WithoutAbsent(s[1..], a);
      assert s == [s[0]] + s[1..];
    }
  }

  /** Lists whose members are described element by element. */
  lemma ListsIntro(s: State)
    requires |s.lists| == CLASSES
    requires forall i, a :: 0 <= i < CLASSES && a in s.lists[i] ==> a in s.chunks && s.chunks[a].free && ClassOf(s.chunks[a]) == i
    requires forall i :: 0 <= i < CLASSES ==> NoDup(s.lists[i])
    requires forall a :: a in s.chunks && s.chunks[a].free ==> InItsList(s.chunks, s.lists, a)
    ensures ListsOk(s.chunks, s.lists)
  {
    forall i, k | 0 <= i < CLASSES && 0 <= k < |s.lists[i]|
      ensures Listed(s.chunks, s.lists, i, k)
    {
      assert s.lists[i][k] in s.lists[i];
    }
  }

  lemma ListsMember(s: State, i: int, a: int)
    requires ListsOk(s.chunks, s.lists) && 0 <= i < CLASSES && a in s.lists[i]
    ensures a in s.chunks && s.chunks[a].free && ClassOf(s.chunks[a]) == i
  {
    var k :| 0 <= k < |s.lists[i]| && s.lists[i][k] == a;
    assert Listed(s.chunks, s.lists, i, k);
  }

  // ---------------------------------------------------------------- tilings

  lemma SameShape(m: Chunks, n: Chunks)
    requires ChunksOk(m) && m.Keys == n.Keys
    requires forall a :: a in m ==> n[a].(free := m[a].free) == m[a]
    ensures ChunksOk(n)
  {
    forall a | a in n ensures ChunkOk(n, a) {
      assert ChunkOk(m, a);
    }
    forall a, b | a in n && b in n ensures Placed(n, a, b) {
      assert Placed(m, a, b);
    }
  }

  lemma ObtainShape(m: Chunks, page: int, pages: int)
    requires ChunksOk(m) && Fresh(m, page, pages) && MIN_PAGES <= pages && pages * PAGE < MAX_BLOCK
    ensures page !in m
    ensures ChunksOk(m[page := Chunk(page, page + pages * PAGE, pages * PAGE, false)])
  {
    var n := m[page := Chunk(page, page + pages * PAGE, pages * PAGE, false)];
    forall a | a in m ensures a != page && ChunkOk(n, a) {
      assert ChunkOk(m, a);
    }
    assert ChunkOk(n, page);
    forall a, b | a in n && b in n ensures Placed(n, a, b) {
      if a in m { assert ChunkOk(m, a); }
      if b in m { assert ChunkOk(m, b); }
      if a in m && b in m { assert Placed(m, a, b); }
    }
  }

  /** The start of a block is a chunk of that block. */
  lemma BaseChunk(m: Chunks, a: int)
    requires ChunksOk(m) && a in m
    ensures m[a].base in m && SameBlock(m[m[a].base], m[a])
  {
    assert ChunkOk(m, a);
    assert ChunkOk(m, m[a].base);
    assert Placed(m, a, m[a].base);
  }

  lemma MergePlaced(m: Chunks, a: int, b: int, c: int, d: int)
    requires ChunksOk(m) && a in m && IsRight(m, a, b) && b in m && SameBlock(m[a], m[b]) && a < b
    requires c in m && c != b && d in m && d != b
    ensures Placed(Merge(m, a, b), c, d)
  {
    hide BlockOk;
    assert Placed(m, c, d) && Placed(m, b, d);
    assert ChunkOk(m, d) && ChunkOk(m, b);
  }

  lemma MergeShape(m: Chunks, a: int, b: int)
    requires ChunksOk(m) && a in m && IsRight(m, a, b)
    ensures b in m && a < b && SameBlock(m[a], m[b]) && ChunksOk(Merge(m, a, b))
  {
    hide BlockOk;
    assert ChunkOk(m, a) && ChunkOk(m, b);
    hide ChunkOk;
    hide Placed;
    var n := Merge(m, a, b);
    forall c | c in n ensures ChunkOk(n, c) {
      MergeChunk(m, a, b, c);
    }
    forall c, d | c in n && d in n ensures Placed(n, c, d) {
      MergePlaced(m, a, b, c, d);
    }
  }

  lemma MergeChunk(m: Chunks, a: int, b: int, c: int)
    requires ChunksOk(m) && a in m && IsRight(m, a, b) && b in m && c in m && c != b
    ensures ChunkOk(Merge(m, a, b), c)
  {
    var n := Merge(m, a, b);
    assert ChunkOk(m, c) && ChunkOk(m, a) && ChunkOk(m, b);
    BaseChunk(m, c);
    assert Placed(m, a, m[c].base);
    assert n[c].base in n;
    if c != a {
      assert Placed(m, c, a) && Placed(m, a, c);
      if c + m[c].len < m[c].limit {
        assert c + m[c].len != b;
      }
    }
  }

  lemma DivideShape(m: Chunks, a: int, n: int)
    requires ChunksOk(m) && a in m && HEADER <= n <= m[a].len - HEADER
    ensures a + n !in m && ChunksOk(Divide(m, a, n))
  {
    assert ChunkOk(m, a);
    forall k | k in m && a < k ensures a + m[a].len <= k {
      assert Placed(m, a, k);
    }
    var d := Divide(m, a, n);
    forall c | c in d ensures ChunkOk(d, c) {
      if c != a + n {
        assert ChunkOk(m, c);
      }
    }
    forall b, c | b in d && c in d ensures Placed(d, b, c) {
      DividePlaced(m, a, n, b, c);
    }
  }

  lemma DividePlaced(m: Chunks, a: int, n: int, b: int, c: int)
    requires ChunksOk(m) && a in m && HEADER <= n <= m[a].len - HEADER && a + n !in m
    requires b in Divide(m, a, n) && c in Divide(m, a, n)
    ensures Placed(Divide(m, a, n), b, c)
  {
    var b', c' := if b == a + n then a else b, if c == a + n then a else c;
    assert Placed(m, b', c') && Placed(m, c', b');
  }

  lemma ReleaseShape(m: Chunks, a: int)
    requires ChunksOk(m) && a in m && Whole(m, a)
    ensures ChunksOk(m - {a})
  {
    var n := m - {a};
    assert ChunkOk(m, a);
    forall c | c in n ensures ChunkOk(n, c) {
      assert ChunkOk(m, c);
      BaseChunk(m, c);
      assert Placed(m, a, c) && Placed(m, c, a);
    }
    forall b, c | b in n && c in n ensures Placed(n, b, c) {
      assert Placed(m, b, c);
    }
  }

  // ---------------------------------------------------------------- counts

  lemma CountsSame(s: State, m: Chunks)
    requires CountsOk(s.chunks, s.complete)
    requires forall a :: a in m && m[a].free && Whole(m, a) ==> a in s.chunks && s.chunks[a] == m[a]
    requires forall a :: a in s.chunks && s.chunks[a].free && Whole(s.chunks, a) ==> a in m && s.chunks[a] == m[a]
    ensures CountsOk(m, s.complete)
  {
    forall i | 0 <= i < CLASSES ensures CompleteSet(m, i) == CompleteSet(s.chunks, i) {
    }
  }

  // ---------------------------------------------------------------- steps

  lemma ObtainInHand(s: State, page: int, pages: int)
    requires Inv(s) && Fresh(s.chunks, page, pages) && MIN_PAGES <= pages && pages * PAGE < MAX_BLOCK
    ensures var t := Obtain(s, page, pages); InHand(t, page) && Alone(t.chunks, page)
  {
    var t := Obtain(s, page, pages);
    ObtainShape(s.chunks, page, pages);
    CountsSame(s, t.chunks);
    assert page + HEADER in s.live ==> LiveOk(s.chunks, s.live, page + HEADER);
    assert ListsOk(t.chunks, t.lists) by {
      forall i, a | 0 <= i < CLASSES && a in t.lists[i]
        ensures a in t.chunks && t.chunks[a].free && ClassOf(t.chunks[a]) == i
      {
        ListsMember(s, i, a);
      }
      forall a | a in t.chunks && t.chunks[a].free ensures InItsList(t.chunks, t.lists, a) {
        assert InItsList(s.chunks, s.lists, a);
      }
      ListsIntro(t);
    }
    forall a, b | a in t.chunks && b in t.chunks && t.chunks[a].free && IsRight(t.chunks, a, b)
      ensures !t.chunks[b].free
    {
      assert IsRight(s.chunks, a, b);
    }
    forall p | p in t.live ensures LiveOk(t.chunks, t.live, p) {
      assert LiveOk(s.chunks, s.live, p);
    }
    forall p | p in t.chunks ensures !LeftFree(t.chunks, p, page) {
      assert ChunkOk(t.chunks, page);
    }
  }

  /** Chunk a leaves list ClassOf(a); a complete page is counted off. */
  lemma ClaimLists(s: State, a: int)
    requires ChunksOk(s.chunks) && ListsOk(s.chunks, s.lists) && a in s.chunks && s.chunks[a].free
    ensures var t := Claim(s, ClassOf(s.chunks[a]), a); ChunksOk(t.chunks) && ListsOk(t.chunks, t.lists)
  {
    var j := ClassOf(s.chunks[a]);
    var t := Claim(s, j, a);
    SameShape(s.chunks, t.chunks);
    WithoutMember(s.lists[j], a);
    forall i, b | 0 <= i < CLASSES && b in t.lists[i]
      ensures b in t.chunks && t.chunks[b].free && ClassOf(t.chunks[b]) == i
    {
      ListsMember(s, i, b);
    }
    forall b | b in t.chunks && t.chunks[b].free ensures InItsList(t.chunks, t.lists, b) {
      assert InItsList(s.chunks, s.lists, b);
    }
    ListsIntro(t);
  }

  lemma ClaimCounts(s: State, a: int)
    requires CountsOk(s.chunks, s.complete) && a in s.chunks && s.chunks[a].free && |s.lists| == CLASSES
    ensures var t := ClaimCounted(s, ClassOf(s.chunks[a]), a); CountsOk(t.chunks, t.complete)
  {
    var j := ClassOf(s.chunks[a]);
    var t := ClaimCounted(s, j, a);
    forall i | 0 <= i < CLASSES ensures t.complete[i] == |CompleteSet(t.chunks, i)| && t.complete[i] <= MAX_COMPLETE {
      assert CompleteSet(t.chunks, i) == CompleteSet(s.chunks, i) - {a};
    }
  }

  lemma CoalescedAt(m: Chunks, a: int)
    requires ChunksOk(m) && Coalesced(m) && a in m && m[a].free
    ensures Alone(m, a)
  {
    assert ChunkOk(m, a);
    assert IsRight(m, a, a + m[a].len) ==> !RightFree(m, a);
    forall p | p in m && IsLeft(m, p, a) ensures !m[p].free {
      assert ChunkOk(m, a);
      assert IsRight(m, p, a);
    }
  }

  /** malloc's choice of a listed chunk: it comes off its list alone. */
  lemma ClaimInHand(s: State, a: int)
    requires Inv(s) && a in s.chunks && s.chunks[a].free
    ensures var t := ClaimCounted(s, ClassOf(s.chunks[a]), a); InHand(t, a) && Alone(t.chunks, a)
  {
    ClaimLists(s, a);
    ClaimCounts(s, a);
    CoalescedAt(s.chunks, a);
    var t := ClaimCounted(s, ClassOf(s.chunks[a]), a);
    ClaimRest(s, t, a);
    forall p | p in t.chunks ensures !LeftFree(t.chunks, p, a) {
      assert !LeftFree(s.chunks, p, a);
    }
  }

  lemma ClaimRest(s: State, t: State, a: int)
    requires Inv(s) && a in s.chunks && s.chunks[a].free
    requires t.chunks == s.chunks[a := s.chunks[a].(free := false)] && t.live == s.live
    ensures Coalesced(t.chunks) && a + HEADER !in t.live
    ensures forall b :: b in t.chunks && !t.chunks[b].free && b != a ==> b + HEADER in t.live
    ensures forall p :: p in t.live ==> LiveOk(t.chunks, t.live, p)
  {
    forall q | q in s.live ensures q != a + HEADER {
      assert LiveOk(s.chunks, s.live, q);
    }
    forall b, c | b in t.chunks && c in t.chunks && t.chunks[b].free && IsRight(t.chunks, b, c)
      ensures !t.chunks[c].free
    {
      assert IsRight(s.chunks, b, c);
    }
    forall p | p in t.live ensures LiveOk(t.chunks, t.live, p) {
      assert LiveOk(s.chunks, s.live, p);
    }
  }

  /** free's start: the payload is given up, the chunk is in hand. */
  lemma SurrenderInHand(s: State, p: int)
    requires Inv(s) && p in s.live
    ensures InHand(s.(live := s.live - {p}), p - HEADER)
  {
    var t := s.(live := s.live - {p});
    assert LiveOk(s.chunks, s.live, p);
    assert ListsOk(t.chunks, t.lists) by {
      forall i, a | 0 <= i < CLASSES && a in t.lists[i]
        ensures a in t.chunks && t.chunks[a].free && ClassOf(t.chunks[a]) == i
      {
        ListsMember(s, i, a);
      }
      forall a | a in t.chunks && t.chunks[a].free ensures InItsList(t.chunks, t.lists, a) {
        assert InItsList(s.chunks, s.lists, a);
      }
      ListsIntro(t);
    }
    forall q | q in t.live ensures LiveOk(t.chunks, t.live, q) {
      assert LiveOk(s.chunks, s.live, q);
    }
  }

  /** Joining two neighbours, of which the one that goes is not on any list. */
  lemma MergeKeeps(s: State, a: int, b: int)
    requires ChunksOk(s.chunks) && ListsOk(s.chunks, s.lists) && CountsOk(s.chunks, s.complete) && Coalesced(s.chunks)
    requires a in s.chunks && IsRight(s.chunks, a, b) && b in s.chunks
    requires !s.chunks[a].free && !s.chunks[b].free
    ensures var t := s.(chunks := Merge(s.chunks, a, b));
      ChunksOk(t.chunks) && ListsOk(t.chunks, t.lists) && CountsOk(t.chunks, t.complete) && Coalesced(t.chunks)
  {
    var t := s.(chunks := Merge(s.chunks, a, b));
    MergeShape(s.chunks, a, b);
    CountsSame(s, t.chunks);
    forall i, c | 0 <= i < CLASSES && c in t.lists[i]
      ensures c in t.chunks && t.chunks[c].free && ClassOf(t.chunks[c]) == i
    {
      ListsMember(s, i, c);
    }
    forall c | c in t.chunks && t.chunks[c].free ensures InItsList(t.chunks, t.lists, c) {
      assert InItsList(s.chunks, s.lists, c);
    }
    ListsIntro(t);
    forall c, d | c in t.chunks && d in t.chunks && t.chunks[c].free && IsRight(t.chunks, c, d)
      ensures !t.chunks[d].free
    {
      assert IsRight(s.chunks, c, d);
    }
  }

  /** Claiming a chunk that is no whole block leaves the counts alone. */
  lemma ClaimKeeps(s: State, b: int)
    requires ChunksOk(s.chunks) && ListsOk(s.chunks, s.lists) && CountsOk(s.chunks, s.complete) && Coalesced(s.chunks)
    requires b in s.chunks && s.chunks[b].free && !Whole(s.chunks, b)
    ensures var t := Claim(s, ClassOf(s.chunks[b]), b);
      ChunksOk(t.chunks) && ListsOk(t.chunks, t.lists) && CountsOk(t.chunks, t.complete) && Coalesced(t.chunks)
  {
    ClaimLists(s, b);
    var t := Claim(s, ClassOf(s.chunks[b]), b);
    CountsSame(s, t.chunks);
    assert CountsOk(t.chunks, t.complete) by { assert t.complete == s.complete; }
    forall c, d | c in t.chunks && d in t.chunks && t.chunks[c].free && IsRight(t.chunks, c, d)
      ensures !t.chunks[d].free
    {
      assert IsRight(s.chunks, c, d);
    }
  }

  /** Payloads do not see two neighbours join when neither is a caller's. */
  lemma MergeLive(m: Chunks, n: Chunks, live: map<int, int>, x: int, y: int, a: int, b: int)
    requires forall p :: p in live ==> LiveOk(m, live, p)
    requires forall c :: c in m && !m[c].free && c != x ==> c + HEADER in live
    requires y in m && m[y].free && {x, y} == {a, b} && a in m && b in m && a != b
    requires x + HEADER !in live
    requires n == Merge(m[y := m[y].(free := false)], a, b)
    ensures a + HEADER !in live && b + HEADER !in live
    ensures forall p :: p in live ==> LiveOk(n, live, p)
    ensures forall c :: c in n && !n[c].free && c != a ==> c + HEADER in live
  {
    forall p | p in live ensures p != y + HEADER && LiveOk(n, live, p) {
      assert LiveOk(m, live, p);
    }
  }

  lemma RightLeft(m: Chunks, p: int, a: int)
    requires ChunksOk(m) && p in m && a in m
    ensures IsLeft(m, p, a) <==> IsRight(m, p, a)
    ensures IsRight(m, p, a) ==> p < a
  {
    assert ChunkOk(m, p) && ChunkOk(m, a);
  }

  /** The chunk on the left takes over from the chunk in hand. */
  lemma JoinLeftInHand(s: State, p: int, a: int)
    requires InHand(s, a) && p in s.chunks && LeftFree(s.chunks, p, a)
    ensures p < a
    ensures InHand(JoinLeft(s, p, a), p)
  {
    RightLeft(s.chunks, p, a);
    ClaimKeeps(s, p);
    var u := Claim(s, ClassOf(s.chunks[p]), p);
    assert IsRight(u.chunks, p, a);
    MergeKeeps(u, p, a);
    MergeLive(s.chunks, JoinLeft(s, p, a).chunks, s.live, a, p, p, a);
  }

  lemma JoinLeftAlone(s: State, p: int, a: int)
    requires InHand(s, a) && p in s.chunks && LeftFree(s.chunks, p, a)
    requires p < a
    ensures var t := JoinLeft(s, p, a);
      && p in t.chunks
      && (forall q :: q in t.chunks ==> !LeftFree(t.chunks, q, p))
      && (RightFree(t.chunks, p) <==> RightFree(s.chunks, a))
  {
    var m, n := s.chunks, JoinLeft(s, p, a).chunks;
    assert ChunkOk(m, p) && ChunkOk(m, a);
    CoalescedAt(m, p);
    assert n[p].len == m[p].len + m[a].len;
    forall q | q in n ensures !LeftFree(n, q, p) {
      assert !LeftFree(m, q, p);
    }
  }

  lemma JoinRightInHand(s: State, a: int)
    requires InHand(s, a) && RightFree(s.chunks, a)
    ensures InHand(JoinRight(s, a), a)
  {
    var b := a + s.chunks[a].len;
    RightLeft(s.chunks, a, b);
    assert ChunkOk(s.chunks, a);
    ClaimKeeps(s, b);
    var u := Claim(s, ClassOf(s.chunks[b]), b);
    assert IsRight(u.chunks, a, b);
    MergeKeeps(u, a, b);
    MergeLive(s.chunks, JoinRight(s, a).chunks, s.live, a, b, a, b);
  }

  lemma JoinRightAlone(s: State, a: int)
    requires InHand(s, a) && RightFree(s.chunks, a)
    requires forall q :: q in s.chunks ==> !LeftFree(s.chunks, q, a)
    ensures var t := JoinRight(s, a); a in t.chunks && Alone(t.chunks, a)
  {
    var b := a + s.chunks[a].len;
    var m, n := s.chunks, JoinRight(s, a).chunks;
    assert ChunkOk(m, a) && ChunkOk(m, b);
    CoalescedAt(m, b);
    assert n[a].len == m[a].len + m[b].len;
    forall q | q in n ensures !LeftFree(n, q, a) {
      assert !LeftFree(m, q, a);
    }
  }

  /** The chunk in hand goes back to its list. */
  lemma PutLists(s: State, a: int)
    requires InHand(s, a)
    ensures var t := Put(s, ClassOf(s.chunks[a]), a); ChunksOk(t.chunks) && ListsOk(t.chunks, t.lists)
  {
    var j := ClassOf(s.chunks[a]);
    var t := Put(s, j, a);
    SameShape(s.chunks, t.chunks);
    forall i, b | 0 <= i < CLASSES && b in s.lists[i]
      ensures b != a && b in t.chunks && t.chunks[b].free && ClassOf(t.chunks[b]) == i
    {
      ListsMember(s, i, b);
    }
    forall b | b in t.chunks && t.chunks[b].free ensures InItsList(t.chunks, t.lists, b) {
      assert b != a ==> InItsList(s.chunks, s.lists, b);
    }
    ListsIntro(t);
  }

  lemma PutRest(s: State, a: int)
    requires InHand(s, a) && Alone(s.chunks, a)
    ensures var t := Put(s, ClassOf(s.chunks[a]), a);
      && Coalesced(t.chunks)
      && (forall b :: b in t.chunks && !t.chunks[b].free ==> b + HEADER in t.live)
      && (forall p :: p in t.live ==> LiveOk(t.chunks, t.live, p))
  {
    var t := Put(s, ClassOf(s.chunks[a]), a);
    forall b, c | b in t.chunks && c in t.chunks && t.chunks[b].free && IsRight(t.chunks, b, c)
      ensures !t.chunks[c].free
    {
      assert IsRight(s.chunks, b, c);
      RightLeft(s.chunks, b, c);
    }
    forall p | p in t.live ensures LiveOk(t.chunks, t.live, p) {
      assert LiveOk(s.chunks, s.live, p);
    }
  }

  lemma PutComplete(s: State, a: int, i: int)
    requires |s.lists| == CLASSES && a in s.chunks && !s.chunks[a].free && 0 <= i < CLASSES
    ensures var j := ClassOf(s.chunks[a]);
      CompleteSet(Put(s, j, a).chunks, i)
        == CompleteSet(s.chunks, i) + (if i == j && Whole(s.chunks, a) then {a} else {})
    ensures a !in CompleteSet(s.chunks, i)
  {
  }

  lemma PutCounts(s: State, a: int)
    requires CountsOk(s.chunks, s.complete) && |s.lists| == CLASSES && a in s.chunks && !s.chunks[a].free
    ensures !Whole(s.chunks, a) ==> CountsOk(Put(s, ClassOf(s.chunks[a]), a).chunks, s.complete)
    ensures var j := ClassOf(s.chunks[a]);
      Whole(s.chunks, a) && s.complete[j] < MAX_COMPLETE ==>
        CountsOk(Put(s, j, a).chunks, s.complete[j := s.complete[j] + 1])
  {
    hide CompleteSet;
    hide Put;
    forall i | 0 <= i < CLASSES
      ensures var j := ClassOf(s.chunks[a]);
        && CompleteSet(Put(s, j, a).chunks, i)
             == CompleteSet(s.chunks, i) + (if i == j && Whole(s.chunks, a) then {a} else {})
        && a !in CompleteSet(s.chunks, i)
    {
      PutComplete(s, a, i);
    }
  }

  /** free's end: back on a list or back to the page layer. */
  lemma ReturnInv(s: State, a: int)
    requires InHand(s, a) && Alone(s.chunks, a)
    ensures Inv(Return(s, a).0)
  {
    PutLists(s, a);
    PutRest(s, a);
    PutCounts(s, a);
    var i := ClassOf(s.chunks[a]);
    if Whole(s.chunks, a) && s.complete[i] == MAX_COMPLETE {
      ReleaseInv(s, a);
    }
  }

  lemma ReleaseInv(s: State, a: int)
    requires InHand(s, a) && Whole(s.chunks, a)
    ensures Inv(Release(s, a))
  {
    var t := Release(s, a);
    ReleaseShape(s.chunks, a);
    CountsSame(s, t.chunks);
    forall i, b | 0 <= i < CLASSES && b in t.lists[i]
      ensures b in t.chunks && t.chunks[b].free && ClassOf(t.chunks[b]) == i
    {
      ListsMember(s, i, b);
    }
    forall b | b in t.chunks && t.chunks[b].free ensures InItsList(t.chunks, t.lists, b) {
      assert InItsList(s.chunks, s.lists, b);
    }
    ListsIntro(t);
    forall b, c | b in t.chunks && c in t.chunks && t.chunks[b].free && IsRight(t.chunks, b, c)
      ensures !t.chunks[c].free
    {
      assert IsRight(s.chunks, b, c);
    }
    forall p | p in t.live ensures LiveOk(t.chunks, t.live, p) {
      assert LiveOk(s.chunks, s.live, p);
    }
  }

  /** The rest of a divided chunk is itself in hand, apart from its sibling. */
  lemma DivideInHand(s: State, a: int, size: int)
    requires InHand(s, a) && Alone(s.chunks, a) && 0 <= size && Splittable(s.chunks[a], size)
    ensures var n := HEADER + size;
      var t := s.(chunks := Divide(s.chunks, a, n), live := s.live[a + HEADER := size]);
      a + n !in s.chunks && InHand(t, a + n) && Alone(t.chunks, a + n)
  {
    var n := HEADER + size;
    var t := s.(chunks := Divide(s.chunks, a, n), live := s.live[a + HEADER := size]);
    DivideShape(s.chunks, a, n);
    CountsSame(s, t.chunks);
    forall i, c | 0 <= i < CLASSES && c in t.lists[i]
      ensures c in t.chunks && t.chunks[c].free && ClassOf(t.chunks[c]) == i
    {
      ListsMember(s, i, c);
    }
    forall c | c in t.chunks && t.chunks[c].free ensures InItsList(t.chunks, t.lists, c) {
      assert InItsList(s.chunks, s.lists, c);
    }
    ListsIntro(t);
    DivideRest(s, a, size);
  }

  lemma DivideRest(s: State, a: int, size: int)
    requires InHand(s, a) && Alone(s.chunks, a) && 0 <= size && Splittable(s.chunks[a], size)
    requires a + HEADER + size !in s.chunks
    ensures var n := HEADER + size;
      var t := s.(chunks := Divide(s.chunks, a, n), live := s.live[a + HEADER := size]);
      && Coalesced(t.chunks)
      && Alone(t.chunks, a + n)
      && a + n + HEADER !in t.live
      && (forall p :: p in t.live ==> LiveOk(t.chunks, t.live, p))
  {
    var n := HEADER + size;
    var t := s.(chunks := Divide(s.chunks, a, n), live := s.live[a + HEADER := size]);
    assert ChunkOk(s.chunks, a);
    forall b, c | b in t.chunks && c in t.chunks && t.chunks[b].free && IsRight(t.chunks, b, c)
      ensures !t.chunks[c].free
    {
      assert IsRight(s.chunks, b, c);
    }
    forall p | p in t.live ensures p != a + n + HEADER && LiveOk(t.chunks, t.live, p) {
      assert p != a + HEADER ==> LiveOk(s.chunks, s.live, p);
    }
    forall p | p in t.chunks ensures !LeftFree(t.chunks, p, a + n) {
      if p != a && p != a + n {
        assert ChunkOk(s.chunks, p) && Placed(s.chunks, p, a) && Placed(s.chunks, a, p);
      }
    }
  }

  /** malloc's end: the payload goes to the caller, the excess to a list. */
  lemma CarveInv(s: State, a: int, size: int)
    requires InHand(s, a) && Alone(s.chunks, a) && 0 <= size && HEADER + size <= s.chunks[a].len
    ensures Inv(Carve(s, a, size))
  {
    assert ChunkOk(s.chunks, a);
    if Splittable(s.chunks[a], size) {
      var n := HEADER + size;
      var t := s.(chunks := Divide(s.chunks, a, n), live := s.live[a + HEADER := size]);
      DivideInHand(s, a, size);
      ReturnInv(t, a + n);
      assert !Whole(t.chunks, a + n);
      assert Return(t, a + n).0 == Carve(s, a, size);
    } else {
      CarveWhole(s, a, size);
    }
  }

  lemma CarveWhole(s: State, a: int, size: int)
    requires InHand(s, a) && 0 <= size && HEADER + size <= s.chunks[a].len
    ensures Inv(s.(live := s.live[a + HEADER := size]))
  {
    var t := s.(live := s.live[a + HEADER := size]);
    forall p | p in t.live ensures LiveOk(t.chunks, t.live, p) {
      assert p != a + HEADER ==> LiveOk(s.chunks, s.live, p);
    }
  }

  lemma InHandFacts(s: State, a: int)
    requires InHand(s, a)
    ensures ChunksOk(s.chunks) && a in s.chunks && a + HEADER !in s.live
    ensures |s.lists| == CLASSES == |s.complete|
  {
  }

  /** The order of the source: first melt, then take the grown chunk off its list. */
  lemma JoinLeftAs(s: State, t: State, p: int, a: int)
    requires |s.lists| == CLASSES && p in s.chunks && a in s.chunks && p != a
    requires t.chunks == Merge(s.chunks, p, a)[p := Merge(s.chunks, p, a)[p].(free := false)]
    requires t.lists == s.lists[ClassOf(s.chunks[p]) := Without(s.lists[ClassOf(s.chunks[p])], p)]
    requires t.complete == s.complete && t.live == s.live
    ensures t == JoinLeft(s, p, a)
  {
    var m := Merge(s.chunks, p, a);
    assert Merge(s.chunks[p := s.chunks[p].(free := false)], p, a) == m[p := m[p].(free := false)];
  }
}
