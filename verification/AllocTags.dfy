/** struct boundary_tag of include/alloc.h, and when the pointers in a set of
    tags agree with a tiling and with the free lists. */
module AllocTags {
  import opened AllocSpec
  import opened AllocProofs

  const MAGIC := 0xc001c0de
  const NOWHERE := 0          // the address of no tag

  /** A new tag holds whatever the memory it lies in held.  The ghost constants
      name the page block it lies in. */
  class Tag {
    const addr: int
    ghost const base: int
    ghost const limit: int
    var magic: int
    var size: int
    var realSize: int
    var index: int
    var splitLeft: Tag?
    var splitRight: Tag?
    var next: Tag?
    var prev: Tag?

    constructor (addr: int, ghost base: int, ghost limit: int)
      ensures this.addr == addr && this.base == base && this.limit == limit
    {
      this.addr := addr;
      this.base := base;
      this.limit := limit;
    }

    ghost function Contents(): Fields
      reads this
    {
      Fields(magic, size, realSize, index, splitLeft, splitRight, next, prev)
    }
  }

  /** The contents of a tag. */
  datatype Fields = Fields(magic: int, size: int, realSize: int, index: int,
                           splitLeft: Tag?, splitRight: Tag?, next: Tag?, prev: Tag?)

  type Tags = map<int, Tag>
  type View = map<int, Fields>

  ghost predicate Named(tags: Tags, v: View) {
    tags.Keys == v.Keys && forall a {:trigger tags[a]} :: a in tags ==> tags[a].addr == a
  }

  function At(tags: Tags, a: int): Tag? {
    if a in tags then tags[a] else null
  }

  ghost predicate SameTagBlock(t: Tag, u: Tag) {
    t.base == u.base && t.limit == u.limit
  }

  /** The split links of the tag at a: to the tag that starts where it ends, and
      back to the tag that ends where it starts. */
  ghost predicate ChainAt(tags: Tags, v: View, a: int)
    requires Named(tags, v) && a in tags
  {
    var t, f := tags[a], v[a];
    var b := a + f.realSize;
    && f.magic == MAGIC
    && t.base <= a
    && HEADER <= f.realSize
    && b <= t.limit
    && (if b == t.limit then f.splitRight == null
        else b in tags && f.splitRight == tags[b] && v[b].splitLeft == t && SameTagBlock(tags[b], t))
    && (if a == t.base then f.splitLeft == null
        else f.splitLeft != null && LeftAt(tags, v, f.splitLeft.addr, a, f.splitLeft))
  }

  /** l, the tag at p, ends at a and links to the tag there. */
  ghost predicate LeftAt(tags: Tags, v: View, p: int, a: int, l: Tag)
    requires Named(tags, v) && a in tags
  {
    && p in tags && tags[p] == l
    && v[p].splitRight == tags[a]
    && p + v[p].realSize == a
    && SameTagBlock(l, tags[a])
  }

  ghost predicate ListAt(tags: Tags, v: View, ls: seq<seq<int>>, i: int, k: int)
    requires Named(tags, v) && 0 <= i < |ls| && 0 <= k < |ls[i]|
  {
    var a := ls[i][k];
    && a in tags
    && v[a].index == i
    && v[a].next == (if k + 1 < |ls[i]| then At(tags, ls[i][k + 1]) else null)
    && v[a].prev == (if k > 0 then At(tags, ls[i][k - 1]) else null)
  }

  ghost predicate HeadAt(tags: Tags, heads: seq<Tag?>, ls: seq<seq<int>>, i: int)
    requires 0 <= i < |ls| == |heads|
  {
    heads[i] == if ls[i] == [] then null else At(tags, ls[i][0])
  }

  /** A tag is on the list its index names, or on none and unlinked. */
  ghost predicate LooseAt(v: View, ls: seq<seq<int>>, a: int)
    requires a in v
  {
    if v[a].index >= 0 then v[a].index < |ls| && a in ls[v[a].index]
    else v[a].index == -1 && v[a].next == null && v[a].prev == null
  }

  ghost predicate ChainsOk(tags: Tags, v: View) {
    && Named(tags, v)
    && forall a {:trigger ChainAt(tags, v, a)} :: a in tags ==> ChainAt(tags, v, a)
  }

  /** The lists are doubly linked, starting at heads; tag x may be in transit. */
  ghost predicate LinksOk(tags: Tags, v: View, heads: seq<Tag?>, ls: seq<seq<int>>, x: int) {
    && Named(tags, v)
    && |ls| == CLASSES == |heads|
    && (forall i, k {:trigger ListAt(tags, v, ls, i, k)} :: 0 <= i < CLASSES && 0 <= k < |ls[i]| ==> ListAt(tags, v, ls, i, k))
    && (forall i {:trigger HeadAt(tags, heads, ls, i)} :: 0 <= i < CLASSES ==> HeadAt(tags, heads, ls, i))
    && (forall i {:trigger ls[i]} :: 0 <= i < CLASSES ==> NoDup(ls[i]))
    && (forall a {:trigger LooseAt(v, ls, a)} :: a in tags && a != x ==> LooseAt(v, ls, a))
  }

  ghost predicate SameChains(v: View, w: View) {
    && v.Keys == w.Keys
    && forall a {:trigger w[a]} :: a in v ==>
         w[a].magic == v[a].magic && w[a].realSize == v[a].realSize && w[a].splitLeft == v[a].splitLeft && w[a].splitRight == v[a].splitRight
  }

  ghost predicate SameLinks(v: View, w: View) {
    && v.Keys == w.Keys
    && forall a {:trigger w[a]} :: a in v ==>
         w[a].index == v[a].index && w[a].next == v[a].next && w[a].prev == v[a].prev
  }

  lemma ChainsFrame(tags: Tags, v: View, w: View)
    requires ChainsOk(tags, v) && SameChains(v, w)
    ensures ChainsOk(tags, w)
  {
    forall a | a in tags ensures ChainAt(tags, w, a) {
      assert ChainAt(tags, v, a);
    }
  }

  lemma LinksFrame(tags: Tags, v: View, w: View, heads: seq<Tag?>, ls: seq<seq<int>>, x: int)
    requires LinksOk(tags, v, heads, ls, x) && SameLinks(v, w)
    ensures LinksOk(tags, w, heads, ls, x)
  {
    forall i, k | 0 <= i < CLASSES && 0 <= k < |ls[i]| ensures ListAt(tags, w, ls, i, k) {
      assert ListAt(tags, v, ls, i, k);
    }
    forall i | 0 <= i < CLASSES ensures HeadAt(tags, heads, ls, i) {
    }
    forall a | a in tags && a != x ensures LooseAt(w, ls, a) {
      assert LooseAt(v, ls, a);
    }
  }

  /** The chunks that tags stand for. */
  ghost function ChunksOf(tags: Tags, v: View): Chunks
    requires tags.Keys == v.Keys
  {
    map a | a in tags :: Chunk(tags[a].base, tags[a].limit, v[a].realSize, v[a].index >= 0)
  }

  lemma ChunkAt(tags: Tags, v: View, a: int)
    requires tags.Keys == v.Keys && a in tags
    ensures a in ChunksOf(tags, v) && ChunksOf(tags, v)[a] == Chunk(tags[a].base, tags[a].limit, v[a].realSize, v[a].index >= 0)
  {
  }

  function SizesOf(v: View): (sizes: map<int, int>)
    ensures sizes.Keys == v.Keys
  {
    map a | a in v :: v[a].size
  }

  /** Writes that leave sizes and split links alone and change one index. */
  lemma OneFlag(tags: Tags, v: View, w: View, a: int, free: bool)
    requires ChainsOk(tags, v) && a in v && w.Keys == v.Keys
    requires forall b {:trigger w[b]} :: b in v ==>
      w[b] == v[b].(index := if b == a then w[a].index else v[b].index, next := w[b].next, prev := w[b].prev)
    requires free <==> w[a].index >= 0
    ensures ChainsOk(tags, w)
    ensures SizesOf(w) == SizesOf(v)
    ensures ChunksOf(tags, w) == ChunksOf(tags, v)[a := ChunksOf(tags, v)[a].(free := free)]
  {
    ChainsFrame(tags, v, w);
  }

  // ---------------------------------------------------------------- stores to one field

  ghost function WithIndex(v: View, t: Tag, x: int): (w: View)
    requires t.addr in v
    ensures w.Keys == v.Keys
  {
    v[t.addr := v[t.addr].(index := x)]
  }

  ghost function WithSize(v: View, t: Tag, x: int): (w: View)
    requires t.addr in v
    ensures w.Keys == v.Keys
  {
    v[t.addr := v[t.addr].(size := x)]
  }

  ghost function WithRealSize(v: View, t: Tag, x: int): (w: View)
    requires t.addr in v
    ensures w.Keys == v.Keys
  {
    v[t.addr := v[t.addr].(realSize := x)]
  }

  ghost function WithSplitLeft(v: View, t: Tag, x: Tag?): (w: View)
    requires t.addr in v
    ensures w.Keys == v.Keys
  {
    v[t.addr := v[t.addr].(splitLeft := x)]
  }

  ghost function WithSplitRight(v: View, t: Tag, x: Tag?): (w: View)
    requires t.addr in v
    ensures w.Keys == v.Keys
  {
    v[t.addr := v[t.addr].(splitRight := x)]
  }

  ghost function WithNext(v: View, t: Tag, x: Tag?): (w: View)
    requires t.addr in v
    ensures w.Keys == v.Keys
  {
    v[t.addr := v[t.addr].(next := x)]
  }

  ghost function WithPrev(v: View, t: Tag, x: Tag?): (w: View)
    requires t.addr in v
    ensures w.Keys == v.Keys
  {
    v[t.addr := v[t.addr].(prev := x)]
  }

  // ---------------------------------------------------------------- insert_tag

  /** What insert_tag writes: tag t in front of list i. */
  ghost function Inserted(v: View, t: Tag, i: int, head: Tag?): View
    requires t.addr in v && (head != null ==> head.addr in v)
  {
    var w := WithIndex(v, t, i);
    if head == null then w else WithNext(WithPrev(w, head, t), t, head)
  }

  lemma InsertedLinks(tags: Tags, v: View, heads: seq<Tag?>, ls: seq<seq<int>>, t: Tag, i: int)
    requires LinksOk(tags, v, heads, ls, t.addr) && At(tags, t.addr) == t
    requires 0 <= i < CLASSES && forall j :: 0 <= j < CLASSES ==> t.addr !in ls[j]
    requires v[t.addr].next == null && v[t.addr].prev == null
    ensures heads[i] != null ==> heads[i].addr in v && heads[i] != t && tags[heads[i].addr] == heads[i]
    ensures LinksOk(tags, Inserted(v, t, i, heads[i]), heads[i := t], ls[i := [t.addr] + ls[i]], 0)
  {
    assert HeadAt(tags, heads, ls, i);
    if ls[i] != [] { assert ListAt(tags, v, ls, i, 0); }
    var w, ms := Inserted(v, t, i, heads[i]), ls[i := [t.addr] + ls[i]];
    forall j, k | 0 <= j < CLASSES && 0 <= k < |ms[j]| ensures ListAt(tags, w, ms, j, k) {
      if j != i {
        assert ListAt(tags, v, ls, j, k);
        assert ls[j][k] in ls[j];
      } else if k > 0 {
        assert ListAt(tags, v, ls, i, k - 1);
        assert ls[i][k - 1] in ls[i];
      }
    }
    var hs := heads[i := t];
    forall j | 0 <= j < CLASSES ensures HeadAt(tags, hs, ms, j) {
      assert HeadAt(tags, heads, ls, j);
    }
    forall a | a in tags ensures LooseAt(w, ms, a) {
      assert a != t.addr ==> LooseAt(v, ls, a);
    }
  }

  lemma InsertedChunks(tags: Tags, v: View, t: Tag, i: int, head: Tag?)
    requires ChainsOk(tags, v) && At(tags, t.addr) == t && i >= 0
    requires head != null ==> head.addr in v && head != t && tags[head.addr] == head
    ensures ChainsOk(tags, Inserted(v, t, i, head))
    ensures SizesOf(Inserted(v, t, i, head)) == SizesOf(v)
    ensures ChunksOf(tags, Inserted(v, t, i, head)) == ChunksOf(tags, v)[t.addr := ChunksOf(tags, v)[t.addr].(free := true)]
  {
    var w := Inserted(v, t, i, head);
    forall a | a in v ensures w[a] == v[a].(index := if a == t.addr then i else v[a].index, next := w[a].next, prev := w[a].prev) {
    }
    hide Inserted;
    OneFlag(tags, v, w, t.addr, true);
  }

  // ---------------------------------------------------------------- remove_tag

  /** What remove_tag writes to the neighbours of t. */
  ghost function Bypassed(v: View, t: Tag): (w: View)
    requires t.addr in v
    requires v[t.addr].prev != null ==> v[t.addr].prev.addr in v
    requires v[t.addr].next != null ==> v[t.addr].next.addr in v
    ensures w.Keys == v.Keys
  {
    var f := v[t.addr];
    var w := if f.prev != null then WithNext(v, f.prev, f.next) else v;
    if f.next != null then WithPrev(w, f.next, f.prev) else w
  }

  /** What remove_tag writes. */
  ghost function Removed(v: View, t: Tag): View
    requires t.addr in v
    requires v[t.addr].prev != null ==> v[t.addr].prev.addr in v
    requires v[t.addr].next != null ==> v[t.addr].next.addr in v
  {
    var w := Bypassed(v, t);
    WithIndex(WithPrev(WithNext(w, t, null), t, null), t, -1)
  }

  /** A listed tag's place, and its neighbours there. */
  lemma ListPlace(tags: Tags, v: View, heads: seq<Tag?>, ls: seq<seq<int>>, x: int, t: Tag) returns (k: int)
    requires LinksOk(tags, v, heads, ls, x) && At(tags, t.addr) == t && t.addr != x && v[t.addr].index >= 0
    ensures 0 <= v[t.addr].index < CLASSES
    ensures var i := v[t.addr].index; 0 <= k < |ls[i]| && ls[i][k] == t.addr
    ensures var f, l := v[t.addr], ls[v[t.addr].index];
      && (if k > 0 then l[k - 1] in tags && f.prev == tags[l[k - 1]] else f.prev == null)
      && (if k + 1 < |l| then l[k + 1] in tags && f.next == tags[l[k + 1]] else f.next == null)
  {
    assert LooseAt(v, ls, t.addr);
    var i := v[t.addr].index;
    k :| 0 <= k < |ls[i]| && ls[i][k] == t.addr;
    assert ListAt(tags, v, ls, i, k);
    if k > 0 { assert ListAt(tags, v, ls, i, k - 1); }
    if k + 1 < |ls[i]| { assert ListAt(tags, v, ls, i, k + 1); }
  }

  lemma RemovedHeads(tags: Tags, v: View, heads: seq<Tag?>, ls: seq<seq<int>>, t: Tag, k: int)
    requires LinksOk(tags, v, heads, ls, NOWHERE) && At(tags, t.addr) == t && 0 <= v[t.addr].index < CLASSES
    requires 0 <= k < |ls[v[t.addr].index]| && ls[v[t.addr].index][k] == t.addr
    ensures var i := v[t.addr].index;
      var hs := heads[i := if heads[i] == t then v[t.addr].next else heads[i]];
      forall j {:trigger HeadAt(tags, hs, ls[i := ls[i][..k] + ls[i][k + 1..]], j)} :: 0 <= j < CLASSES ==>
        HeadAt(tags, hs, ls[i := ls[i][..k] + ls[i][k + 1..]], j)
  {
    var i := v[t.addr].index;
    var ms := ls[i := ls[i][..k] + ls[i][k + 1..]];
    var hs := heads[i := if heads[i] == t then v[t.addr].next else heads[i]];
    assert ListAt(tags, v, ls, i, k);
    forall j | 0 <= j < CLASSES ensures HeadAt(tags, hs, ms, j) {
      assert HeadAt(tags, heads, ls, j);
      if j == i && k > 0 { assert ls[i][0] != t.addr; assert ListAt(tags, v, ls, i, 0); }
    }
  }

  lemma RemovedLoose(tags: Tags, v: View, heads: seq<Tag?>, ls: seq<seq<int>>, t: Tag, k: int)
    requires LinksOk(tags, v, heads, ls, NOWHERE) && At(tags, t.addr) == t && 0 <= v[t.addr].index < CLASSES
    requires 0 <= k < |ls[v[t.addr].index]| && ls[v[t.addr].index][k] == t.addr
    requires v[t.addr].prev != null ==> v[t.addr].prev.addr in v && tags[v[t.addr].prev.addr] == v[t.addr].prev
    requires v[t.addr].next != null ==> v[t.addr].next.addr in v && tags[v[t.addr].next.addr] == v[t.addr].next
    ensures var i := v[t.addr].index;
      var ms := ls[i := ls[i][..k] + ls[i][k + 1..]];
      forall a {:trigger LooseAt(Removed(v, t), ms, a)} :: a in tags && a != NOWHERE ==> LooseAt(Removed(v, t), ms, a)
  {
    var i := v[t.addr].index;
    var w, ms := Removed(v, t), ls[i := ls[i][..k] + ls[i][k + 1..]];
    WithoutAt(ls[i], k);
    WithoutMember(ls[i], t.addr);
    assert ListAt(tags, v, ls, i, k);
    assert k > 0 ==> ListAt(tags, v, ls, i, k - 1);
    assert k + 1 < |ls[i]| ==> ListAt(tags, v, ls, i, k + 1);
    forall a | a in tags && a != NOWHERE ensures LooseAt(w, ms, a) {
      assert LooseAt(v, ls, a);
    }
  }

  lemma RemovedLinks(tags: Tags, v: View, heads: seq<Tag?>, ls: seq<seq<int>>, t: Tag)
    requires LinksOk(tags, v, heads, ls, NOWHERE) && At(tags, t.addr) == t && t.addr != NOWHERE && v[t.addr].index >= 0
    ensures 0 <= v[t.addr].index < CLASSES
    ensures v[t.addr].prev != null ==> v[t.addr].prev.addr in v && tags[v[t.addr].prev.addr] == v[t.addr].prev
    ensures v[t.addr].next != null ==> v[t.addr].next.addr in v && tags[v[t.addr].next.addr] == v[t.addr].next
    ensures var i := v[t.addr].index;
      var hs := heads[i := if heads[i] == t then v[t.addr].next else heads[i]];
      && LinksOk(tags, Removed(v, t), hs, ls[i := Without(ls[i], t.addr)], NOWHERE)
      && SameChains(v, Removed(v, t))
  {
    hide HeadAt;
    hide LooseAt;
    hide Without;
    var k := ListPlace(tags, v, heads, ls, NOWHERE, t);
    var i := v[t.addr].index;
    WithoutAt(ls[i], k);
    var ms := ls[i := ls[i][..k] + ls[i][k + 1..]];
    var hs := heads[i := if heads[i] == t then v[t.addr].next else heads[i]];
    var w := Removed(v, t);
    WithoutMember(ls[i], t.addr);
    assert k > 0 ==> ListAt(tags, v, ls, i, k - 1);
    assert k + 1 < |ls[i]| ==> ListAt(tags, v, ls, i, k + 1);
    forall j, n | 0 <= j < CLASSES && 0 <= n < |ms[j]| ensures ListAt(tags, w, ms, j, n) {
      RemovedAt(tags, v, heads, ls, t, k, j, n);
    }
    RemovedHeads(tags, v, heads, ls, t, k);
    RemovedLoose(tags, v, heads, ls, t, k);
  }

  lemma RemovedChunks(tags: Tags, v: View, t: Tag)
    requires ChainsOk(tags, v) && At(tags, t.addr) == t
    requires v[t.addr].prev != null ==> v[t.addr].prev.addr in v
    requires v[t.addr].next != null ==> v[t.addr].next.addr in v
    ensures ChainsOk(tags, Removed(v, t)) && Removed(v, t)[t.addr].index == -1
    ensures SizesOf(Removed(v, t)) == SizesOf(v)
    ensures ChunksOf(tags, Removed(v, t)) == ChunksOf(tags, v)[t.addr := ChunksOf(tags, v)[t.addr].(free := false)]
  {
    BypassedLinksOnly(v, t);
    var u, w := Bypassed(v, t), Removed(v, t);
    hide Bypassed;
    forall a | a in v ensures w[a] == v[a].(index := if a == t.addr then -1 else v[a].index, next := w[a].next, prev := w[a].prev) {
      assert u[a] == v[a].(next := u[a].next, prev := u[a].prev);
    }
    hide Removed;
    OneFlag(tags, v, w, t.addr, false);
  }

  lemma BypassedLinksOnly(v: View, t: Tag)
    requires t.addr in v
    requires v[t.addr].prev != null ==> v[t.addr].prev.addr in v
    requires v[t.addr].next != null ==> v[t.addr].next.addr in v
    ensures var u := Bypassed(v, t); forall a :: a in v ==> u[a] == v[a].(next := u[a].next, prev := u[a].prev)
  {
  }

  lemma RemovedAt(tags: Tags, v: View, heads: seq<Tag?>, ls: seq<seq<int>>, t: Tag, k: int, j: int, n: int)
    requires LinksOk(tags, v, heads, ls, NOWHERE) && At(tags, t.addr) == t
    requires 0 <= v[t.addr].index < CLASSES && 0 <= j < CLASSES
    requires 0 <= k < |ls[v[t.addr].index]| && ls[v[t.addr].index][k] == t.addr
    requires v[t.addr].prev != null ==> v[t.addr].prev.addr in v
    requires v[t.addr].next != null ==> v[t.addr].next.addr in v
    requires var i := v[t.addr].index;
      0 <= n < |ls[i := ls[i][..k] + ls[i][k + 1..]][j]|
    ensures var i := v[t.addr].index;
      ListAt(tags, Removed(v, t), ls[i := ls[i][..k] + ls[i][k + 1..]], j, n)
  {
    var i := v[t.addr].index;
    var l := ls[i];
    assert ListAt(tags, v, ls, i, k);
    if k > 0 { assert ListAt(tags, v, ls, i, k - 1); }
    if k + 1 < |l| { assert ListAt(tags, v, ls, i, k + 1); }
    if j != i {
      assert ListAt(tags, v, ls, j, n);
    } else {
      var o := if n < k then n else n + 1;
      assert ListAt(tags, v, ls, i, o);
      assert (l[..k] + l[k + 1..])[n] == l[o];
    }
  }

  lemma NotListed(tags: Tags, v: View, heads: seq<Tag?>, ls: seq<seq<int>>, x: int, a: int)
    requires LinksOk(tags, v, heads, ls, x) && (a in v ==> v[a].index < 0)
    ensures forall j :: 0 <= j < CLASSES ==> a !in ls[j]
  {
    forall j | 0 <= j < CLASSES ensures a !in ls[j] {
      forall k | 0 <= k < |ls[j]| ensures ls[j][k] != a {
        assert ListAt(tags, v, ls, j, k);
      }
    }
  }

  /** A tag in hand is linked to nothing and ready to be inserted. */
  lemma Unlinked(tags: Tags, v: View, heads: seq<Tag?>, ls: seq<seq<int>>, a: int)
    requires LinksOk(tags, v, heads, ls, NOWHERE) && NOWHERE !in tags && a in tags && v[a].index < 0
    ensures v[a].next == null && v[a].prev == null && v[a].index == -1
    ensures LinksOk(tags, v, heads, ls, a)
    ensures forall j :: 0 <= j < CLASSES ==> a !in ls[j]
  {
    assert LooseAt(v, ls, a);
    NotListed(tags, v, heads, ls, NOWHERE, a);
  }

  // ---------------------------------------------------------------- melting and splitting

  /** What melt_left and absorb_right write: tag t takes over the bytes and the
      right neighbour of the tag at b. */
  ghost function Grown(v: View, t: Tag, b: int): (w: View)
    requires t.addr in v && b in v
    requires v[b].splitRight != null ==> v[b].splitRight.addr in v
    ensures w.Keys == v.Keys
  {
    var r := v[b].splitRight;
    var w := WithSplitRight(WithRealSize(v, t, v[t.addr].realSize + v[b].realSize), t, r);
    if r != null then WithSplitLeft(w, r, t) else w
  }

  /** The same, with the memory of the tag at b a tag no more. */
  ghost function Joined(v: View, t: Tag, b: int): View
    requires t.addr in v && b in v
    requires v[b].splitRight != null ==> v[b].splitRight.addr in v
  {
    Grown(v, t, b) - {b}
  }

  lemma RightOf(tags: Tags, v: View, a: int)
    requires ChainsOk(tags, v) && a in tags
    ensures var r := v[a].splitRight;
      if r == null then a + v[a].realSize == tags[a].limit
      else
        && r.addr == a + v[a].realSize && At(tags, r.addr) == r
        && v[r.addr].splitLeft == tags[a] && SameTagBlock(r, tags[a]) && a < r.addr
    ensures var l := v[a].splitLeft;
      if l == null then a == tags[a].base
      else LeftAt(tags, v, l.addr, a, l) && l.addr < a && tags[a].base < a
  {
    assert ChainAt(tags, v, a);
    if v[a].splitLeft != null { assert ChainAt(tags, v, v[a].splitLeft.addr); }
  }

  lemma JoinedChains(tags: Tags, v: View, t: Tag, b: int)
    requires ChainsOk(tags, v) && At(tags, t.addr) == t && b in tags && v[t.addr].splitRight == tags[b]
    ensures t.addr + v[t.addr].realSize == b && t.addr < b && SameTagBlock(t, tags[b]) && v[b].splitLeft == t
    ensures v[b].splitRight != null ==> v[b].splitRight.addr in v && At(tags, v[b].splitRight.addr) == v[b].splitRight && b < v[b].splitRight.addr
    ensures ChainsOk(tags - {b}, Joined(v, t, b))
  {
    RightOf(tags, v, t.addr);
    RightOf(tags, v, b);
    var w := Joined(v, t, b);
    forall c | c in tags - {b} ensures ChainAt(tags - {b}, w, c) {
      assert ChainAt(tags, v, c);
      assert ChainAt(tags, v, t.addr) && ChainAt(tags, v, b);
    }
  }

  lemma JoinedChunks(tags: Tags, v: View, t: Tag, b: int)
    requires tags.Keys == v.Keys && At(tags, t.addr) == t && b in tags && t.addr != b
    requires v[b].splitRight != null ==> v[b].splitRight.addr in v && v[b].splitRight.addr != b
    ensures ChunksOf(tags - {b}, Joined(v, t, b)) == Merge(ChunksOf(tags, v), t.addr, b)
    ensures SizesOf(Joined(v, t, b)) == SizesOf(v) - {b}
    ensures Joined(v, t, b)[t.addr].index == v[t.addr].index
  {
    var w := Grown(v, t, b);
    forall a | a in v ensures w[a].size == v[a].size && w[a].index == v[a].index && (a != t.addr ==> w[a].realSize == v[a].realSize) {
    }
    assert w[t.addr].realSize == v[t.addr].realSize + v[b].realSize;
    hide Grown;
  }

  lemma JoinedLinks(tags: Tags, v: View, heads: seq<Tag?>, ls: seq<seq<int>>, t: Tag, b: int)
    requires LinksOk(tags, v, heads, ls, NOWHERE) && t.addr in v && b in v && v[b].index < 0 && t.addr != b
    requires v[b].splitRight != null ==> v[b].splitRight.addr in v && v[b].splitRight.addr != b
    ensures LinksOk(tags - {b}, Joined(v, t, b), heads, ls, NOWHERE)
  {
    GoneLinks(tags, v, heads, ls, b);
    LinksFrame(tags - {b}, v - {b}, Joined(v, t, b), heads, ls, NOWHERE);
  }

  /** What split_tag writes to the neighbours of the new tag n. */
  ghost function Relinked(v: View, t: Tag, n: Tag): (w: View)
    requires t.addr in v && n.addr in v
    requires v[n.addr].splitRight != null ==> v[n.addr].splitRight.addr in v
    ensures w.Keys == v.Keys
  {
    var r := v[n.addr].splitRight;
    var w := if r != null then WithSplitLeft(v, r, n) else v;
    WithRealSize(WithSplitRight(w, t, n), t, v[t.addr].realSize - v[n.addr].realSize)
  }

  /** What split_tag writes before it inserts the new tag n, with contents f, cut
      off the end of t. */
  ghost function Cut(v: View, t: Tag, n: Tag, f: Fields): View
    requires t.addr in v && (f.splitRight != null ==> f.splitRight.addr in v)
  {
    Relinked(v[n.addr := f], t, n)
  }

  lemma CutChains(tags: Tags, v: View, t: Tag, n: Tag, f: Fields)
    requires ChainsOk(tags, v) && At(tags, t.addr) == t && n.addr !in tags && SameTagBlock(n, t)
    requires f.magic == MAGIC && f.splitLeft == t && f.splitRight == v[t.addr].splitRight
    requires n.addr + f.realSize == t.addr + v[t.addr].realSize
    requires HEADER <= f.realSize <= v[t.addr].realSize - HEADER
    ensures f.splitRight != null ==> f.splitRight.addr in v
    ensures ChainsOk(tags[n.addr := n], Cut(v, t, n, f))
  {
    RightOf(tags, v, t.addr);
    var us, w := tags[n.addr := n], Cut(v, t, n, f);
    assert ChainAt(tags, v, t.addr);
    forall c | c in us ensures ChainAt(us, w, c) {
      if c != n.addr {
        assert ChainAt(tags, v, c);
        RightOf(tags, v, c);
      }
    }
  }

  /** The sizes and the index of a tag after a split. */
  lemma CutFields(v: View, t: Tag, n: Tag, f: Fields, c: int)
    requires t.addr in v && n.addr !in v && (f.splitRight != null ==> f.splitRight.addr in v)
    requires f.splitRight == v[t.addr].splitRight && (c in v || c == n.addr)
    ensures var w := Cut(v, t, n, f);
      && w.Keys == v.Keys + {n.addr}
      && w[c].size == (if c == n.addr then f.size else v[c].size)
      && w[c].index == (if c == n.addr then f.index else v[c].index)
      && w[c].realSize == if c == n.addr then f.realSize else if c == t.addr then v[c].realSize - f.realSize else v[c].realSize
  {
  }

  lemma CutSizes(v: View, t: Tag, n: Tag, f: Fields)
    requires t.addr in v && n.addr !in v && (f.splitRight != null ==> f.splitRight.addr in v)
    requires f.splitRight == v[t.addr].splitRight
    ensures SizesOf(Cut(v, t, n, f)) == SizesOf(v)[n.addr := f.size]
  {
    hide Cut;
    CutFields(v, t, n, f, t.addr);
    forall c | c in v || c == n.addr ensures SizesOf(Cut(v, t, n, f))[c] == SizesOf(v)[n.addr := f.size][c] {
      CutFields(v, t, n, f, c);
    }
  }

  lemma DivideAt(m: Chunks, a: int, x: int, rest: Chunk)
    requires a in m && x !in m
    ensures var n := Divide(m, a, x - a)[x := rest];
      && n.Keys == m.Keys + {x} && n[x] == rest && n[a] == m[a].(len := x - a)
      && forall c {:trigger n[c]} :: c in m && c != a ==> n[c] == m[c]
  {
  }

  lemma CutChunks(tags: Tags, v: View, t: Tag, n: Tag, f: Fields)
    requires tags.Keys == v.Keys && At(tags, t.addr) == t && n.addr !in tags && SameTagBlock(n, t)
    requires f.splitRight == v[t.addr].splitRight && (f.splitRight != null ==> f.splitRight.addr in v)
    requires n.addr + f.realSize == t.addr + v[t.addr].realSize
    ensures ChunksOf(tags[n.addr := n], Cut(v, t, n, f)) ==
      Divide(ChunksOf(tags, v), t.addr, n.addr - t.addr)[n.addr := Chunk(t.base, t.limit, f.realSize, f.index >= 0)]
    ensures SizesOf(Cut(v, t, n, f)) == SizesOf(v)[n.addr := f.size]
  {
    var us, w := tags[n.addr := n], Cut(v, t, n, f);
    CutFields(v, t, n, f, t.addr);
    CutSizes(v, t, n, f);
    hide Cut;
    var was := ChunksOf(tags, v);
    var m := Divide(was, t.addr, n.addr - t.addr)[n.addr := Chunk(t.base, t.limit, f.realSize, f.index >= 0)];
    DivideAt(was, t.addr, n.addr, Chunk(t.base, t.limit, f.realSize, f.index >= 0));
    hide Divide, SizesOf;
    forall c | c in us ensures c in m && ChunksOf(us, w)[c] == m[c] {
      CutFields(v, t, n, f, c);
      ChunkAt(us, w, c);
      if c in tags { ChunkAt(tags, v, c); }
    }
    assert ChunksOf(us, w).Keys == m.Keys;
  }

  /** A tag that is on no list joins the tags. */
  lemma AddedLinks(tags: Tags, v: View, heads: seq<Tag?>, ls: seq<seq<int>>, n: Tag, w: View)
    requires LinksOk(tags, v, heads, ls, NOWHERE) && NOWHERE !in tags
    requires n.addr !in tags && w.Keys == v.Keys + {n.addr}
    requires forall a {:trigger w[a]} :: a in v ==>
      w[a].index == v[a].index && w[a].next == v[a].next && w[a].prev == v[a].prev
    ensures LinksOk(tags[n.addr := n], w, heads, ls, n.addr)
    ensures forall j :: 0 <= j < CLASSES ==> n.addr !in ls[j]
  {
    NotListed(tags, v, heads, ls, NOWHERE, n.addr);
    var us := tags[n.addr := n];
    forall i, k | 0 <= i < CLASSES && 0 <= k < |ls[i]| ensures ListAt(us, w, ls, i, k) {
      assert ListAt(tags, v, ls, i, k);
      assert ls[i][k] in ls[i];
      if k > 0 { assert ls[i][k - 1] in ls[i]; }
      if k + 1 < |ls[i]| { assert ls[i][k + 1] in ls[i]; }
    }
    forall i | 0 <= i < CLASSES ensures HeadAt(us, heads, ls, i) {
      assert HeadAt(tags, heads, ls, i);
      if ls[i] != [] { assert ls[i][0] in ls[i]; }
    }
    forall a | a in us && a != n.addr ensures LooseAt(w, ls, a) {
      assert LooseAt(v, ls, a);
    }
  }

  lemma NewChains(tags: Tags, v: View, n: Tag, f: Fields)
    requires ChainsOk(tags, v) && n.addr !in tags
    requires n.addr == n.base && n.base + f.realSize == n.limit && HEADER <= f.realSize
    requires f.magic == MAGIC && f.splitLeft == null && f.splitRight == null
    ensures ChainsOk(tags[n.addr := n], v[n.addr := f])
  {
    var us, w := tags[n.addr := n], v[n.addr := f];
    forall c | c in us ensures ChainAt(us, w, c) {
      if c != n.addr {
        assert ChainAt(tags, v, c);
      }
    }
  }

  /** A tag for a whole block joins the tags. */
  lemma NewOk(tags: Tags, v: View, heads: seq<Tag?>, ls: seq<seq<int>>, n: Tag, f: Fields)
    requires ChainsOk(tags, v) && LinksOk(tags, v, heads, ls, NOWHERE) && NOWHERE !in tags && n.addr !in tags
    requires n.addr == n.base && n.base + f.realSize == n.limit && HEADER <= f.realSize
    requires f.magic == MAGIC && f.splitLeft == null && f.splitRight == null
    requires f.index == -1 && f.next == null && f.prev == null
    ensures ChainsOk(tags[n.addr := n], v[n.addr := f])
    ensures LinksOk(tags[n.addr := n], v[n.addr := f], heads, ls, NOWHERE)
    ensures ChunksOf(tags[n.addr := n], v[n.addr := f]) == ChunksOf(tags, v)[n.addr := Chunk(n.base, n.limit, f.realSize, false)]
    ensures SizesOf(v[n.addr := f]) == SizesOf(v)[n.addr := f.size]
  {
    NewChains(tags, v, n, f);
    AddedLinks(tags, v, heads, ls, n, v[n.addr := f]);
  }

  /** A tag that is alone in its block leaves the tags. */
  lemma GoneChains(tags: Tags, v: View, a: int)
    requires ChainsOk(tags, v) && a in tags && v[a].splitLeft == null && v[a].splitRight == null
    ensures ChainsOk(tags - {a}, v - {a})
  {
    RightOf(tags, v, a);
    forall c | c in tags - {a} ensures ChainAt(tags - {a}, v - {a}, c) {
      assert ChainAt(tags, v, c);
      RightOf(tags, v, c);
    }
  }

  lemma GoneLinks(tags: Tags, v: View, heads: seq<Tag?>, ls: seq<seq<int>>, a: int)
    requires LinksOk(tags, v, heads, ls, NOWHERE) && a in tags && v[a].index < 0
    ensures LinksOk(tags - {a}, v - {a}, heads, ls, NOWHERE)
  {
    NotListed(tags, v, heads, ls, NOWHERE, a);
    var us, w := tags - {a}, v - {a};
    forall i, k | 0 <= i < CLASSES && 0 <= k < |ls[i]| ensures ListAt(us, w, ls, i, k) {
      assert ListAt(tags, v, ls, i, k);
      assert ls[i][k] in ls[i];
      if k > 0 { assert ls[i][k - 1] in ls[i]; }
      if k + 1 < |ls[i]| { assert ls[i][k + 1] in ls[i]; }
    }
    forall i | 0 <= i < CLASSES ensures HeadAt(us, heads, ls, i) {
      assert HeadAt(tags, heads, ls, i);
      if ls[i] != [] { assert ls[i][0] in ls[i]; }
    }
    forall b | b in us && b != NOWHERE ensures LooseAt(w, ls, b) {
      assert LooseAt(v, ls, b);
    }
  }

  lemma CutLinks(tags: Tags, v: View, heads: seq<Tag?>, ls: seq<seq<int>>, t: Tag, n: Tag, f: Fields)
    requires LinksOk(tags, v, heads, ls, NOWHERE) && NOWHERE !in tags && n.addr !in tags && t.addr in v
    requires f.splitRight != null ==> f.splitRight.addr in v
    ensures LinksOk(tags[n.addr := n], Cut(v, t, n, f), heads, ls, n.addr)
    ensures forall j :: 0 <= j < CLASSES ==> n.addr !in ls[j]
  {
    AddedLinks(tags, v, heads, ls, n, Cut(v, t, n, f));
  }

  /** A store to the size field. */
  lemma SizeOnly(tags: Tags, v: View, heads: seq<Tag?>, ls: seq<seq<int>>, t: Tag, x: int)
    requires ChainsOk(tags, v) && LinksOk(tags, v, heads, ls, NOWHERE) && t.addr in v
    ensures ChainsOk(tags, WithSize(v, t, x)) && LinksOk(tags, WithSize(v, t, x), heads, ls, NOWHERE)
    ensures ChunksOf(tags, WithSize(v, t, x)) == ChunksOf(tags, v)
    ensures SizesOf(WithSize(v, t, x)) == SizesOf(v)[t.addr := x]
  {
    ChainsFrame(tags, v, WithSize(v, t, x));
    LinksFrame(tags, v, WithSize(v, t, x), heads, ls, NOWHERE);
  }

  /** The split links of a tag say whether its chunk is a whole block. */
  lemma WholeTag(tags: Tags, v: View, a: int)
    requires ChainsOk(tags, v) && a in tags
    ensures Whole(ChunksOf(tags, v), a) <==> v[a].splitLeft == null && v[a].splitRight == null
  {
    RightOf(tags, v, a);
    assert ChainAt(tags, v, a);
  }

  /** The split links of a tag find the free neighbours of its chunk. */
  lemma FreeNeighbours(tags: Tags, v: View, a: int)
    requires ChainsOk(tags, v) && a in tags && ChunksOk(ChunksOf(tags, v))
    ensures var m, l := ChunksOf(tags, v), v[a].splitLeft;
      && (l != null ==> l.addr in v && At(tags, l.addr) == l && l.addr != a)
      && FindLeftFree(m, a) == if l != null && v[l.addr].index >= 0 then Some(l.addr) else None
    ensures var m, r := ChunksOf(tags, v), v[a].splitRight;
      && (r != null ==> r.addr in v && At(tags, r.addr) == r && r.addr == a + m[a].len)
      && (RightFree(m, a) <==> r != null && v[r.addr].index >= 0)
  {
    var m := ChunksOf(tags, v);
    RightOf(tags, v, a);
    assert ChainAt(tags, v, a);
    var found := FindLeftFree(m, a);
    if found.Some? {
      OnlyLeft(tags, v, a, found.value);
    } else if v[a].splitLeft != null {
      assert !LeftFree(m, v[a].splitLeft.addr, a);
    }
  }

  /** A listed tag's index is the class of its chunk. */
  lemma IndexIsClass(tags: Tags, v: View, heads: seq<Tag?>, ls: seq<seq<int>>, a: int)
    requires LinksOk(tags, v, heads, ls, NOWHERE) && a in tags && v[a].index >= 0
    requires ListsOk(ChunksOf(tags, v), ls)
    ensures v[a].index == ClassOf(ChunksOf(tags, v)[a])
  {
    var m := ChunksOf(tags, v);
    assert InItsList(m, ls, a);
    var k :| 0 <= k < |ls[ClassOf(m[a])]| && ls[ClassOf(m[a])][k] == a;
    assert ListAt(tags, v, ls, ClassOf(m[a]), k);
  }

  lemma OnlyLeft(tags: Tags, v: View, a: int, p: int)
    requires ChainsOk(tags, v) && a in tags && ChunksOk(ChunksOf(tags, v))
    requires p in tags && IsLeft(ChunksOf(tags, v), p, a)
    ensures v[a].splitLeft != null && v[a].splitLeft.addr == p
  {
    RightOf(tags, v, p);
    assert ChainAt(tags, v, p);
    assert ChainAt(tags, v, a);
  }
}
