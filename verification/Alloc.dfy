/** The allocator of alloc.c: malloc, free and realloc over linked tags. */
module Alloc {
  import opened AllocSpec
  import opened AllocProofs
  import opened AllocTags
  import Calls = AllocRuns
  import Meaning = AllocMeaning

  const U32_RANGE := 0x1_0000_0000

  type Byte = b: int | 0 <= b < 256

  /** Conversion to `unsigned int`. */
  function U32(x: int): int {
    x % U32_RANGE
  }

  /** Conversion of an `unsigned int` to `int`. */
  function I32(x: int): int {
    if x < MAX_BLOCK then x else x - U32_RANGE
  }

  lemma ConversionsId(x: int)
    requires -MAX_BLOCK <= x < MAX_BLOCK
    ensures I32(U32(x)) == x
    ensures 0 <= x ==> U32(x) == x
  {
  }

  /** The exponent n with 2^n <= size < 2^(n+1), or -1 below 2^MINEXP. */
  method GetExp(size: int) returns (r: int)
    requires 0 <= size < U32_RANGE
    ensures size < 256 ==> r == -1
    ensures size >= 256 ==> MIN_CLASS <= r < CLASSES && Pow2(r) <= size < Pow2(r + 1)
    ensures size >= 256 ==> r == SizeClass(size)
  {
    assert Pow2(8) == 256;
    if size < 256 {
      return -1;
    }
    var shift := MIN_CLASS;
    while shift < CLASSES
      invariant MIN_CLASS <= shift <= CLASSES
      invariant Pow2(shift - 1) <= size
    {
      if Pow2(shift) > size {
        break;
      }
      shift := shift + 1;
    }
    assert Pow2(16) == 0x1_0000;
    assert Pow2(24) == 0x100_0000;
    assert Pow2(32) == U32_RANGE;
    r := shift - 1;
    Log2Unique(size, r);
  }

  lemma Log2Unique(n: nat, r: nat)
    requires n >= 1 && Pow2(r) <= n < Pow2(r + 1)
    ensures r == Log2(n)
  {
    Log2Bounds(n);
    if r < Log2(n) { Pow2Mono(r + 1, Log2(n)); }
    if Log2(n) < r { Pow2Mono(Log2(n) + 1, r); }
  }

  /** Tag and caller agree on the size of every payload. */
  ghost predicate Recorded(live: map<int, int>, sizes: map<int, int>) {
    forall p {:trigger live[p]} :: p in live ==> p - HEADER in sizes && sizes[p - HEADER] == live[p]
  }

  /** Every tag of the set is one that its address leads to. */
  ghost predicate NoStrays(tags: Tags, repr: set<Tag>) {
    forall t {:trigger t in repr} :: t in repr ==> At(tags, t.addr) == t
  }

  lemma StrayAdded(tags: Tags, repr: set<Tag>, t: Tag)
    requires NoStrays(tags, repr) && t.addr !in tags
    ensures NoStrays(tags[t.addr := t], repr + {t})
  {
  }

  lemma StrayDropped(tags: Tags, repr: set<Tag>, t: Tag)
    requires NoStrays(tags, repr) && At(tags, t.addr) == t
    ensures NoStrays(tags - {t.addr}, repr - {t})
  {
  }

  /** No payload held both before and after, with the same size, meets the header of
      one of the tags. */
  ghost predicate ClearOf(tags: set<Tag>, before: map<int, int>, after: map<int, int>) {
    forall t, p {:trigger t in tags, p in after} ::
      t in tags && p in before && p in after && before[p] == after[p] ==> Calls.Apart(p, after[p], t.addr, HEADER)
  }

  ghost predicate HeadersIn(tags: set<Tag>, m: Chunks) {
    forall t {:trigger t in tags} :: t in tags ==> t.addr in m
  }

  lemma HeadersClear(tags: set<Tag>, s: State, t: State)
    requires Inv(s) && Inv(t) && (HeadersIn(tags, s.chunks) || HeadersIn(tags, t.chunks))
    ensures ClearOf(tags, s.live, t.live)
  {
    hide Inv;
    forall x, p | x in tags && p in s.live && p in t.live && s.live[p] == t.live[p]
      ensures Calls.Apart(p, t.live[p], x.addr, HEADER)
    {
      Calls.HeadersMissPayloads(s, t, p, x.addr);
    }
  }

  lemma ClearFrom(tags: set<Tag>, first: map<int, int>, before: map<int, int>, after: map<int, int>)
    requires ClearOf(tags, before, after)
    requires forall p {:trigger p in after} :: p in after ==> p in before && before[p] == after[p]
    ensures ClearOf(tags, first, after)
  {
  }

  /** n is m with chunk a cut at address x; the rest has `len` bytes and is free or not. */
  ghost predicate CutOff(m: Chunks, n: Chunks, a: int, x: int, len: int, free: bool) {
    && a in m && x != a && x in n
    && var d := Divide(m, a, x - a);
    d[x].len == len && n == d[x := d[x].(free := free)]
  }

  /** The same, with the rest free and first on the list of its class. */
  ghost predicate SplitOff(m: Chunks, n: Chunks, ls: seq<seq<int>>, ks: seq<seq<int>>, a: int, x: int) {
    && a in m && x != a && |ls| == CLASSES
    && var d := Divide(m, a, x - a);
    && n == d[x := d[x].(free := true)]
    && ks == ls[ClassOf(d[x]) := [x] + ls[ClassOf(d[x])]]
  }

  lemma CutInserted(m: Chunks, c: Chunks, n: Chunks, ls: seq<seq<int>>, ks: seq<seq<int>>, a: int, x: int, len: int, free: bool)
    requires CutOff(m, c, a, x, len, free) && |ls| == CLASSES
    requires n == c[x := c[x].(free := true)]
    requires ks == ls[SizeClass(len - HEADER) := [x] + ls[SizeClass(len - HEADER)]]
    ensures SplitOff(m, n, ls, ks, a, x)
  {
    hide SizeClass;
  }

  lemma SplitIs(s: State, t: State, a: int, size: int)
    requires 0 <= size && SplitOff(s.chunks, t.chunks, s.lists, t.lists, a, a + HEADER + size)
    requires t.complete == s.complete && t.live == s.live
    ensures |s.lists| == CLASSES && a in s.chunks && t == Split(s, a, size)
  {
    hide SizeClass;
  }

  lemma CutIs(m: Chunks, n: Chunks, a: int, x: int, base: int, limit: int, len: int, free: bool)
    requires a in m && x != a && m[a].base == base && m[a].limit == limit && m[a].len - (x - a) == len
    requires n == Divide(m, a, x - a)[x := Chunk(base, limit, len, free)]
    ensures CutOff(m, n, a, x, len, free)
  {
  }

  /** Chains, lists, chunks and sizes after a split. */
  lemma CutAt(tags: Tags, v: View, heads: seq<Tag?>, ls: seq<seq<int>>, t: Tag, n: Tag, f: Fields)
    requires ChainsOk(tags, v) && LinksOk(tags, v, heads, ls, NOWHERE) && NOWHERE !in tags && tags.Keys == v.Keys
    requires At(tags, t.addr) == t && n.addr !in tags && SameTagBlock(n, t)
    requires f.magic == MAGIC && f.splitLeft == t && t.addr in v && f.splitRight == v[t.addr].splitRight
    requires f.splitRight != null ==> f.splitRight.addr in v
    requires n.addr + f.realSize == t.addr + v[t.addr].realSize
    requires HEADER <= f.realSize <= v[t.addr].realSize - HEADER
    ensures var us, w := tags[n.addr := n], Cut(v, t, n, f);
      && us.Keys == w.Keys && ChainsOk(us, w) && LinksOk(us, w, heads, ls, n.addr)
      && SizesOf(w) == SizesOf(v)[n.addr := f.size]
      && CutOff(ChunksOf(tags, v), ChunksOf(us, w), t.addr, n.addr, f.realSize, f.index >= 0)
    ensures forall j :: 0 <= j < CLASSES ==> n.addr !in ls[j]
  {
    hide ChainsOk;
    hide LinksOk;
    hide ChunksOf;
    hide SizesOf;
    hide CutOff;
    hide Divide;
    CutFields(v, t, n, f, n.addr);
    CutLinks(tags, v, heads, ls, t, n, f);
    CutChains(tags, v, t, n, f);
    CutChunks(tags, v, t, n, f);
    hide Cut;
    ChunkAt(tags, v, t.addr);
    CutIs(ChunksOf(tags, v), ChunksOf(tags[n.addr := n], Cut(v, t, n, f)), t.addr, n.addr, t.base, t.limit, f.realSize, f.index >= 0);
  }

  /** t is s with chunk a, in hand, joined with its free left neighbour p. */
  ghost predicate Melted(s: State, t: State, p: int, a: int) {
    && a in s.chunks && FindLeftFree(s.chunks, a) == Some(p) && LeftFree(s.chunks, p, a)
    && |s.lists| == CLASSES && p != a && t == JoinLeft(s, p, a)
    && InHand(t, p) && FindLeftFree(t.chunks, p) == None
  }

  lemma MeltedIs(s: State, t: State, p: int, a: int)
    requires a in s.chunks && FindLeftFree(s.chunks, a) == Some(p) && LeftFree(s.chunks, p, a)
    requires |s.lists| == CLASSES && p != a && p in s.chunks
    requires InHand(JoinLeft(s, p, a), p) && FindLeftFree(JoinLeft(s, p, a).chunks, p) == None
    requires t.chunks == Merge(s.chunks, p, a)[p := Merge(s.chunks, p, a)[p].(free := false)]
    requires t.lists == s.lists[ClassOf(s.chunks[p]) := Without(s.lists[ClassOf(s.chunks[p])], p)]
    requires t.complete == s.complete && t.live == s.live
    ensures Melted(s, t, p, a)
  {
    hide InHand;
    JoinLeftAs(s, t, p, a);
  }

  /** t is s with chunk a, in hand, joined with its free right neighbour. */
  ghost predicate Absorbed(s: State, t: State, a: int) {
    && |s.lists| == CLASSES && a in s.chunks && RightFree(s.chunks, a) && t == JoinRight(s, a)
    && InHand(t, a) && !RightFree(t.chunks, a)
  }

  /** After that many turns of free's loop to the right. */
  ghost predicate RightTurn(s: State, t: State, a: int, turns: int) {
    a in t.chunks && InHand(t, a) && if turns == 0 then t == s && FindLeftFree(t.chunks, a) == None else Absorbed(s, t, a)
  }

  ghost predicate Within(after: map<int, int>, before: map<int, int>) {
    forall a {:trigger after[a]} :: a in after ==> a in before && after[a] == before[a]
  }

  lemma WithinSame(sizes: map<int, int>)
    ensures Within(sizes, sizes)
  {
  }

  lemma WithinThrough(after: map<int, int>, mid: map<int, int>, before: map<int, int>)
    requires Within(after, mid) && Within(mid, before)
    ensures Within(after, before)
  {
  }

  /** m2 is memory m with the n bytes at src copied to dest, and no other change. */
  ghost predicate IsCopy(m: seq<Byte>, m2: seq<Byte>, dest: int, src: int, n: int) {
    && |m2| == |m|
    && forall j {:trigger m2[j]} :: 0 <= j < |m| ==>
         if dest <= j < dest + n then 0 <= j - dest + src < |m| && m2[j] == m[j - dest + src]
         else m2[j] == m[j]
  }

  lemma CopySlices(m: seq<Byte>, m2: seq<Byte>, dest: int, src: int, n: int)
    requires 0 <= n && 0 <= dest && dest + n <= |m| && 0 <= src && src + n <= |m| && IsCopy(m, m2, dest, src, n)
    ensures |m2| == |m| && m2[dest..dest + n] == m[src..src + n]
    ensures m2[..dest] == m[..dest] && m2[dest + n..] == m[dest + n..]
  {
  }

  class Heap {
    const freePages: array<Tag?>       // l_freePages
    const completePages: array<int>    // l_completePages
    const ram: array<Byte>             // memory, indexed by address
    var initialized: bool              // l_initialized
    var tagAt: map<int, Tag>           // the tag that a header address points to
    ghost var lists: seq<seq<int>>     // the free lists, as header addresses
    ghost var live: map<int, int>      // payloads held by callers

    ghost var view: View               // the contents of the tags
    ghost var heads: seq<Tag?>         // the contents of freePages
    ghost var repr: set<Tag>           // the tags

    ghost predicate Agrees()
      reads this`view, this`tagAt, this`heads, this`repr, freePages, repr
    {
      && freePages.Length == |heads|
      && (forall i {:trigger heads[i]} :: 0 <= i < |heads| ==> freePages[i] == heads[i])
      && tagAt.Keys == view.Keys
      && forall a {:trigger tagAt[a]} :: a in tagAt ==> tagAt[a] in repr && tagAt[a].addr == a && tagAt[a].Contents() == view[a]
    }

    /** The pointers describe a tiling and doubly linked lists; the list fields of
        the tag at x may not be in place yet. */
    ghost predicate RepBut(x: int)
      reads this`view, this`tagAt, this`heads, this`repr, this`lists, freePages, repr
    {
      && Agrees()
      && tagAt.Keys == view.Keys
      && |heads| == |lists| == CLASSES == completePages.Length
      && NOWHERE !in tagAt
      && NoStrays(tagAt, repr)
      && ChainsOk(tagAt, view)
      && LinksOk(tagAt, view, heads, lists, x)
    }

    ghost predicate Rep(): (yes: bool)
      reads this`view, this`tagAt, this`heads, this`repr, this`lists, freePages, repr
      ensures yes ==> tagAt.Keys == view.Keys && |lists| == CLASSES == completePages.Length && NOWHERE !in tagAt
    {
      RepBut(NOWHERE)
    }

    /** The heap as a value. */
    ghost function Abs(): State
      requires tagAt.Keys == view.Keys
      reads this, completePages
    {
      State(ChunksOf(tagAt, view), lists, completePages[..], live)
    }

    // -------------------------------------------------------------- stores to a tag

    method SetIndex(tag: Tag, x: int)
      requires Agrees() && At(tagAt, tag.addr) == tag
      modifies this`view, tag`index
      ensures Agrees() && tag.index == x
      ensures view == WithIndex(old(view), tag, x)
    {
      tag.index := x;
      view := WithIndex(view, tag, x);
    }

    method SetSize(tag: Tag, x: int)
      requires Agrees() && At(tagAt, tag.addr) == tag
      modifies this`view, tag`size
      ensures Agrees() && tag.size == x
      ensures view == WithSize(old(view), tag, x)
    {
      tag.size := x;
      view := WithSize(view, tag, x);
    }

    method SetRealSize(tag: Tag, x: int)
      requires Agrees() && At(tagAt, tag.addr) == tag
      modifies this`view, tag`realSize
      ensures Agrees() && tag.realSize == x
      ensures view == WithRealSize(old(view), tag, x)
    {
      tag.realSize := x;
      view := WithRealSize(view, tag, x);
    }

    method SetSplitLeft(tag: Tag, x: Tag?)
      requires Agrees() && At(tagAt, tag.addr) == tag
      modifies this`view, tag`splitLeft
      ensures Agrees() && tag.splitLeft == x
      ensures view == WithSplitLeft(old(view), tag, x)
    {
      tag.splitLeft := x;
      view := WithSplitLeft(view, tag, x);
    }

    method SetSplitRight(tag: Tag, x: Tag?)
      requires Agrees() && At(tagAt, tag.addr) == tag
      modifies this`view, tag`splitRight
      ensures Agrees() && tag.splitRight == x
      ensures view == WithSplitRight(old(view), tag, x)
    {
      tag.splitRight := x;
      view := WithSplitRight(view, tag, x);
    }

    method SetNext(tag: Tag, x: Tag?)
      requires Agrees() && At(tagAt, tag.addr) == tag
      modifies this`view, tag`next
      ensures Agrees() && tag.next == x
      ensures view == WithNext(old(view), tag, x)
    {
      tag.next := x;
      view := WithNext(view, tag, x);
    }

    method SetPrev(tag: Tag, x: Tag?)
      requires Agrees() && At(tagAt, tag.addr) == tag
      modifies this`view, tag`prev
      ensures Agrees() && tag.prev == x
      ensures view == WithPrev(old(view), tag, x)
    {
      tag.prev := x;
      view := WithPrev(view, tag, x);
    }

    method SetHead(i: int, x: Tag?)
      requires Agrees() && 0 <= i < freePages.Length
      modifies this`heads, freePages
      ensures Agrees()
      ensures heads == old(heads)[i := x]
    {
      freePages[i] := x;
      heads := heads[i := x];
    }

    /** A tag written in fresh memory becomes known by its address. */
    method AddTag(tag: Tag)
      requires Agrees() && tag !in repr && tag.addr !in tagAt
      modifies this`tagAt, this`view, this`repr
      ensures Agrees()
      ensures repr == old(repr) + {tag}
      ensures tagAt == old(tagAt)[tag.addr := tag] && view == old(view)[tag.addr := tag.Contents()]
    {
      tagAt := tagAt[tag.addr := tag];
      view := view[tag.addr := tag.Contents()];
      repr := repr + {tag};
    }

    // -------------------------------------------------------------- list steps

    /** The stores of insert_tag. */
    method PushTag(tag: Tag, i: int)
      requires Agrees() && At(tagAt, tag.addr) == tag
      requires |heads| == CLASSES && 0 <= i < CLASSES
      requires heads[i] != null ==> heads[i] != tag && At(tagAt, heads[i].addr) == heads[i]
      modifies this`view, this`heads, freePages, repr
      ensures Agrees()
      ensures heads == old(heads)[i := tag]
      ensures view == Inserted(old(view), tag, i, old(heads[i]))
    {
      hide WithNext;
      hide WithPrev;
      hide WithIndex;
      SetIndex(tag, i);
      if freePages[i] != null {
        SetPrev(freePages[i], tag);
        SetNext(tag, freePages[i]);
      }
      SetHead(i, tag);
    }

    /** The list on which insert_tag, or free, puts a tag. */
    method ListIndex(tag: Tag, index: int) returns (realIndex: int)
      requires index < CLASSES && HEADER <= tag.realSize < MAX_BLOCK
      ensures realIndex == if index < 0 then SizeClass(tag.realSize - HEADER) else index
      ensures 0 <= realIndex < CLASSES
    {
      if index < 0 {
        ConversionsId(tag.realSize - HEADER);
        realIndex := GetExp(U32(tag.realSize - HEADER));
        if realIndex < MIN_CLASS {
          realIndex := MIN_CLASS;
        }
      } else {
        realIndex := index;
      }
    }

    method InsertTag(tag: Tag, index: int)
      requires RepBut(tag.addr) && At(tagAt, tag.addr) == tag
      requires tag.next == null && tag.prev == null
      requires forall i :: 0 <= i < CLASSES ==> tag.addr !in lists[i]
      requires index < CLASSES && HEADER <= tag.realSize < MAX_BLOCK
      modifies this`lists, this`view, this`heads, freePages, repr
      ensures Rep()
      ensures var i := if index < 0 then SizeClass(old(tag.realSize) - HEADER) else index;
        && 0 <= i < CLASSES
        && lists == old(lists)[i := [tag.addr] + old(lists[i])]
        && ChunksOf(tagAt, view) == old(ChunksOf(tagAt, view))[tag.addr := old(ChunksOf(tagAt, view))[tag.addr].(free := true)]
      ensures SizesOf(view) == old(SizesOf(view))
    {
      hide NoStrays;
      hide LinksOk;
      hide ChainsOk;
      hide ChunksOf;
      hide SizesOf;
      hide Inserted;
      var realIndex := ListIndex(tag, index);
      InsertedLinks(tagAt, view, heads, lists, tag, realIndex);
      InsertedChunks(tagAt, view, tag, realIndex, heads[realIndex]);
      PushTag(tag, realIndex);
      lists := lists[realIndex := [tag.addr] + lists[realIndex]];
    }

    /** The stores of remove_tag to the head of the list and to the neighbours. */
    method UnlinkTag(tag: Tag)
      requires Agrees() && At(tagAt, tag.addr) == tag
      requires |heads| == CLASSES && 0 <= tag.index < CLASSES
      requires tag.prev != null ==> At(tagAt, tag.prev.addr) == tag.prev
      requires tag.next != null ==> At(tagAt, tag.next.addr) == tag.next
      modifies this`view, this`heads, freePages, repr
      ensures Agrees()
      ensures heads ==
        old(heads)[old(tag.index) := if old(heads[tag.index]) == tag then old(tag.next) else old(heads[tag.index])]
      ensures view == Bypassed(old(view), tag)
    {
      hide WithNext;
      hide WithPrev;
      ghost var v, p, n := view, tag.prev, tag.next;
      if freePages[tag.index] == tag {
        SetHead(tag.index, tag.next);
      }
      if tag.prev != null {
        SetNext(tag.prev, tag.next);
      }
      assert tag.prev == p && tag.next == n;
      assert view == if p != null then WithNext(v, p, n) else v;
      if tag.next != null {
        SetPrev(tag.next, tag.prev);
      }
    }

    /** The stores of remove_tag to the tag itself. */
    method ClearLinks(tag: Tag)
      requires Agrees() && At(tagAt, tag.addr) == tag
      modifies this`view, tag
      ensures Agrees() && tag.index == -1
      ensures view == WithIndex(WithPrev(WithNext(old(view), tag, null), tag, null), tag, -1)
    {
      hide WithNext;
      hide WithPrev;
      hide WithIndex;
      SetNext(tag, null);
      SetPrev(tag, null);
      SetIndex(tag, -1);
    }

    /** All the stores of remove_tag. */
    method DetachTag(tag: Tag)
      requires Agrees() && At(tagAt, tag.addr) == tag
      requires |heads| == CLASSES && 0 <= tag.index < CLASSES
      requires tag.prev != null ==> At(tagAt, tag.prev.addr) == tag.prev
      requires tag.next != null ==> At(tagAt, tag.next.addr) == tag.next
      modifies this`view, this`heads, freePages, repr
      ensures Agrees() && tag.index == -1
      ensures heads ==
        old(heads)[old(tag.index) := if old(heads[tag.index]) == tag then old(tag.next) else old(heads[tag.index])]
      ensures view == Removed(old(view), tag)
    {
      hide Bypassed;
      hide WithIndex;
      hide WithPrev;
      hide WithNext;
      UnlinkTag(tag);
      ClearLinks(tag);
    }

    method RemoveTag(tag: Tag)
      requires Rep() && At(tagAt, tag.addr) == tag && tag.index >= 0
      modifies this`lists, this`view, this`heads, freePages, repr
      ensures Rep()
      ensures var i := old(tag.index);
        0 <= i < CLASSES && lists == old(lists)[i := Without(old(lists[i]), tag.addr)]
      ensures ChunksOf(tagAt, view) == old(ChunksOf(tagAt, view))[tag.addr := old(ChunksOf(tagAt, view))[tag.addr].(free := false)]
      ensures SizesOf(view) == old(SizesOf(view))
      ensures SameChains(old(view), view) && tag.index == view[tag.addr].index == -1
    {
      hide NoStrays;
      hide LinksOk;
      hide ChainsOk;
      hide ChunksOf;
      hide SizesOf;
      hide SameChains;
      hide Removed;
      RemovedLinks(tagAt, view, heads, lists, tag);
      RemovedChunks(tagAt, view, tag);
      ghost var i := tag.index;
      DetachTag(tag);
      lists := lists[i := Without(lists[i], tag.addr)];
    }

    // -------------------------------------------------------------- chain steps

    /** tag's left neighbour takes over its bytes. */
    method MeltLeft(tag: Tag) returns (left: Tag)
      requires Rep() && At(tagAt, tag.addr) == tag && tag.splitLeft != null && tag.index < 0
      modifies this`tagAt, this`view, this`repr, repr
      ensures Rep()
      ensures left == old(tag.splitLeft) && left.addr != tag.addr && At(old(tagAt), left.addr) == left
      ensures tagAt == old(tagAt) - {tag.addr} && repr == old(repr) - {tag}
      ensures ChunksOf(tagAt, view) == Merge(old(ChunksOf(tagAt, view)), left.addr, tag.addr)
      ensures SizesOf(view) == old(SizesOf(view)) - {tag.addr}
      ensures left.index == old(left.index)
    {
      hide NoStrays;
      left := tag.splitLeft;
      RightOf(tagAt, view, tag.addr);
      JoinTags(left, tag);
    }

    /** The stores by which tag t takes over the bytes of its right neighbour b. */
    method GrowTag(t: Tag, b: Tag)
      requires Agrees() && At(tagAt, t.addr) == t && At(tagAt, b.addr) == b && t != b
      requires b.splitRight != null ==> At(tagAt, b.splitRight.addr) == b.splitRight
      modifies this`view, repr
      ensures Agrees()
      ensures view == Grown(old(view), t, b.addr)
    {
      hide WithRealSize;
      hide WithSplitRight;
      hide WithSplitLeft;
      SetRealSize(t, t.realSize + b.realSize);
      SetSplitRight(t, b.splitRight);
      if b.splitRight != null {
        SetSplitLeft(b.splitRight, t);
      }
    }

    /** Tag t swallows its right neighbour b. */
    method JoinTags(t: Tag, b: Tag)
      requires Rep() && At(tagAt, t.addr) == t && At(tagAt, b.addr) == b && t.splitRight == b && b.index < 0
      modifies this`tagAt, this`view, this`repr, repr
      ensures Rep()
      ensures t.addr != b.addr
      ensures tagAt == old(tagAt) - {b.addr} && repr == old(repr) - {b}
      ensures ChunksOf(tagAt, view) == Merge(old(ChunksOf(tagAt, view)), t.addr, b.addr)
      ensures SizesOf(view) == old(SizesOf(view)) - {b.addr}
      ensures t.index == old(t.index)
    {
      hide NoStrays;
      hide LinksOk;
      hide ChainsOk;
      hide ChunksOf;
      hide SizesOf;
      hide Merge;
      hide Grown;
      JoinedChains(tagAt, view, t, b.addr);
      JoinedLinks(tagAt, view, heads, lists, t, b.addr);
      JoinedChunks(tagAt, view, t, b.addr);
      GrowTag(t, b);
      StrayDropped(tagAt, repr, b);
      tagAt := tagAt - {b.addr};
      view := view - {b.addr};
      repr := repr - {b};
    }

    method AbsorbRight(tag: Tag) returns (r: Tag)
      requires Rep() && At(tagAt, tag.addr) == tag && tag.index < 0
      requires tag.splitRight != null && tag.splitRight.index >= 0
      modifies this`tagAt, this`lists, this`view, this`heads, this`repr, freePages, repr
      ensures Rep() && r == tag && tag.index < 0
      ensures var b := old(tag.splitRight);
        && At(old(tagAt), b.addr) == b && b.addr != tag.addr
        && 0 <= old(b.index) < CLASSES
        && lists == old(lists)[old(b.index) := Without(old(lists[b.index]), b.addr)]
        && tagAt == old(tagAt) - {b.addr} && repr == old(repr) - {b}
        && ChunksOf(tagAt, view) == Merge(old(ChunksOf(tagAt, view))[b.addr := old(ChunksOf(tagAt, view))[b.addr].(free := false)], tag.addr, b.addr)
        && SizesOf(view) == old(SizesOf(view)) - {b.addr}
    {
      hide NoStrays;
      var right := tag.splitRight;
      RightOf(tagAt, view, tag.addr);
      RemoveTag(right);
      JoinTags(tag, right);
      r := tag;
    }

    /** The new tag of split_tag, placed in the memory that `tag` does not use. */
    method PlaceTag(tag: Tag) returns (n: Tag)
      requires Agrees() && At(tagAt, tag.addr) == tag && 0 <= tag.size
      requires 0 <= tag.realSize - HEADER - tag.size < MAX_BLOCK
      requires tag.addr + HEADER + tag.size !in tagAt
      modifies this`tagAt, this`view, this`repr
      ensures Agrees() && fresh(n) && repr == old(repr) + {n}
      ensures n.addr == tag.addr + HEADER + tag.size && SameTagBlock(n, tag)
      ensures n.splitLeft == tag && n.splitRight == tag.splitRight && n.next == null && n.prev == null
      ensures n.magic == MAGIC && n.realSize == tag.realSize - HEADER - tag.size
      ensures tagAt == old(tagAt)[n.addr := n]
      ensures view == old(view)[n.addr := n.Contents()]
    {
      ConversionsId(tag.realSize - HEADER - tag.size);
      var remainder := U32(tag.realSize - HEADER - tag.size);
      n := new Tag(tag.addr + HEADER + tag.size, tag.base, tag.limit);
      n.magic := MAGIC;
      n.realSize := remainder;
      n.next := null;
      n.prev := null;
      n.splitLeft := tag;
      n.splitRight := tag.splitRight;
      AddTag(n);
    }

    /** The stores of split_tag that put n between `tag` and its right neighbour. */
    method LinkRight(tag: Tag, n: Tag)
      requires Agrees() && At(tagAt, tag.addr) == tag && At(tagAt, n.addr) == n && n != tag
      requires n.splitRight == tag.splitRight
      requires n.splitRight != null ==> At(tagAt, n.splitRight.addr) == n.splitRight && n.splitRight != n
      modifies this`view, repr
      ensures Agrees() && n.Contents() == old(n.Contents())
      ensures view == Relinked(old(view), tag, n)
    {
      hide WithSplitLeft;
      hide WithSplitRight;
      hide WithRealSize;
      if n.splitRight != null {
        SetSplitLeft(n.splitRight, n);
      }
      SetSplitRight(tag, n);
      SetRealSize(tag, tag.realSize - n.realSize);
    }

    /** What split_tag needs of the tag and its right neighbour. */
    lemma CutOk(tag: Tag)
      requires Rep() && At(tagAt, tag.addr) == tag
      ensures tag.addr in view && tag.realSize == view[tag.addr].realSize && tag.splitRight == view[tag.addr].splitRight
      ensures tag.splitRight != null ==>
                At(tagAt, tag.splitRight.addr) == tag.splitRight && tag.splitRight.addr == tag.addr + tag.realSize
    {
      RightOf(tagAt, view, tag.addr);
    }

    /** The stores of split_tag up to the insertion. */
    method PlaceRight(tag: Tag) returns (n: Tag)
      requires Agrees() && At(tagAt, tag.addr) == tag && 0 <= tag.size
      requires HEADER <= tag.realSize - HEADER - tag.size && tag.realSize < MAX_BLOCK
      requires tag.addr + HEADER + tag.size !in tagAt
      requires tag.addr in view && tag.realSize == view[tag.addr].realSize && tag.splitRight == view[tag.addr].splitRight
      requires tag.splitRight != null ==>
                At(tagAt, tag.splitRight.addr) == tag.splitRight && tag.splitRight.addr == tag.addr + tag.realSize
      modifies this`tagAt, this`view, this`repr, repr
      ensures Agrees() && fresh(n) && repr == old(repr) + {n}
      ensures n.addr == tag.addr + HEADER + old(tag.size) && tagAt == old(tagAt)[n.addr := n] && SameTagBlock(n, tag)
      ensures n.next == null && n.prev == null && n.magic == MAGIC && n.splitLeft == tag
      ensures n.splitRight == old(tag.splitRight) && n.realSize == old(tag.realSize) - HEADER - old(tag.size)
      ensures n.splitRight != null ==> n.splitRight.addr in old(view)
      ensures view == Cut(old(view), tag, n, n.Contents())
    {
      hide Relinked;
      n := PlaceTag(tag);
      LinkRight(tag, n);
    }

    /** split_tag up to the insertion: the new tag follows `tag` and is on no list. */
    method CutTag(tag: Tag) returns (n: Tag)
      requires Rep() && At(tagAt, tag.addr) == tag && 0 <= tag.size
      requires HEADER <= tag.realSize - HEADER - tag.size && tag.realSize < MAX_BLOCK
      requires tag.addr + HEADER + tag.size !in tagAt && tag.addr + HEADER + tag.size != NOWHERE
      modifies this`tagAt, this`view, this`repr, repr
      ensures RepBut(n.addr) && fresh(n) && repr == old(repr) + {n}
      ensures n.addr == tag.addr + HEADER + old(tag.size) && tagAt == old(tagAt)[n.addr := n]
      ensures n.next == null && n.prev == null && HEADER <= n.realSize < MAX_BLOCK
      ensures forall i :: 0 <= i < CLASSES ==> n.addr !in lists[i]
      ensures SizesOf(view) == old(SizesOf(view))[n.addr := SizesOf(view)[n.addr]]
      ensures CutOff(old(ChunksOf(tagAt, view)), ChunksOf(tagAt, view), tag.addr, n.addr, n.realSize, n.index >= 0)
    {
      hide CutOff;
      hide SizesOf;
      hide NoStrays;
      hide ChainsOk;
      hide LinksOk;
      hide ChunksOf;
      hide Cut;
      hide Agrees;
      ghost var v, ts, tags := view, tagAt, repr;
      CutOk(tag);
      n := PlaceRight(tag);
      ghost var f := n.Contents();
      StrayAdded(ts, tags, n);
      CutAt(ts, v, heads, lists, tag, n, f);
    }

    method SplitTag(tag: Tag) returns (n: Tag)
      requires Rep() && At(tagAt, tag.addr) == tag && 0 <= tag.size
      requires HEADER <= tag.realSize - HEADER - tag.size && tag.realSize < MAX_BLOCK
      requires tag.addr + HEADER + tag.size !in tagAt && tag.addr + HEADER + tag.size != NOWHERE
      modifies this`tagAt, this`lists, this`view, this`heads, this`repr, freePages, repr
      ensures Rep() && fresh(n) && repr == old(repr) + {n}
      ensures n.addr == tag.addr + HEADER + old(tag.size) && tagAt == old(tagAt)[n.addr := n]
      ensures SizesOf(view) == old(SizesOf(view))[n.addr := SizesOf(view)[n.addr]]
      ensures SplitOff(old(ChunksOf(tagAt, view)), ChunksOf(tagAt, view), old(lists), lists, tag.addr, n.addr)
    {
      hide Divide;
      hide RepBut;
      ghost var m := ChunksOf(tagAt, view);
      hide CutOff;
      hide SplitOff;
      hide Rep;
      hide NoStrays;
      hide ChainsOk;
      hide LinksOk;
      hide ChunksOf;
      hide SizesOf;
      hide SizeClass;
      hide Agrees;
      n := CutTag(tag);
      ghost var c, ls, len, free := ChunksOf(tagAt, view), lists, n.realSize, n.index >= 0;
      InsertTag(n, -1);
      CutInserted(m, c, ChunksOf(tagAt, view), ls, lists, tag.addr, n.addr, len, free);
    }

    // -------------------------------------------------------------- malloc

    /** A block from the page layer, which answers with address `page` (0: no
        memory), as one tag in hand. */
    method AllocateNewTag(size: int, page: int) returns (tag: Tag?)
      requires Rep() && 0 <= size && PagesFor(size) * PAGE < MAX_BLOCK
      requires page != 0 ==> 0 < page && page !in tagAt
      modifies this`tagAt, this`view, this`repr
      ensures Rep()
      ensures page == 0 <==> tag == null
      ensures tag == null ==> tagAt == old(tagAt) && view == old(view) && repr == old(repr)
      ensures tag != null ==>
        && fresh(tag) && repr == old(repr) + {tag}
        && tag.addr == page && tag.index == -1
        && tagAt == old(tagAt)[page := tag]
        && ChunksOf(tagAt, view) == old(ChunksOf(tagAt, view))[page := Chunk(page, page + PagesFor(size) * PAGE, PagesFor(size) * PAGE, false)]
        && SizesOf(view) == old(SizesOf(view))[page := size]
    {
      hide NoStrays;
      var usage := U32(size + HEADER);
      ConversionsId(size + HEADER);
      var pages := usage / PAGE;
      if usage % PAGE != 0 {
        pages := pages + 1;
      }
      if pages < MIN_PAGES {
        pages := MIN_PAGES;
      }
      assert pages == PagesFor(size);
      if page == 0 {
        return null;
      }
      tag := NewTag(size, page, pages);
    }

    method NewTag(size: int, page: int, pages: int) returns (tag: Tag)
      requires Rep() && MIN_PAGES <= pages && 0 < page && page !in tagAt
      modifies this`tagAt, this`view, this`repr
      ensures Rep()
      ensures fresh(tag) && repr == old(repr) + {tag}
      ensures tag.addr == page && tag.index == -1
      ensures tagAt == old(tagAt)[page := tag]
      ensures ChunksOf(tagAt, view) == old(ChunksOf(tagAt, view))[page := Chunk(page, page + pages * PAGE, pages * PAGE, false)]
      ensures SizesOf(view) == old(SizesOf(view))[page := size]
    {
      hide NoStrays;
      hide ChainsOk;
      hide LinksOk;
      hide ChunksOf;
      hide SizesOf;
      hide Agrees;
      tag := new Tag(page, page, page + pages * PAGE);
      tag.magic := MAGIC;
      tag.size := size;
      tag.realSize := pages * PAGE;
      tag.index := -1;
      tag.next := null;
      tag.prev := null;
      tag.splitLeft := null;
      tag.splitRight := null;
      NewOk(tagAt, view, heads, lists, tag, tag.Contents());
      StrayAdded(tagAt, repr, tag);
      AddTag(tag);
    }

    /** The walk along next. */
    method WalkList(index: int, size: int) returns (tag: Tag?)
      requires Rep() && 0 <= index < CLASSES
      ensures forall k :: 0 <= k < |lists[index]| ==> lists[index][k] in ChunksOf(tagAt, view)
      ensures FirstFit(ChunksOf(tagAt, view), lists[index], size) == if tag == null then None else Some(tag.addr)
      ensures tag != null ==> At(tagAt, tag.addr) == tag && tag.index == index
    {
      hide NoStrays;
      ghost var m, list := ChunksOf(tagAt, view), lists[index];
      forall k | 0 <= k < |list| ensures list[k] in m {
        assert ListAt(tagAt, view, lists, index, k);
      }
      assert HeadAt(tagAt, heads, lists, index);
      tag := freePages[index];
      ghost var k := 0;
      assert list[0..] == list;
      while tag != null
        invariant 0 <= k <= |list|
        invariant tag == if k < |list| then At(tagAt, list[k]) else null
        invariant FirstFit(m, list[k..], size) == FirstFit(m, list, size)
        decreases |list| - k
      {
        assert ListAt(tagAt, view, lists, index, k);
        if tag.realSize - HEADER >= size + HEADER {
          break;
        }
        tag := tag.next;
        k := k + 1;
      }
    }

    /** The first tag of a list that fits. */
    method Search(index: int, size: int) returns (tag: Tag?)
      requires Rep() && 0 <= index < CLASSES
      ensures forall k :: 0 <= k < |lists[index]| ==> lists[index][k] in ChunksOf(tagAt, view)
      ensures FirstFit(ChunksOf(tagAt, view), lists[index], size) == if tag == null then None else Some(tag.addr)
      ensures tag != null ==> At(tagAt, tag.addr) == tag && tag.index == index
      ensures var m, list := ChunksOf(tagAt, view), lists[index];
        if tag == null then forall k :: 0 <= k < |list| ==> m[list[k]].len < size + 96
        else exists k :: 0 <= k < |list| && list[k] == tag.addr && m[list[k]].len >= size + 96
                         && forall j :: 0 <= j < k ==> m[list[j]].len < size + 96
    {
      hide *;
      tag := WalkList(index, size);
      Meaning.FirstFitIs(ChunksOf(tagAt, view), lists[index], size);
    }

    /** Until the first malloc there is no tag, and the arrays hold the zeros they
        start with. */
    ghost predicate ZeroUntilUsed()
      reads this, completePages
    {
      !initialized ==>
        && tagAt == map[]
        && (forall i {:trigger heads[i]} :: 0 <= i < |heads| ==> heads[i] == null)
        && (forall i :: 0 <= i < completePages.Length ==> completePages[i] == 0)
    }

    ghost predicate Valid()
      reads this, freePages, completePages, repr
    {
      && Rep()
      && Inv(Abs())
      && Recorded(live, SizesOf(view))
      && ZeroUntilUsed()
      && Calls.Below(Abs().chunks, ram.Length)
    }

    /** The tags are the headers of the chunks. */
    lemma TagsKnown()
      requires Rep()
      ensures HeadersIn(repr, Abs().chunks)
    {
    }

    /** l_initialized: the first malloc clears the arrays. */
    method Initialize()
      requires Valid()
      modifies this`initialized, this`heads, freePages, completePages
      ensures Valid() && initialized
      ensures Abs() == old(Abs()) && heads == old(heads)
    {
      hide NoStrays;
      hide ChainsOk;
      hide LinksOk;
      hide Inv;
      if !initialized {
        ghost var hs, cs := heads, completePages[..];
        var index := 0;
        while index < CLASSES
          invariant 0 <= index <= CLASSES
          invariant Agrees() && heads == hs && completePages[..] == cs
        {
          SetHead(index, null);
          assert heads == hs;
          completePages[index] := 0;
          index := index + 1;
        }
        initialized := true;
      }
    }

    /** malloc's test whether the excess is worth a tag of its own. */
    method CanSplit(tag: Tag, size: int) returns (yes: bool)
      requires 0 <= size && HEADER + size <= tag.realSize < MAX_BLOCK
      ensures yes <==> tag.realSize - size - 2 * HEADER >= 256
    {
      ConversionsId(tag.realSize - size - 2 * HEADER);
      var remainder := U32(tag.realSize - size - 2 * HEADER);
      yes := false;
      if I32(remainder) > 0 {
        var childIndex := GetExp(remainder);
        if childIndex >= 0 {
          yes := true;
        }
      }
    }

    lemma TagOfChunk(tag: Tag)
      requires Rep() && At(tagAt, tag.addr) == tag && ChunksOk(Abs().chunks) && tag.addr in Abs().chunks
      ensures tag.realSize == Abs().chunks[tag.addr].len < MAX_BLOCK && 0 < tag.addr
      ensures ChunkOk(Abs().chunks, tag.addr) && tagAt.Keys == Abs().chunks.Keys == SizesOf(view).Keys
    {
      ChunkAt(tagAt, view, tag.addr);
      assert ChunkOk(Abs().chunks, tag.addr);
    }

    /** malloc's use of split_tag: what the tag in hand has in excess goes to a list. */
    method SplitExcess(tag: Tag, size: int) returns (ghost n: int)
      requires Rep() && At(tagAt, tag.addr) == tag && 0 <= size == tag.size
      requires ChunksOk(Abs().chunks) && tag.addr in Abs().chunks && HEADER + size <= Abs().chunks[tag.addr].len
      modifies this`tagAt, this`lists, this`view, this`heads, this`repr, freePages, repr
      ensures Rep() && old(repr) <= repr && fresh(repr - old(repr))
      ensures Abs() == if Splittable(old(Abs()).chunks[tag.addr], size) then Split(old(Abs()), tag.addr, size) else old(Abs())
      ensures n !in old(view) && At(tagAt, tag.addr) == tag
      ensures SizesOf(view) == if n in SizesOf(view) then old(SizesOf(view))[n := SizesOf(view)[n]] else old(SizesOf(view))
    {
      hide ChunksOf;
      hide SplitOff;
      hide Split;
      hide Rep;
      hide NoStrays;
      hide ChainsOk;
      hide LinksOk;
      hide SizesOf;
      hide ChunksOk;
      hide Divide;
      hide SizeClass;
      hide Agrees;
      ghost var s := Abs();
      TagOfChunk(tag);
      var split := CanSplit(tag, size);
      n := NOWHERE;
      if split {
        DivideShape(s.chunks, tag.addr, HEADER + size);
        var newTag := SplitTag(tag);
        n := newTag.addr;
        SplitIs(s, Abs(), tag.addr, size);
      }
    }

    method RecordSize(tag: Tag, size: int)
      requires Rep() && At(tagAt, tag.addr) == tag
      modifies this`view, repr
      ensures Rep() && tag.size == size
      ensures Abs() == old(Abs()) && SizesOf(view) == old(SizesOf(view))[tag.addr := size]
    {
      hide NoStrays;
      hide ChainsOk;
      hide LinksOk;
      hide SizesOf;
      hide ChunksOf;
      hide WithSize;
      SizeOnly(tagAt, view, heads, lists, tag, size);
      SetSize(tag, size);
    }

    /** The end of malloc: the tag goes to the caller, its excess to a list. */
    method CarveTag(tag: Tag, size: int)
      requires Rep() && At(tagAt, tag.addr) == tag && Recorded(live, SizesOf(view))
      requires InHand(Abs(), tag.addr) && 0 <= size && HEADER + size <= Abs().chunks[tag.addr].len
      modifies this`tagAt, this`lists, this`view, this`heads, this`repr, this`live, freePages, repr
      ensures Rep() && Recorded(live, SizesOf(view))
      ensures old(repr) <= repr && fresh(repr - old(repr))
      ensures Abs() == Carve(old(Abs()), tag.addr, size)
    {
      hide Rep;
      hide NoStrays;
      hide InHand;
      hide ChainsOk;
      hide LinksOk;
      hide Recorded;
      hide Split;
      hide ChunksOf;
      ghost var s, sizes := Abs(), SizesOf(view);
      InHandFacts(s, tag.addr);
      RecordSize(tag, size);
      ghost var n := SplitExcess(tag, size);
      live := live[tag.addr + HEADER := size];
      RecordedCarve(s.live, sizes, tag.addr, size, n, SizesOf(view));
    }

    /** Take a listed tag off its list for malloc. */
    method ClaimTag(tag: Tag, index: int)
      requires Rep() && At(tagAt, tag.addr) == tag && tag.index == index >= 0
      modifies this`lists, this`view, this`heads, freePages, completePages, repr
      ensures Rep() && SizesOf(view) == old(SizesOf(view))
      ensures 0 <= index < CLASSES && Abs() == ClaimCounted(old(Abs()), index, tag.addr)
    {
      hide NoStrays;
      hide LinksOk;
      hide SizesOf;
      RemoveTag(tag);
      WholeTag(tagAt, view, tag.addr);
      hide ChainsOk;
      if tag.splitLeft == null && tag.splitRight == null {
        completePages[index] := completePages[index] - 1;
      }
    }

    /** malloc's tag when it has found none: a new block, if there is memory. */
    method ObtainTag(size: int, page: int) returns (tag: Tag?)
      requires Valid() && MallocOk(Abs(), size, page)
      modifies this`tagAt, this`view, this`repr
      ensures Rep() && old(repr) <= repr && fresh(repr - old(repr)) && Recorded(live, SizesOf(view))
      ensures tag == null <==> page == 0
      ensures tag == null ==> Abs() == old(Abs())
      ensures tag != null ==>
        && At(tagAt, tag.addr) == tag && tag.addr == page
        && Abs() == Obtain(old(Abs()), page, PagesFor(size))
        && InHand(Abs(), page) && Alone(Abs().chunks, page) && HEADER + size <= Abs().chunks[page].len
    {
      hide Rep;
      hide NoStrays;
      hide ChainsOk;
      hide LinksOk;
      hide Inv;
      hide InHand;
      hide Alone;
      hide SizesOf;
      hide Agrees;
      ghost var s := Abs();
      if page != 0 {
        Calls.ObtainOk(s, size, page);
      }
      tag := AllocateNewTag(size, page);
      assert tag != null ==> Abs() == Obtain(s, page, PagesFor(size));
    }

    /** malloc's tag when it has found one: off its list. */
    method TakeFound(tag: Tag, index: int, ghost size: int)
      requires Valid() && 0 <= size < MAX_BLOCK && index == SizeClass(size)
      requires Calls.Search(Abs(), size) == Some(tag.addr) && At(tagAt, tag.addr) == tag && tag.index == index
      modifies this`lists, this`view, this`heads, freePages, completePages, repr
      ensures Rep() && Recorded(live, SizesOf(view))
      ensures 0 <= index < CLASSES && Abs() == ClaimCounted(old(Abs()), index, tag.addr)
      ensures At(tagAt, tag.addr) == tag
      ensures InHand(Abs(), tag.addr) && Alone(Abs().chunks, tag.addr) && HEADER + size <= Abs().chunks[tag.addr].len
    {
      hide Rep;
      hide NoStrays;
      hide ChainsOk;
      hide LinksOk;
      hide Inv;
      hide InHand;
      hide Alone;
      hide SizesOf;
      hide Agrees;
      ghost var s := Abs();
      ClaimTag(tag, index);
      Calls.ClaimOk(s, size);
    }

    /** malloc's choice of a tag: the first of its list that fits, off the list, or
        else a new block. */
    method TakeTag(size: int, page: int) returns (tag: Tag?)
      requires Valid() && MallocOk(Abs(), size, page)
      modifies this`tagAt, this`lists, this`view, this`heads, this`repr, freePages, completePages, repr
      ensures Rep() && old(repr) <= repr && fresh(repr - old(repr)) && Recorded(live, SizesOf(view))
      ensures tag == null <==> page == 0 && Calls.Search(old(Abs()), size).None?
      ensures tag == null ==> Abs() == old(Abs())
      ensures tag != null ==>
        && At(tagAt, tag.addr) == tag
        && InHand(Abs(), tag.addr) && Alone(Abs().chunks, tag.addr)
        && HEADER + size <= Abs().chunks[tag.addr].len
      ensures tag != null && Calls.Search(old(Abs()), size).Some? ==>
        && tag.addr == Calls.Search(old(Abs()), size).value
        && Abs() == ClaimCounted(old(Abs()), SizeClass(size), tag.addr)
      ensures tag != null && Calls.Search(old(Abs()), size).None? ==>
        && tag.addr == page
        && Abs() == Obtain(old(Abs()), page, PagesFor(size))
    {
      hide ChunksOf;
      hide Rep;
      hide NoStrays;
      hide ChainsOk;
      hide LinksOk;
      hide Inv;
      hide InHand;
      hide Alone;
      hide SizesOf;
      hide Agrees;
      hide Recorded;
      hide ClaimCounted;
      hide Obtain;
      Calls.PagesForFits(size);
      ConversionsId(size);
      var index := GetExp(U32(size));
      if index < MIN_CLASS {
        index := MIN_CLASS;
      }
      tag := Search(index, size);
      assert Calls.Search(Abs(), size) == if tag == null then None else Some(tag.addr);
      if tag == null {
        tag := ObtainTag(size, page);
      } else {
        TakeFound(tag, index, size);
      }
    }

    /** malloc, in terms of the specification. */
    method MallocTag(size: int, page: int) returns (ptr: int)
      requires Valid() && MallocOk(Abs(), size, page)
      requires page != 0 ==> page + PagesFor(size) * PAGE <= ram.Length
      modifies this, freePages, completePages, repr
      ensures Valid() && old(repr) <= repr && fresh(repr - old(repr))
      ensures (Abs(), ptr) == Calls.Malloc(old(Abs()), size, page)
    {
      hide ChunksOf;
      hide Rep;
      hide NoStrays;
      hide ChainsOk;
      hide LinksOk;
      hide Inv;
      hide InHand;
      hide Alone;
      hide SizesOf;
      hide Recorded;
      hide Carve;
      hide ClaimCounted;
      hide Obtain;
      hide Calls.Search;
      hide Calls.Below;
      hide Agrees;
      ghost var s := Abs();
      Calls.MallocBelow(s, size, page, ram.Length);
      Initialize();
      var tag := TakeTag(size, page);
      if tag == null {
        return 0;
      }
      CarveTag(tag, size);
      ptr := tag.addr + HEADER;
    }

    /** malloc.  Every tag it may write, and every other tag, misses the payloads held. */
    method Malloc(size: int, page: int) returns (ptr: int)
      requires Valid() && MallocOk(Abs(), size, page)
      requires page != 0 ==> page + PagesFor(size) * PAGE <= ram.Length
      modifies this, freePages, completePages, repr
      ensures Valid() && old(repr) <= repr && fresh(repr - old(repr))
      ensures (Abs(), ptr) == Calls.Malloc(old(Abs()), size, page)
      ensures ClearOf(repr, old(live), live)
    {
      hide Rep;
      hide NoStrays;
      hide ChainsOk;
      hide LinksOk;
      hide Inv;
      hide Calls.Malloc;
      hide Agrees;
      hide ClearOf;
      hide HeadersIn;
      ghost var s := Abs();
      ptr := MallocTag(size, page);
      TagsKnown();
      HeadersClear(repr, s, Abs());
    }

    // -------------------------------------------------------------- free

    /** A tag in hand with a listed tag to its left. */
    lemma FreeLeftOf(tag: Tag)
      requires Rep() && At(tagAt, tag.addr) == tag && tag.splitLeft != null && tag.splitLeft.index >= 0
      requires InHand(Abs(), tag.addr)
      ensures var s, a, p := Abs(), tag.addr, tag.splitLeft.addr;
        && |s.lists| == CLASSES && a in s.chunks && p in s.chunks && p != a && LeftFree(s.chunks, p, a)
        && At(tagAt, p) == tag.splitLeft && tag.splitLeft.index == ClassOf(s.chunks[p])
        && FindLeftFree(s.chunks, a) == Some(p)
        && InHand(JoinLeft(s, p, a), p)
        && FindLeftFree(JoinLeft(s, p, a).chunks, p) == None
    {
      var s, a, p := Abs(), tag.addr, tag.splitLeft.addr;
      InHandFacts(s, a);
      FreeNeighbours(tagAt, view, a);
      JoinLeftInHand(s, p, a);
      JoinLeftAlone(s, p, a);
      IndexIsClass(tagAt, view, heads, lists, p);
    }

    /** One turn of free's loop to the left. */
    method MeltFreeLeft(tag: Tag) returns (left: Tag)
      requires Rep() && At(tagAt, tag.addr) == tag && tag.index < 0
      requires tag.splitLeft != null && tag.splitLeft.index >= 0
      requires InHand(Abs(), tag.addr)
      modifies this`tagAt, this`lists, this`view, this`heads, this`repr, freePages, repr
      ensures Rep() && At(tagAt, left.addr) == left && left.index < 0
      ensures Within(SizesOf(view), old(SizesOf(view))) && repr <= old(repr)
      ensures Melted(old(Abs()), Abs(), left.addr, tag.addr)
    {
      hide ChunksOf;
      hide Melted;
      hide JoinLeft;
      hide Rep;
      hide NoStrays;
      hide Merge;
      hide ClassOf;
      hide LinksOk;
      hide SizesOf;
      hide ChainsOk;
      hide InHand;
      hide ChunksOk;
      hide FindLeftFree;
      hide LeftFree;
      hide Agrees;
      ghost var s, a, p := Abs(), tag.addr, tag.splitLeft.addr;
      FreeLeftOf(tag);
      left := MeltLeft(tag);
      RemoveTag(left);
      MeltedIs(s, Abs(), p, a);
    }

    /** A tag in hand with a listed tag to its right. */
    lemma FreeRightOf(tag: Tag)
      requires Rep() && At(tagAt, tag.addr) == tag && tag.splitRight != null && tag.splitRight.index >= 0
      requires InHand(Abs(), tag.addr) && FindLeftFree(Abs().chunks, tag.addr) == None
      ensures var s, a, b := Abs(), tag.addr, tag.splitRight.addr;
        && |s.lists| == CLASSES && a in s.chunks && RightFree(s.chunks, a) && b == a + s.chunks[a].len
        && tag.splitRight.index == ClassOf(s.chunks[b])
        && InHand(JoinRight(s, a), a) && !RightFree(JoinRight(s, a).chunks, a)
    {
      var s, a := Abs(), tag.addr;
      InHandFacts(s, a);
      FreeNeighbours(tagAt, view, a);
      IndexIsClass(tagAt, view, heads, lists, tag.splitRight.addr);
      JoinRightInHand(s, a);
      JoinRightAlone(s, a);
    }

    /** One turn of free's loop to the right. */
    method AbsorbFreeRight(tag: Tag) returns (r: Tag)
      requires Rep() && At(tagAt, tag.addr) == tag && tag.index < 0
      requires tag.splitRight != null && tag.splitRight.index >= 0
      requires InHand(Abs(), tag.addr) && FindLeftFree(Abs().chunks, tag.addr) == None
      modifies this`tagAt, this`lists, this`view, this`heads, this`repr, freePages, repr
      ensures Rep() && r == tag && At(tagAt, tag.addr) == tag && tag.index < 0
      ensures Within(SizesOf(view), old(SizesOf(view))) && repr <= old(repr)
      ensures Absorbed(old(Abs()), Abs(), tag.addr)
    {
      hide Agrees;
      hide ChunksOf;
      hide Rep;
      hide NoStrays;
      hide LinksOk;
      hide SizesOf;
      hide ChainsOk;
      hide InHand;
      hide ChunksOk;
      hide FindLeftFree;
      FreeRightOf(tag);
      r := AbsorbRight(tag);
    }

    /** free's loop to the left.  Because no two free chunks were neighbours
        before, it makes at most one turn. */
    method JoinToLeft(start: Tag) returns (tag: Tag)
      requires Rep() && At(tagAt, start.addr) == start && start.index < 0
      requires InHand(Abs(), start.addr)
      modifies this`tagAt, this`lists, this`view, this`heads, this`repr, freePages, repr
      ensures Rep() && At(tagAt, tag.addr) == tag && tag.index < 0
      ensures Within(SizesOf(view), old(SizesOf(view))) && repr <= old(repr)
      ensures InHand(Abs(), tag.addr) && FindLeftFree(Abs().chunks, tag.addr) == None
      ensures FindLeftFree(old(Abs()).chunks, start.addr) == None ==> tag == start && Abs() == old(Abs())
      ensures FindLeftFree(old(Abs()).chunks, start.addr) != None ==>
        && FindLeftFree(old(Abs()).chunks, start.addr) == Some(tag.addr)
        && LeftFree(old(Abs()).chunks, tag.addr, start.addr)
        && Abs() == JoinLeft(old(Abs()), tag.addr, start.addr)
    {
      hide Within;
      hide RepBut;
      hide Rep;
      hide NoStrays;
      hide LinksOk;
      hide SizesOf;
      hide ChainsOk;
      hide InHand;
      hide ChunksOk;
      hide FindLeftFree;
      tag := start;
      ghost var turns := 0;
      WithinSame(SizesOf(view));
      Neighbours(tag);
      while tag.splitLeft != null && tag.splitLeft.index >= 0
        invariant 0 <= turns <= 1
        invariant Rep() && At(tagAt, tag.addr) == tag && tag.index < 0
        invariant Within(SizesOf(view), old(SizesOf(view))) && repr <= old(repr)
        invariant InHand(Abs(), tag.addr)
        invariant turns == 0 ==> tag == start && Abs() == old(Abs())
        invariant turns == 1 ==>
          && FindLeftFree(old(Abs()).chunks, start.addr) == Some(tag.addr)
          && LeftFree(old(Abs()).chunks, tag.addr, start.addr)
          && Abs() == JoinLeft(old(Abs()), tag.addr, start.addr)
          && FindLeftFree(Abs().chunks, tag.addr) == None
        decreases 1 - turns
      {
        Neighbours(tag);
        ghost var sizes := SizesOf(view);
        tag := MeltFreeLeft(tag);
        WithinThrough(SizesOf(view), sizes, old(SizesOf(view)));
        turns := turns + 1;
      }
      Neighbours(tag);
    }

    /** free's loop to the right; it too makes at most one turn. */
    method JoinToRight(start: Tag) returns (tag: Tag)
      requires Rep() && At(tagAt, start.addr) == start && start.index < 0
      requires InHand(Abs(), start.addr) && FindLeftFree(Abs().chunks, start.addr) == None
      modifies this`tagAt, this`lists, this`view, this`heads, this`repr, freePages, repr
      ensures Rep() && At(tagAt, tag.addr) == tag && tag.index < 0
      ensures Within(SizesOf(view), old(SizesOf(view))) && repr <= old(repr)
      ensures tag == start && InHand(Abs(), tag.addr)
      ensures Abs() == if RightFree(old(Abs()).chunks, start.addr) then JoinRight(old(Abs()), start.addr) else old(Abs())
    {
      hide Within;
      hide RepBut;
      hide JoinLeft;
      hide Agrees;
      hide Rep;
      hide NoStrays;
      hide LinksOk;
      hide SizesOf;
      hide ChainsOk;
      hide InHand;
      hide ChunksOk;
      hide FindLeftFree;
      tag := start;
      ghost var s := Abs();
      ghost var turns := 0;
      WithinSame(SizesOf(view));
      Neighbours(tag);
      while tag.splitRight != null && tag.splitRight.index >= 0
        invariant 0 <= turns <= 1
        invariant Rep() && At(tagAt, tag.addr) == tag == start && tag.index < 0
        invariant Within(SizesOf(view), old(SizesOf(view))) && repr <= old(repr)
        invariant RightTurn(s, Abs(), tag.addr, turns)
        decreases 1 - turns
      {
        Neighbours(tag);
        ghost var sizes := SizesOf(view);
        tag := AbsorbFreeRight(tag);
        WithinThrough(SizesOf(view), sizes, old(SizesOf(view)));
        turns := turns + 1;
      }
      Neighbours(tag);
    }

    /** What the fields of a tag in hand say. */
    lemma InHandTag(tag: Tag)
      requires Rep() && At(tagAt, tag.addr) == tag && tag.index < 0 && InHand(Abs(), tag.addr)
      ensures tag.addr in Abs().chunks && tag.realSize == Abs().chunks[tag.addr].len && HEADER <= tag.realSize < MAX_BLOCK
      ensures tag.splitLeft == null && tag.splitRight == null <==> Whole(Abs().chunks, tag.addr)
      ensures tag.next == null && tag.prev == null && forall i :: 0 <= i < CLASSES ==> tag.addr !in lists[i]
      ensures ChunkOk(Abs().chunks, tag.addr) && LinksOk(tagAt, view, heads, lists, tag.addr)
    {
      InHandFacts(Abs(), tag.addr);
      ChunkAt(tagAt, view, tag.addr);
      assert ChunkOk(Abs().chunks, tag.addr);
      WholeTag(tagAt, view, tag.addr);
      Unlinked(tagAt, view, heads, lists, tag.addr);
    }

    /** The end of free: the tag goes to its list, or its block to the page layer. */
    method ReturnTag(tag: Tag) returns (back: Option<Block>)
      requires Rep() && At(tagAt, tag.addr) == tag && tag.index < 0
      requires InHand(Abs(), tag.addr)
      modifies this`tagAt, this`lists, this`view, this`heads, this`repr, freePages, completePages, repr
      ensures Rep() && Within(SizesOf(view), old(SizesOf(view))) && repr <= old(repr)
      ensures (Abs(), back) == Return(old(Abs()), tag.addr)
    {
      hide Recorded;
      hide ChunksOf;
      hide NoStrays;
      hide InHand;
      hide ChunksOk;
      hide ChunkOk;
      hide SizesOf;
      hide ChainsOk;
      hide LinksOk;
      hide SizeClass;
      hide Agrees;
      InHandTag(tag);
      var index := ListIndex(tag, -1);
      if tag.splitLeft == null && tag.splitRight == null {
        if completePages[index] == MAX_COMPLETE {
          back := FreeBlock(tag);
          return;
        }
        completePages[index] := completePages[index] + 1;
      }
      InsertTag(tag, index);
      back := None;
    }

    /** The call of liballoc_free: address and pages of a tag that is a whole block. */
    method FreeBlock(tag: Tag) returns (back: Option<Block>)
      requires Rep() && At(tagAt, tag.addr) == tag && tag.index < 0
      requires Whole(Abs().chunks, tag.addr) && ChunkOk(Abs().chunks, tag.addr)
      modifies this`tagAt, this`view, this`repr
      ensures Rep() && Within(SizesOf(view), old(SizesOf(view))) && repr == old(repr) - {tag}
      ensures Abs() == Release(old(Abs()), tag.addr)
      ensures back == Some(Block(tag.addr, old(Abs()).chunks[tag.addr].len / PAGE))
    {
      hide NoStrays;
      WholeTag(tagAt, view, tag.addr);
      GoneChains(tagAt, view, tag.addr);
      GoneLinks(tagAt, view, heads, lists, tag.addr);
      hide ChainsOk;
      hide LinksOk;
      var pages := tag.realSize / PAGE;
      if tag.realSize % PAGE != 0 {
        pages := pages + 1;
      }
      if pages < MIN_PAGES {
        pages := MIN_PAGES;
      }
      back := Some(Block(tag.addr, pages));
      StrayDropped(tagAt, repr, tag);
      tagAt := tagAt - {tag.addr};
      view := view - {tag.addr};
      repr := repr - {tag};
      assert Abs().chunks == old(Abs()).chunks - {tag.addr};
    }

    /** What the split links of a tag in hand say. */
    lemma Neighbours(tag: Tag)
      requires Rep() && At(tagAt, tag.addr) == tag && InHand(Abs(), tag.addr)
      ensures tag.splitLeft != null ==> At(tagAt, tag.splitLeft.addr) == tag.splitLeft
      ensures tag.splitRight != null ==> At(tagAt, tag.splitRight.addr) == tag.splitRight
      ensures FindLeftFree(Abs().chunks, tag.addr) ==
        if tag.splitLeft != null && tag.splitLeft.index >= 0 then Some(tag.splitLeft.addr) else None
      ensures RightFree(Abs().chunks, tag.addr) <==> tag.splitRight != null && tag.splitRight.index >= 0
    {
      InHandFacts(Abs(), tag.addr);
      FreeNeighbours(tagAt, view, tag.addr);
    }

    /** free, once it has found the tag. */
    method FreeTag(start: Tag) returns (back: Option<Block>)
      requires Rep() && At(tagAt, start.addr) == start && start.index < 0
      requires InHand(Abs(), start.addr)
      modifies this`tagAt, this`lists, this`view, this`heads, this`repr, freePages, completePages, repr
      ensures Rep() && Within(SizesOf(view), old(SizesOf(view))) && repr <= old(repr)
      ensures var (t, a) := Calls.JoinAll(old(Abs()), start.addr);
        (Abs(), back) == Return(t, a)
    {
      hide Rep;
      hide NoStrays;
      hide LinksOk;
      hide SizesOf;
      hide ChainsOk;
      hide InHand;
      hide Calls.JoinAll;
      hide Return;
      var tag := JoinNeighbours(start);
      back := ReturnTag(tag);
    }

    /** free, in terms of the specification. */
    method FreePayload(ptr: int) returns (back: Option<Block>)
      requires Valid() && (ptr == 0 || ptr in live)
      modifies this, freePages, completePages, repr
      ensures Valid() && repr <= old(repr)
      ensures (Abs(), back) == Calls.Free(old(Abs()), ptr)
    {
      hide Return;
      hide JoinLeft;
      hide Rep;
      hide NoStrays;
      hide Inv;
      hide ChainsOk;
      hide LinksOk;
      hide InHand;
      hide SizesOf;
      hide Recorded;
      hide Within;
      hide Calls.Below;
      if ptr == 0 {
        return None;
      }
      ghost var s, sizes := Abs(), SizesOf(view);
      TagOf(ptr);
      SurrenderInHand(s, ptr);
      Calls.FreeBelow(s, ptr, ram.Length);
      Calls.FreeLive(s, ptr);
      var tag := tagAt[ptr - HEADER];
      if tag.magic != MAGIC {
        assert false;
      }
      live := live - {ptr};
      assert Abs() == s.(live := s.live - {ptr});
      back := FreeTag(tag);
      RecordedFree(s.live, sizes, ptr, Abs(), SizesOf(view));
    }

    /** free; the result is the block handed to liballoc_free, if any.  Every tag it
        may write, and every other tag, misses the payloads held. */
    method Free(ptr: int) returns (back: Option<Block>)
      requires Valid() && (ptr == 0 || ptr in live)
      modifies this, freePages, completePages, repr
      ensures Valid() && repr <= old(repr)
      ensures (Abs(), back) == Calls.Free(old(Abs()), ptr)
      ensures ClearOf(old(repr), old(live), live)
    {
      hide Rep;
      hide NoStrays;
      hide ChainsOk;
      hide LinksOk;
      hide Inv;
      hide Calls.Free;
      hide Agrees;
      hide ClearOf;
      hide HeadersIn;
      ghost var s, tags := Abs(), repr;
      TagsKnown();
      back := FreePayload(ptr);
      HeadersClear(tags, s, Abs());
    }

    /** A payload's tag is found 48 bytes below it. */
    lemma TagOf(ptr: int)
      requires Rep() && Inv(Abs()) && ptr in live
      ensures ptr - HEADER in tagAt
      ensures var tag := tagAt[ptr - HEADER];
        tag.addr == ptr - HEADER && tag.magic == MAGIC && tag.index < 0 && tag.realSize < MAX_BLOCK
    {
      Calls.LiveAddress(Abs(), ptr);
      ChunkAt(tagAt, view, ptr - HEADER);
      assert ChainAt(tagAt, view, ptr - HEADER);
      assert ChunkOk(Abs().chunks, ptr - HEADER);
    }

    method JoinNeighbours(start: Tag) returns (tag: Tag)
      requires Rep() && At(tagAt, start.addr) == start && start.index < 0
      requires InHand(Abs(), start.addr)
      modifies this`tagAt, this`lists, this`view, this`heads, this`repr, freePages, repr
      ensures Rep() && At(tagAt, tag.addr) == tag && tag.index < 0
      ensures Within(SizesOf(view), old(SizesOf(view))) && repr <= old(repr)
      ensures InHand(Abs(), tag.addr)
      ensures (Abs(), tag.addr) == Calls.JoinAll(old(Abs()), start.addr)
    {
      hide Rep;
      hide NoStrays;
      hide LinksOk;
      hide SizesOf;
      hide ChainsOk;
      hide InHand;
      hide ChunksOk;
      hide FindLeftFree;
      tag := JoinToLeft(start);
      tag := JoinToRight(tag);
    }

    // -------------------------------------------------------------- realloc

    /** liballoc_memcpy: words first, then the bytes that are left. */
    method Memcpy(s1: int, s2: int, n: int)
      requires 0 <= n && 0 <= s1 && s1 + n <= ram.Length && 0 <= s2 && s2 + n <= ram.Length
      requires Calls.Apart(s1, n, s2, n)
      modifies ram
      ensures IsCopy(old(ram[..]), ram[..], s1, s2, n)
      ensures ram[s1..s1 + n] == old(ram[s2..s2 + n])
      ensures ram[..s1] == old(ram[..s1]) && ram[s1 + n..] == old(ram[s1 + n..])
    {
      ghost var m := ram[..];
      var dest, src, left := s1, s2, n;
      while left >= 4
        invariant 0 <= left <= n && dest == s1 + n - left && src == s2 + n - left
        invariant forall j :: 0 <= j < ram.Length ==> ram[j] == m[if s1 <= j < dest then j - s1 + s2 else j]
      {
        var w := LoadWord(src);
        StoreWord(dest, w);
        WordInjective(ram[dest], ram[dest + 1], ram[dest + 2], ram[dest + 3], m[src], m[src + 1], m[src + 2], m[src + 3]);
        dest, src, left := dest + 4, src + 4, left - 4;
      }
      while left > 0
        invariant 0 <= left <= n && dest == s1 + n - left && src == s2 + n - left
        invariant forall j :: 0 <= j < ram.Length ==> ram[j] == m[if s1 <= j < dest then j - s1 + s2 else j]
      {
        ram[dest] := ram[src];
        dest, src, left := dest + 1, src + 1, left - 1;
      }
      CopySlices(m, ram[..], s1, s2, n);
    }

    /** The unsigned int at an address, least significant byte first. */
    method LoadWord(a: int) returns (w: int)
      requires 0 <= a && a + 4 <= ram.Length
      ensures w == Word(ram[a], ram[a + 1], ram[a + 2], ram[a + 3])
    {
      w := Word(ram[a], ram[a + 1], ram[a + 2], ram[a + 3]);
    }

    method StoreWord(a: int, w: int)
      requires 0 <= a && a + 4 <= ram.Length && 0 <= w < U32_RANGE
      modifies ram
      ensures forall j :: 0 <= j < ram.Length && !(a <= j < a + 4) ==> ram[j] == old(ram[j])
      ensures w == Word(ram[a], ram[a + 1], ram[a + 2], ram[a + 3])
    {
      WordBytes(w);
      ram[a], ram[a + 1], ram[a + 2], ram[a + 3] := w % 0x100, w / 0x100 % 0x100, w / 0x1_0000 % 0x100, w / 0x100_0000;
    }

    /** The end of realloc: the copy, and the old payload freed. */
    method CopyAndFree(ptr: int, p: int, n: int)
      requires Valid() && p in live && 0 <= n <= live[p]
      requires if ptr == 0 then n == 0 else ptr in live && ptr != p && n <= live[ptr]
      modifies this, freePages, completePages, repr, ram
      ensures Valid() && repr <= old(repr) && Abs() == Calls.Free(old(Abs()), p).0
      ensures IsCopy(old(ram[..]), ram[..], ptr, p, n)
      ensures 0 <= n && 0 <= ptr && ptr + n <= ram.Length && 0 <= p && p + n <= ram.Length
    {
      hide Inv;
      hide Rep;
      hide NoStrays;
      hide ChainsOk;
      hide LinksOk;
      hide Agrees;
      hide SizesOf;
      hide ChunksOf;
      hide Recorded;
      hide Calls.Free;
      hide IsCopy;
      hide ClearOf;
      Calls.CopyOk(Abs(), ptr, p, n, ram.Length);
      Memcpy(ptr, p, n);
      var back := Free(p);
    }

    /** realloc of a payload to a nonzero size. */
    method Resize(p: int, size: int, page: int) returns (r: Calls.Outcome, ghost tags: set<Tag>)
      requires Valid() && p != 0 && p in live && size != 0 && MallocOk(Abs(), size, page)
      requires page != 0 ==> page + PagesFor(size) * PAGE <= ram.Length
      modifies this, freePages, completePages, repr, ram
      ensures Valid() && old(repr) + repr <= tags && fresh(tags - old(repr))
      ensures ClearOf(tags, old(live), live)
      ensures (Abs(), r) == Calls.Realloc(old(Abs()), p, size, page)
      ensures r == Calls.NullStore ==> ram[..] == old(ram[..])
      ensures r != Calls.NullStore ==>
        var n := if old(live)[p] > size then size else old(live)[p];
        && IsCopy(old(ram[..]), ram[..], r.ptr, p, n)
        && 0 <= n && 0 <= r.ptr && r.ptr + n <= ram.Length && 0 <= p && p + n <= ram.Length
    {
      hide IsCopy;
      hide Recorded;
      hide ChunksOf;
      hide Rep;
      hide NoStrays;
      hide Inv;
      hide ChainsOk;
      hide LinksOk;
      hide Agrees;
      hide SizesOf;
      hide Calls.Malloc;
      hide Calls.Free;
      hide ClearOf;
      hide HeadersIn;
      ghost var s := Abs();
      TagOf(p);
      Calls.LiveSize(s, p);
      SizeOfTag(p);
      var tag := tagAt[p - HEADER];
      ConversionsId(tag.size);
      var realSize := I32(tag.size);
      if realSize > size {
        realSize := size;
      }
      Calls.MallocLive(s, size, page);
      Calls.MallocBelow(s, size, page, ram.Length);
      var ptr := Malloc(size, page);
      tags := repr;
      if ptr == 0 && realSize > 0 {
        return Calls.NullStore, tags;
      }
      TagsKnown();
      ghost var t := Abs();
      CopyAndFree(ptr, p, realSize);
      Calls.FreeLive(t, p);
      HeadersClear(tags, t, Abs());
      ClearFrom(tags, s.live, t.live, live);
      r := Calls.Pointer(ptr);
    }

    /** realloc.  The copy keeps the first bytes of the payload, up to the smaller
        of the two sizes, and writes nothing else.  `tags` are all that exist at some
        time during the call; they miss every payload held throughout. */
    method Realloc(p: int, size: int, page: int) returns (r: Calls.Outcome, ghost tags: set<Tag>)
      requires Valid() && (p == 0 || p in live) && MallocOk(Abs(), size, page)
      requires page != 0 ==> page + PagesFor(size) * PAGE <= ram.Length
      modifies this, freePages, completePages, repr, ram
      ensures Valid() && old(repr) + repr <= tags && fresh(tags - old(repr))
      ensures ClearOf(tags, old(live), live)
      ensures (Abs(), r) == Calls.Realloc(old(Abs()), p, size, page)
      ensures size == 0 || p == 0 || r == Calls.NullStore ==> ram[..] == old(ram[..])
      ensures size != 0 && p != 0 && r != Calls.NullStore ==>
        IsCopy(old(ram[..]), ram[..], r.ptr, p, if old(live)[p] > size then size else old(live)[p])
      ensures size != 0 && p != 0 && r != Calls.NullStore ==>
        var n := if old(live)[p] > size then size else old(live)[p];
        && 0 <= n && 0 <= r.ptr && r.ptr + n <= ram.Length && 0 <= p && p + n <= ram.Length
        && ram[r.ptr..r.ptr + n] == old(ram[p..p + n])
    {
      hide IsCopy;
      hide Recorded;
      hide ChunksOf;
      hide Rep;
      hide NoStrays;
      hide Inv;
      hide ChainsOk;
      hide LinksOk;
      hide Agrees;
      hide SizesOf;
      hide Calls.Malloc;
      hide Calls.Free;
      hide ClearOf;
      hide HeadersIn;
      tags := repr;
      if size == 0 {
        var back := Free(p);
        return Calls.Pointer(0), tags;
      }
      if p == 0 {
        var q := Malloc(size, page);
        return Calls.Pointer(q), repr;
      }
      ghost var m, n := ram[..], if live[p] > size then size else live[p];
      r, tags := Resize(p, size, page);
      if r != Calls.NullStore {
        CopySlices(m, ram[..], r.ptr, p, n);
      }
    }

    /** The links of a tag between calls.  Its split links lead to the tags that
        start where it ends and end where it starts, and back.  If it is on a list
        it is on the one its size calls for, and its list links lead to the tags
        next to it there, and back; if not, it is linked to nothing. */
    lemma TagLinks(a: int)
      requires Valid() && a in tagAt
      ensures var t := tagAt[a];
        && (t.splitRight == null <==> a + t.realSize == t.limit)
        && (t.splitRight != null ==> t.splitRight.addr == a + t.realSize && t.splitRight.splitLeft == t)
        && (t.splitLeft == null <==> a == t.base)
        && (t.splitLeft != null ==> t.splitLeft.addr + t.splitLeft.realSize == a && t.splitLeft.splitRight == t)
      ensures var t := tagAt[a];
        if t.index >= 0 then
          && t.index == SizeClass(t.realSize - HEADER)
          && a in lists[t.index]
          && (t.next != null ==> t.next.prev == t && t.next.index == t.index)
          && (t.prev != null ==> t.prev.next == t && t.prev.index == t.index)
          && (t.prev == null <==> freePages[t.index] == t)
        else t.index == -1 && t.next == null && t.prev == null && forall i :: 0 <= i < CLASSES ==> a !in lists[i]
    {
      RightOf(tagAt, view, a);
      assert ChainAt(tagAt, view, a);
      if tagAt[a].index >= 0 {
        ListLinks(a);
      } else {
        Unlinked(tagAt, view, heads, lists, a);
      }
    }

    lemma ListLinks(a: int)
      requires Valid() && a in tagAt && tagAt[a].index >= 0
      ensures var t := tagAt[a];
        && t.index == SizeClass(t.realSize - HEADER)
        && a in lists[t.index]
        && (t.next != null ==> t.next.prev == t && t.next.index == t.index)
        && (t.prev != null ==> t.prev.next == t && t.prev.index == t.index)
        && (t.prev == null <==> freePages[t.index] == t)
    {
      var i := tagAt[a].index;
      IndexIsClass(tagAt, view, heads, lists, a);
      ChunkAt(tagAt, view, a);
      var k := ListPlace(tagAt, view, heads, lists, NOWHERE, tagAt[a]);
      assert HeadAt(tagAt, heads, lists, i);
      if k > 0 { assert ListAt(tagAt, view, lists, i, k - 1); }
      if k + 1 < |lists[i]| { assert ListAt(tagAt, view, lists, i, k + 1); }
    }

    lemma SizeOfTag(ptr: int)
      requires Rep() && Recorded(live, SizesOf(view)) && ptr in live && ptr - HEADER in tagAt
      ensures tagAt[ptr - HEADER].size == live[ptr]
    {
      assert live[ptr] == SizesOf(view)[ptr - HEADER];
    }

    /** The heap before the first call: static storage, all zero. */
    constructor (ram: array<Byte>)
      ensures Valid() && fresh(freePages) && fresh(completePages) && repr == {}
      ensures this.ram == ram && Abs() == Calls.Empty
    {
      freePages := new Tag?[CLASSES](_ => null);
      completePages := new int[CLASSES](_ => 0);
      this.ram := ram;
      initialized := false;
      tagAt := map[];
      lists := seq(CLASSES, _ => []);
      live := map[];
      view := map[];
      heads := seq(CLASSES, _ => null);
      repr := {};
      new;
      assert completePages[..] == Calls.Empty.complete;
      assert Abs() == Calls.Empty;
      Calls.EmptyInv();
    }
  }

  /** The value of four bytes, least significant first. */
  function Word(b0: Byte, b1: Byte, b2: Byte, b3: Byte): (w: int)
    ensures 0 <= w < U32_RANGE
  {
    (b0 as int) + 0x100 * (b1 as int) + 0x1_0000 * (b2 as int) + 0x100_0000 * (b3 as int)
  }

  /** Cutting a word into bytes and putting them together gives the word. */
  lemma WordBytes(w: int)
    requires 0 <= w < U32_RANGE
    ensures 0 <= w % 0x100 < 0x100 && 0 <= w / 0x100 % 0x100 < 0x100 && 0 <= w / 0x1_0000 % 0x100 < 0x100
    ensures 0 <= w / 0x100_0000 < 0x100
    ensures Word(w % 0x100, w / 0x100 % 0x100, w / 0x1_0000 % 0x100, w / 0x100_0000) == w
  {
    assert w / 0x1_0000 == w / 0x100 / 0x100;
    assert w / 0x100_0000 == w / 0x1_0000 / 0x100;
  }

  /** A word determines its bytes. */
  lemma WordInjective(b0: Byte, b1: Byte, b2: Byte, b3: Byte, c0: Byte, c1: Byte, c2: Byte, c3: Byte)
    requires Word(b0, b1, b2, b3) == Word(c0, c1, c2, c3)
    ensures b0 == c0 && b1 == c1 && b2 == c2 && b3 == c3
  {
    LowByte(b0, b1 as int + 0x100 * (b2 as int + 0x100 * b3 as int), c0, c1 as int + 0x100 * (c2 as int + 0x100 * c3 as int));
    LowByte(b1, b2 as int + 0x100 * b3 as int, c1, c2 as int + 0x100 * c3 as int);
    LowByte(b2, b3 as int, c2, c3 as int);
  }

  lemma LowByte(b: Byte, x: int, c: Byte, y: int)
    requires b as int + 0x100 * x == c as int + 0x100 * y
    ensures b == c && x == y
  {
  }

  lemma RecordedCarve(live: map<int, int>, sizes: map<int, int>, a: int, size: int, n: int, after: map<int, int>)
    requires Recorded(live, sizes) && a + HEADER !in live && n != a && n !in sizes
    requires n in after ==> after == sizes[a := size][n := after[n]]
    requires n !in after ==> after == sizes[a := size]
    ensures Recorded(live[a + HEADER := size], after)
  {
    var l := live[a + HEADER := size];
    forall p | p in l ensures p - HEADER in after && after[p - HEADER] == l[p] {
      if p != a + HEADER {
        assert live[p] == sizes[p - HEADER];
      }
    }
  }

  lemma RecordedFree(live: map<int, int>, sizes: map<int, int>, ptr: int, t: State, after: map<int, int>)
    requires Recorded(live, sizes) && Within(after, sizes)
    requires Inv(t) && t.live == live - {ptr} && t.chunks.Keys == after.Keys
    ensures Recorded(t.live, after)
  {
    forall p | p in t.live ensures p - HEADER in after && after[p - HEADER] == t.live[p] {
      Calls.LiveAddress(t, p);
      assert live[p] == sizes[p - HEADER];
    }
  }

  /** realloc's copy reaches no payload but the new one. */
  lemma CopyMissesOthers(t: State, m: seq<Byte>, m2: seq<Byte>, dest: int, src: int, n: int, q: int)
    requires Inv(t) && dest in t.live && n <= t.live[dest] && IsCopy(m, m2, dest, src, n)
    requires q in t.live && q != dest
    ensures |m2| == |m| && forall j :: q <= j < q + t.live[q] && 0 <= j < |m| ==> m2[j] == m[j]
  {
    Calls.PayloadsApart(t, q, dest);
    assert Calls.Apart(q, t.live[q], dest, t.live[dest]);
    forall j | q <= j < q + t.live[q] && 0 <= j < |m| ensures m2[j] == m[j] {
      assert !(dest <= j < dest + n);
    }
  }
}
