/** The transmit ring of drivers/ixgbe.c as a protocol between driver and
    hardware, every step of either of them atomic. */
module IxgbeRing {

  type Frame = seq<int>

  /** The slot after i in a ring of n. */
  function NextSlot(i: int, n: int): int {
    if i + 1 >= n then 0 else i + 1
  }

  /** Steps from slot a forward to slot b. */
  function Dist(a: int, b: int, n: int): int {
    if a <= b then b - a else b - a + n
  }

  /** The slots from a up to, and without, b. */
  function Window<T>(slots: seq<T>, a: int, b: int): (w: seq<T>)
    requires 0 <= a < |slots| && 0 <= b < |slots|
    ensures |w| == Dist(a, b, |slots|)
    decreases Dist(a, b, |slots|)
  {
    if a == b then [] else [slots[a]] + Window(slots, NextSlot(a, |slots|), b)
  }

  // ---------------------------------------------------------------- one call

  /** What one turn of the send loop does with a frame of `size` bytes, given the
      head the driver read and the tail it has reached. */
  datatype Decision = Full | TooBig | Store

  function Decide(head: int, tail: int, size: int, bufsize: int, n: int): Decision {
    if head == NextSlot(tail, n) then Full
    else if size >= bufsize then TooBig
    else Store
  }

  /** The frames a call accepts, and whether it saw the ring full or a frame too big. */
  datatype Accepted = Accepted(taken: seq<Frame>, full: bool, big: bool)

  /** In order, those that fit a buffer, until there is no room. */
  function Accept(frames: seq<Frame>, room: int, bufsize: int): Accepted {
    if frames == [] then Accepted([], false, false)
    else if room == 0 then Accepted([], true, false)
    else if |frames[0]| >= bufsize then Accept(frames[1..], room, bufsize).(big := true)
    else
      var a := Accept(frames[1..], room - 1, bufsize);
      a.(taken := [frames[0]] + a.taken)
  }

  /** Room in the ring as the driver sees it: one slot always stays empty. */
  function Room(head: int, tail: int, n: int): int {
    n - 1 - Dist(head, tail, n)
  }

  /** The comparison in the loop is the test for room. */
  lemma FullMeansNoRoom(head: int, tail: int, n: int)
    requires 0 <= head < n && 0 <= tail < n
    ensures 0 <= Room(head, tail, n) < n
    ensures head == NextSlot(tail, n) <==> Room(head, tail, n) == 0
    ensures head != NextSlot(tail, n) ==> Room(head, NextSlot(tail, n), n) == Room(head, tail, n) - 1
  {
  }

  /** The frames that fit a buffer. */
  function Fitting(frames: seq<Frame>, bufsize: int): seq<Frame> {
    if frames == [] then []
    else (if |frames[0]| < bufsize then [frames[0]] else []) + Fitting(frames[1..], bufsize)
  }

  lemma {:induction false} AcceptFits(frames: seq<Frame>, room: nat, bufsize: int)
    ensures |Accept(frames, room, bufsize).taken| <= room
    ensures Accept(frames, room, bufsize).taken <= Fitting(frames, bufsize)
    ensures Accept(frames, room, bufsize).full || Accept(frames, room, bufsize).taken == Fitting(frames, bufsize)
    ensures Accept(frames, room, bufsize).full ==> |Accept(frames, room, bufsize).taken| == room
    decreases |frames|
  {
    if frames != [] && room > 0 {
      AcceptFits(frames[1..], if |frames[0]| < bufsize then room - 1 else room, bufsize);
    }
  }

  /** After k frames the driver still has one to look at and has taken `count`. */
  predicate Reaches(frames: seq<Frame>, k: nat, count: int, bufsize: int) {
    k < |frames| && |Fitting(frames[..k], bufsize)| == count
  }

  lemma ReachesNext(frames: seq<Frame>, k: nat, count: int, bufsize: int)
    requires frames != []
    ensures Reaches(frames, k + 1, count, bufsize)
       <==> Reaches(frames[1..], k, if |frames[0]| < bufsize then count - 1 else count, bufsize)
  {
    if k + 1 < |frames| {
      assert frames[..k + 1][1..] == frames[1..][..k];
    }
  }

  /** The ring is seen full exactly if all its room was taken with a frame still to come. */
  lemma {:induction false} AcceptSeesFull(frames: seq<Frame>, room: nat, bufsize: int)
    ensures Accept(frames, room, bufsize).full <==> exists k: nat :: Reaches(frames, k, room, bufsize)
    decreases |frames|
  {
    if frames != [] && room == 0 {
      assert Reaches(frames, 0, room, bufsize);
    } else if frames != [] {
      var rest := if |frames[0]| < bufsize then room - 1 else room;
      AcceptSeesFull(frames[1..], rest, bufsize);
      forall k: nat
        ensures Reaches(frames, k + 1, room, bufsize) <==> Reaches(frames[1..], k, rest, bufsize)
      {
        ReachesNext(frames, k, room, bufsize);
      }
      assert !Reaches(frames, 0, room, bufsize);
      assert forall k: nat :: Reaches(frames, k, room, bufsize) ==> k > 0 && Reaches(frames[1..], k - 1, rest, bufsize);
    }
  }

  /** Frame k is too big for a buffer and comes up while there is room. */
  predicate BigAt(frames: seq<Frame>, k: nat, room: int, bufsize: int) {
    k < |frames| && |frames[k]| >= bufsize && |Fitting(frames[..k], bufsize)| < room
  }

  lemma BigNext(frames: seq<Frame>, k: nat, room: int, bufsize: int)
    requires frames != []
    ensures BigAt(frames, k + 1, room, bufsize)
       <==> BigAt(frames[1..], k, if |frames[0]| < bufsize then room - 1 else room, bufsize)
  {
    if k + 1 < |frames| {
      assert frames[..k + 1][1..] == frames[1..][..k];
    }
  }

  /** A frame too big is reported exactly if one comes up while there is room. */
  lemma {:induction false} AcceptSeesBig(frames: seq<Frame>, room: nat, bufsize: int)
    ensures Accept(frames, room, bufsize).big <==> exists k: nat :: BigAt(frames, k, room, bufsize)
    decreases |frames|
  {
    if frames != [] && room > 0 {
      var rest := if |frames[0]| < bufsize then room - 1 else room;
      AcceptSeesBig(frames[1..], rest, bufsize);
      forall k: nat
        ensures BigAt(frames, k + 1, room, bufsize) <==> BigAt(frames[1..], k, rest, bufsize)
      {
        BigNext(frames, k, room, bufsize);
      }
      assert Fitting(frames[..0], bufsize) == [];
      assert BigAt(frames, 0, room, bufsize) <==> |frames[0]| >= bufsize;
      assert forall k: nat :: BigAt(frames, k, room, bufsize) && k > 0 ==> BigAt(frames[1..], k - 1, rest, bufsize);
    }
  }

  /** The frames that fit are those shorter than a buffer, each as often as it comes. */
  lemma {:induction false} FittingMeans(frames: seq<Frame>, bufsize: int, f: Frame)
    ensures multiset(Fitting(frames, bufsize))[f] == if |f| < bufsize then multiset(frames)[f] else 0
    decreases |frames|
  {
    if frames != [] {
      FittingMeans(frames[1..], bufsize, f);
      assert frames == [frames[0]] + frames[1..];
    }
  }

  /** The window from a to b is the slots from a on, around the ring, up to b. */
  lemma {:induction false} WindowAt<T>(slots: seq<T>, a: int, b: int, k: nat)
    requires 0 <= a < |slots| && 0 <= b < |slots| && k < |Window(slots, a, b)|
    ensures |Window(slots, a, b)| == if a <= b then b - a else b - a + |slots|
    ensures Window(slots, a, b)[k] == slots[if a + k < |slots| then a + k else a + k - |slots|]
    decreases Dist(a, b, |slots|)
  {
    if k > 0 {
      WindowAt(slots, NextSlot(a, |slots|), b, k - 1);
    }
  }

  /** The slot k steps after a. */
  function Advance(a: int, k: nat, n: nat): (b: int)
    requires 0 <= a < n
    ensures 0 <= b < n
    decreases k
  {
    if k == 0 then a else Advance(NextSlot(a, n), k - 1, n)
  }

  /** Items stored one slot after the other, from slot a. */
  function StoreAll<T>(slots: seq<T>, a: int, items: seq<T>): (t: seq<T>)
    requires 0 <= a < |slots|
    ensures |t| == |slots|
    decreases |items|
  {
    if items == [] then slots
    else StoreAll(slots[a := items[0]], NextSlot(a, |slots|), items[1..])
  }

  lemma {:induction false} StoreSnoc<T>(slots: seq<T>, a: int, items: seq<T>, x: T)
    requires 0 <= a < |slots|
    ensures StoreAll(slots, a, items + [x]) == StoreAll(slots, a, items)[Advance(a, |items|, |slots|) := x]
    ensures Advance(a, |items| + 1, |slots|) == NextSlot(Advance(a, |items|, |slots|), |slots|)
    decreases |items|
  {
    if items == [] {
      assert (items + [x])[1..] == [];
      assert Advance(a, 1, |slots|) == Advance(NextSlot(a, |slots|), 0, |slots|);
    } else {
      assert (items + [x])[1..] == items[1..] + [x];
      StoreSnoc(slots[a := items[0]], NextSlot(a, |slots|), items[1..], x);
    }
  }

  /** Stored in the free slots, items join the ring at its end. */
  lemma {:induction false} StoreExtendsWindow<T>(slots: seq<T>, h: int, t: int, items: seq<T>)
    requires 0 <= h < |slots| && 0 <= t < |slots| && |items| <= Room(h, t, |slots|)
    ensures Window(StoreAll(slots, t, items), h, Advance(t, |items|, |slots|)) == Window(slots, h, t) + items
    decreases |items|
  {
    var n := |slots|;
    if items != [] {
      FullMeansNoRoom(h, t, n);
      WindowSnoc(slots, h, t, items[0]);
      StoreExtendsWindow(slots[t := items[0]], h, NextSlot(t, n), items[1..]);
      assert Window(slots, h, t) + items == Window(slots, h, t) + [items[0]] + items[1..];
    } else {
      assert Window(slots, h, t) + items == Window(slots, h, t);
    }
  }

  // ---------------------------------------------------------------- the protocol

  /** Where the driver is: between calls; having read the head; in the loop with
      the frames still to come. */
  datatype Driver =
    | Idle
    | ReadingHead(frames: seq<Frame>)
    | ReadingTail(head: int, frames: seq<Frame>)
    | Looping(head: int, tail: int, frames: seq<Frame>, full: bool)

  /** The ring, the two registers, the driver, and the history of frames accepted
      by the driver and sent by the hardware. */
  datatype Ring = Ring(slots: seq<Frame>, head: int, tdt: int, driver: Driver,
                       accepted: seq<Frame>, sent: seq<Frame>)

  datatype Step =
    | Call(frames: seq<Frame>)
    | ReadHead
    | ReadTail
    | Turn
    | Publish
    | Transmit

  predicate Enabled(r: Ring, step: Step) {
    match step
    case Call(_) => r.driver.Idle?
    case ReadHead => r.driver.ReadingHead?
    case ReadTail => r.driver.ReadingTail?
    case Turn => r.driver.Looping? && !r.driver.full && r.driver.frames != []
    case Publish => r.driver.Looping? && (r.driver.full || r.driver.frames == [])
    case Transmit => r.head != r.tdt
  }

  /** The slot the driver writes in a step, if any. */
  predicate Writes(r: Ring, step: Step, bufsize: int, x: int) {
    && step == Turn && Enabled(r, step)
    && Decide(r.driver.head, r.driver.tail, |r.driver.frames[0]|, bufsize, |r.slots|) == Store
    && x == r.driver.tail
  }

  function Next(r: Ring, step: Step, bufsize: int): Ring
    requires Inv(r) && Enabled(r, step)
  {
    match step
    case Call(frames) => r.(driver := ReadingHead(frames))
    case ReadHead => r.(driver := ReadingTail(r.head, r.driver.frames))
    case ReadTail => r.(driver := Looping(r.driver.head, r.tdt, r.driver.frames, false))
    case Turn =>
      var d := r.driver;
      (match Decide(d.head, d.tail, |d.frames[0]|, bufsize, |r.slots|)
       case Full => r.(driver := Looping(d.head, d.tail, d.frames, true))
       case TooBig => r.(driver := Looping(d.head, d.tail, d.frames[1..], false))
       case Store => r.(slots := r.slots[d.tail := d.frames[0]],
                        driver := Looping(d.head, NextSlot(d.tail, |r.slots|), d.frames[1..], false),
                        accepted := r.accepted + [d.frames[0]]))
    case Publish => r.(tdt := r.driver.tail, driver := Idle)
    case Transmit => r.(head := NextSlot(r.head, |r.slots|), sent := r.sent + [r.slots[r.head]])
  }

  /** How far the driver has filled the ring. */
  function Front(r: Ring): int {
    if r.driver.Looping? then r.driver.tail else r.tdt
  }

  predicate Slot(x: int, n: int) {
    0 <= x < n
  }

  /** b lies on the way from a to c. */
  predicate Between(a: int, b: int, c: int, n: int) {
    Dist(a, b, n) + Dist(b, c, n) == Dist(a, c, n)
  }

  /** There is at least as much room behind a slot that the head may have moved to. */
  lemma RoomBehind(head: int, h: int, tail: int, n: int)
    requires 0 <= head < n && 0 <= h < n && 0 <= tail < n && Between(head, h, tail, n)
    ensures Room(head, tail, n) <= Room(h, tail, n)
  {
  }

  /** The head the driver has read is at or behind the hardware's. */
  predicate StaleOk(r: Ring) {
    match r.driver
    case Idle => true
    case ReadingHead(_) => true
    case ReadingTail(h, _) => Slot(h, |r.slots|) && Between(h, r.head, r.tdt, |r.slots|)
    case Looping(h, t, _, _) =>
      && Slot(h, |r.slots|) && Slot(t, |r.slots|)
      && Between(h, r.head, t, |r.slots|)
      && Between(r.head, r.tdt, t, |r.slots|)
  }

  predicate Inv(r: Ring) {
    && |r.slots| >= 1
    && Slot(r.head, |r.slots|) && Slot(r.tdt, |r.slots|)
    && StaleOk(r)
    && r.accepted == r.sent + Window(r.slots, r.head, Front(r))
  }

  /** The setup writes 0 to both registers. */
  predicate Initial(r: Ring) {
    |r.slots| >= 1 && r.head == 0 && r.tdt == 0 && r.driver == Idle && r.accepted == [] && r.sent == []
  }

  // ---------------------------------------------------------------- what the steps keep

  lemma {:induction false} WindowKept<T>(slots: seq<T>, a: int, b: int, x: int, f: T)
    requires 0 <= a < |slots| && 0 <= b < |slots| && 0 <= x < |slots|
    requires Dist(a, b, |slots|) <= Dist(a, x, |slots|)
    ensures Window(slots[x := f], a, b) == Window(slots, a, b)
    decreases Dist(a, b, |slots|)
  {
    if a != b {
      WindowKept(slots, NextSlot(a, |slots|), b, x, f);
    }
  }

  lemma {:induction false} WindowSnoc<T>(slots: seq<T>, a: int, b: int, f: T)
    requires 0 <= a < |slots| && 0 <= b < |slots| && NextSlot(b, |slots|) != a
    ensures Window(slots[b := f], a, NextSlot(b, |slots|)) == Window(slots, a, b) + [f]
    decreases Dist(a, b, |slots|)
  {
    var n := |slots|;
    var c := NextSlot(b, n);
    if a == b {
      assert Window(slots[b := f], c, c) == [];
    } else {
      WindowSnoc(slots, NextSlot(a, n), b, f);
    }
  }

  /** The slot the driver writes is neither the hardware's nor one it has written
      itself and not yet published, stale as the head may be. */
  lemma WritesOnlyFree(r: Ring, step: Step, bufsize: int, x: int)
    requires Inv(r) && Writes(r, step, bufsize, x)
    ensures Slot(x, |r.slots|)
    ensures Dist(r.head, x, |r.slots|) >= Dist(r.head, r.tdt, |r.slots|)
    ensures Dist(r.head, x, |r.slots|) == Dist(r.head, Front(r), |r.slots|) < |r.slots| - 1
  {
  }

  lemma NextKeepsInv(r: Ring, step: Step, bufsize: int)
    requires Inv(r) && Enabled(r, step)
    ensures Inv(Next(r, step, bufsize))
  {
    match step
    case Call(_) =>
    case ReadHead =>
    case ReadTail =>
    case Publish =>
    case Transmit => TransmitKeepsInv(r, bufsize);
    case Turn => TurnKeepsInv(r, bufsize);
  }

  lemma TransmitKeepsInv(r: Ring, bufsize: int)
    requires Inv(r) && Enabled(r, Transmit)
    ensures Inv(Next(r, Transmit, bufsize))
  {
    var t := Next(r, Transmit, bufsize);
    assert Window(r.slots, r.head, Front(r)) == [r.slots[r.head]] + Window(r.slots, t.head, Front(r));
    assert t.accepted == r.sent + ([r.slots[r.head]] + Window(r.slots, t.head, Front(r)));
  }

  lemma TurnKeepsInv(r: Ring, bufsize: int)
    requires Inv(r) && Enabled(r, Turn)
    ensures Inv(Next(r, Turn, bufsize))
  {
    var t := Next(r, Turn, bufsize);
    if Writes(r, Turn, bufsize, r.driver.tail) {
      WindowSnoc(r.slots, r.head, r.driver.tail, r.driver.frames[0]);
      assert t.accepted == r.sent + (Window(r.slots, r.head, Front(r)) + [r.driver.frames[0]]);
    }
  }

  // ---------------------------------------------------------------- runs

  predicate Run(r: Ring, steps: seq<Step>, bufsize: int)
    requires Inv(r)
    decreases |steps|
  {
    steps == [] ||
    (Enabled(r, steps[0]) && (NextKeepsInv(r, steps[0], bufsize); Run(Next(r, steps[0], bufsize), steps[1..], bufsize)))
  }

  function After(r: Ring, steps: seq<Step>, bufsize: int): (t: Ring)
    requires Inv(r) && Run(r, steps, bufsize)
    ensures Inv(t) && |t.slots| == |r.slots|
    decreases |steps|
  {
    if steps == [] then r
    else
      NextKeepsInv(r, steps[0], bufsize);
      After(Next(r, steps[0], bufsize), steps[1..], bufsize)
  }

  /** In every interleaving the ring is a queue of capacity n - 1: what was sent is
      the beginning of what was accepted, and the rest is in the ring. */
  lemma RingIsQueue(r: Ring, steps: seq<Step>, bufsize: int)
    requires Initial(r) && Run(r, steps, bufsize)
    ensures var t := After(r, steps, bufsize);
      && t.sent <= t.accepted
      && t.accepted[|t.sent|..] == Window(t.slots, t.head, Front(t))
      && |t.accepted| - |t.sent| <= |t.slots| - 1
  {
    var t := After(r, steps, bufsize);
    assert t.accepted == t.sent + Window(t.slots, t.head, Front(t));
  }

  /** However stale the head the driver goes by, in every interleaving the slot it
      writes is not between the hardware's head and the tail register, and whatever
      it stores there leaves everything still to be sent as it was. */
  lemma RunWritesOnlyFree(r: Ring, steps: seq<Step>, step: Step, x: int, f: Frame, bufsize: int)
    requires Initial(r) && Run(r, steps, bufsize) && Writes(After(r, steps, bufsize), step, bufsize, x)
    ensures var t := After(r, steps, bufsize);
      && 0 <= x < |t.slots|
      && Dist(t.head, t.tdt, |t.slots|) <= Dist(t.head, x, |t.slots|)
      && Window(t.slots[x := f], t.head, Front(t)) == Window(t.slots, t.head, Front(t))
  {
    var t := After(r, steps, bufsize);
    WritesOnlyFree(t, step, bufsize, x);
    WindowKept(t.slots, t.head, Front(t), x, f);
  }

  // ---------------------------------------------------------------- what a call accepts

  /** What will have been accepted when the call in progress is over. */
  function Plan(r: Ring, bufsize: int): seq<Frame>
    requires r.driver.Looping?
  {
    var d := r.driver;
    if d.full then r.accepted
    else r.accepted + Accept(d.frames, Room(d.head, d.tail, |r.slots|), bufsize).taken
  }

  lemma PlanKept(r: Ring, step: Step, bufsize: int)
    requires Inv(r) && r.driver.Looping? && Enabled(r, step) && step != Publish
    ensures Next(r, step, bufsize).driver.Looping?
    ensures Plan(Next(r, step, bufsize), bufsize) == Plan(r, bufsize)
  {
    var d := r.driver;
    FullMeansNoRoom(d.head, d.tail, |r.slots|);
    if step == Turn && Decide(d.head, d.tail, |d.frames[0]|, bufsize, |r.slots|) == Store {
      var rest := Accept(d.frames[1..], Room(d.head, d.tail, |r.slots|) - 1, bufsize).taken;
      assert Plan(r, bufsize) == r.accepted + ([d.frames[0]] + rest);
    }
  }

  /** Whatever the hardware does meanwhile, a call accepts exactly the frames that
      fit a buffer, in order, until the room it saw at its start is used up. */
  lemma {:induction false} CallAccepts(r: Ring, steps: seq<Step>, bufsize: int)
    requires Inv(r) && r.driver.Looping? && Run(r, steps, bufsize)
    requires forall k :: 0 <= k < |steps| ==> steps[k] != Publish
    requires Enabled(After(r, steps, bufsize), Publish)
    ensures After(r, steps, bufsize).accepted == Plan(r, bufsize)
    decreases |steps|
  {
    if steps != [] {
      NextKeepsInv(r, steps[0], bufsize);
      PlanKept(r, steps[0], bufsize);
      CallAccepts(Next(r, steps[0], bufsize), steps[1..], bufsize);
    }
  }

  // ---------------------------------------------------------------- the receive loop

  /** Walking the ring from slot a meets the head if and only if the head is a slot;
      the comparison at drivers/ixgbe.c:405 lets a head of n through as well, from
      which the loop has no exit. */
  lemma LoopExits(a: int, head: int, n: nat)
    requires 0 <= a < n && 0 <= head <= n
    ensures (exists k: nat :: Advance(a, k, n) == head) <==> head < n
  {
    if head < n {
      AdvanceDist(a, head, n);
    }
  }

  lemma {:induction false} AdvanceDist(a: int, b: int, n: nat)
    requires 0 <= a < n && 0 <= b < n
    ensures Advance(a, Dist(a, b, n), n) == b
    decreases Dist(a, b, n)
  {
    if a != b {
      AdvanceDist(NextSlot(a, n), b, n);
    }
  }

  /** The number of slots between the tail and the head. */
  lemma SlotsArrived<T>(slots: seq<T>, tail: int, head: int)
    requires 0 <= tail < |slots| && 0 <= head < |slots|
    ensures |Window(slots, NextSlot(tail, |slots|), head)| == (head - tail - 1) % |slots|
  {
    ModOnce(head - tail - 1, |slots|);
  }

  lemma ModOnce(x: int, n: int)
    requires n > 0 && -n <= x < n
    ensures x % n == if x < 0 then x + n else x
  {
    if x < 0 {
      assert x == n * -1 + (x + n);
    }
  }
}
