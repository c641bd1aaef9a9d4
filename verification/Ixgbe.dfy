/** Sending and receiving frames in drivers/ixgbe.c, one call at a time. */
module Ixgbe {
  import opened IxgbeRing

  /** IXGBE_RET_*: the bits of *error. */
  datatype Error =
    | XmtDisabled | XmtFull | XmtBig
    | RcvDisabled | RcvEop | RcvIpe | RcvTcpe | RcvRxe

  const UNREADABLE := 0xFFFF_FFFF
  const BATCH := 16

  /** The fields of a transmit descriptor that the driver writes. */
  datatype TDesc = TDesc(len: int, eop: bool, ifcs: bool)

  /** The fields of a receive descriptor that the driver reads. */
  datatype RDesc = RDesc(len: int, eop: bool, ipe: bool, tcpe: bool, rxe: bool)

  /** One received frame: its buffer and its length. */
  datatype Received = Received(buf: int, len: int)

  class Queue {
    const bufsize: int
    const numTdesc: nat
    const numRdesc: nat
    const tdescRing: array<TDesc>
    const tdescBuf: array<Frame>        // the bytes of each transmit buffer
    const rdescRing: array<RDesc>
    const rdescBuf: array<int>          // the address of each receive buffer
    var xmitEnabled: bool
    var recvEnabled: bool
    var tdt: int                        // the tail registers
    var rdt: int
    var reports: seq<seq<Received>>     // the batches reported by ixgbe_recv_frames

    ghost predicate RingsOk()
      reads tdescRing, tdescBuf
    {
      && 1 <= numTdesc < UNREADABLE && tdescRing.Length == tdescBuf.Length == numTdesc
      && 1 <= numRdesc < UNREADABLE && rdescRing.Length == rdescBuf.Length == numRdesc
      && forall x :: 0 <= x < numTdesc ==> 0 <= tdescRing[x].len <= |tdescBuf[x]| && bufsize <= |tdescBuf[x]|
    }

    ghost predicate Valid()
      reads this, tdescRing, tdescBuf
    {
      RingsOk() && 0 <= tdt < numTdesc && 0 <= rdt <= numRdesc
    }

    /** The rings as ixgbe_setup_xmit and ixgbe_setup_recv leave them. */
    constructor (bufsize: nat, numTdesc: nat, numRdesc: nat, rdescBuf: array<int>)
      requires 1 <= numTdesc < UNREADABLE && 1 <= numRdesc < UNREADABLE && rdescBuf.Length == numRdesc
      ensures Valid() && tdt == 0 && rdt == numRdesc - 1 && reports == []
      ensures xmitEnabled && recvEnabled
      ensures this.bufsize == bufsize && this.numTdesc == numTdesc && this.numRdesc == numRdesc
      ensures this.rdescBuf == rdescBuf && fresh(tdescRing) && fresh(tdescBuf) && fresh(rdescRing)
      ensures forall x :: 0 <= x < numTdesc ==> tdescRing[x] == TDesc(0, false, false) && |tdescBuf[x]| == bufsize
      ensures forall x :: 0 <= x < numRdesc ==> rdescRing[x] == RDesc(0, false, false, false, false)
    {
      this.bufsize := bufsize;
      this.numTdesc := numTdesc;
      this.numRdesc := numRdesc;
      this.rdescBuf := rdescBuf;
      tdescRing := new TDesc[numTdesc](_ => TDesc(0, false, false));
      tdescBuf := new Frame[numTdesc](_ => seq(bufsize, _ => 0));
      rdescRing := new RDesc[numRdesc](_ => RDesc(0, false, false, false, false));
      xmitEnabled := true;
      recvEnabled := true;
      tdt := 0;
      rdt := numRdesc - 1;
      reports := [];
    }

    // -------------------------------------------------------------- transmission

    /** What the hardware sends from each slot: the first len bytes of its buffer. */
    ghost function Slots(): (s: seq<Frame>)
      requires RingsOk()
      reads tdescRing, tdescBuf
      ensures |s| == numTdesc
    {
      seq(numTdesc, x requires 0 <= x < numTdesc && RingsOk() reads tdescRing, tdescBuf => tdescBuf[x][..tdescRing[x].len])
    }

    /** Copy a frame into slot x and describe it. */
    method FillSlot(x: int, frame: Frame)
      requires Valid() && 0 <= x < numTdesc && |frame| < bufsize
      modifies tdescRing, tdescBuf
      ensures Valid()
      ensures Slots() == old(Slots())[x := frame]
      ensures tdescRing[..] == old(tdescRing[..])[x := TDesc(|frame|, true, true)]
    {
      tdescBuf[x] := frame + tdescBuf[x][|frame|..];
      tdescRing[x] := TDesc(|frame|, true, true);
    }

    /** Send as many of the frames as fit. `head` and `tail` are what the two
        registers read as; a device that is gone reads as all ones.  By the end of
        the call the hardware may be at any slot h from there to the tail: what it
        still had to send is followed by the frames taken. */
    method SendFrames(frames: seq<Frame>, head: int, tail: int) returns (ok: bool, error: set<Error>)
      requires Valid()
      requires head == 0xFFFF_FFFF || 0 <= head < numTdesc
      requires tail == 0xFFFF_FFFF || tail == tdt
      modifies this`tdt, tdescRing, tdescBuf
      ensures Valid() && ok == (error == {})
      ensures !xmitEnabled || head == 0xFFFF_FFFF || tail == 0xFFFF_FFFF ==>
                error == {XmtDisabled} && tdt == old(tdt) && Slots() == old(Slots()) && tdescRing[..] == old(tdescRing[..])
      ensures xmitEnabled && head != 0xFFFF_FFFF && tail != 0xFFFF_FFFF ==>
                var a := Accept(frames, Room(head, tail, numTdesc), bufsize);
                && tdt == Advance(tail, |a.taken|, numTdesc)
                && Slots() == StoreAll(old(Slots()), tail, a.taken)
                && tdescRing[..] == StoreAll(old(tdescRing[..]), tail, Described(a.taken))
                && (forall h {:trigger Window(Slots(), h, tdt)} :: 0 <= h < numTdesc && Between(head, h, tail, numTdesc) ==>
                      Window(Slots(), h, tdt) == Window(old(Slots()), h, tail) + a.taken)
                && (XmtFull in error <==> a.full) && (XmtBig in error <==> a.big)
                && error <= {XmtFull, XmtBig}
    {
      hide Accept, Window, StoreAll, Advance, Room, Slots, Resumed, Described, Stored;
      error := {};
      if !xmitEnabled || head == UNREADABLE || tail == UNREADABLE {
        error := {XmtDisabled};
        return false, error;
      }
      var t := tail;
      ghost var taken: seq<Frame>, room := [], Room(head, tail, numTdesc);
      FullMeansNoRoom(head, tail, numTdesc);
      ghost var slots, ring := Slots(), tdescRing[..];
      var i := 0;
      assert frames[0..] == frames;
      StoredNone(slots, ring, tail);
      AcceptAll(Accept(frames, room, bufsize));
      while i < |frames|
        invariant Valid() && 0 <= i <= |frames| && tdt == old(tdt)
        invariant 0 <= t == Advance(tail, |taken|, numTdesc) < numTdesc
        invariant Stored(Slots(), tdescRing[..], slots, ring, tail, taken)
        invariant error <= {XmtBig}
        invariant Accept(frames, room, bufsize)
               == Resumed(taken, XmtBig in error, Accept(frames[i..], Room(head, t, numTdesc), bufsize))
      {
        var nt := t + 1;
        if nt >= numTdesc {
          nt := 0;
        }
        FullMeansNoRoom(head, t, numTdesc);
        AcceptTurn(frames, i, Room(head, t, numTdesc), bufsize, taken, XmtBig in error);
        if head == nt {
          error := error + {XmtFull};
          break;
        }
        if |frames[i]| >= bufsize {
          error := error + {XmtBig};
        } else {
          StoredSnoc(Slots(), tdescRing[..], slots, ring, tail, taken, frames[i]);
          FillSlot(t, frames[i]);
          taken := taken + [frames[i]];
          t := nt;
        }
        i := i + 1;
      }
      if XmtFull !in error {
        assert frames[i..] == [];
        FullMeansNoRoom(head, t, numTdesc);
        AcceptNone(Room(head, t, numTdesc), bufsize, taken, XmtBig in error);
      }
      StoredAll(Slots(), tdescRing[..], slots, ring, tail, taken);
      AcceptFits(frames, room, bufsize);
      forall h | 0 <= h < numTdesc && Between(head, h, tail, numTdesc)
        ensures Window(Slots(), h, t) == Window(slots, h, tail) + taken
      {
        RoomBehind(head, h, tail, numTdesc);
        StoreExtendsWindow(slots, h, tail, taken);
      }
      tdt := t;
      ok := error == {};
    }

    // -------------------------------------------------------------- reception

    /** What each slot of the receive ring holds. */
    ghost function Incoming(): (s: seq<Arrival>)
      requires rdescRing.Length == rdescBuf.Length
      reads rdescRing, rdescBuf
      ensures |s| == rdescRing.Length
      ensures forall x :: 0 <= x < |s| ==> s[x] == Arrival(rdescRing[x], rdescBuf[x])
    {
      seq(rdescRing.Length, x requires 0 <= x < rdescRing.Length == rdescBuf.Length reads rdescRing, rdescBuf =>
        Arrival(rdescRing[x], rdescBuf[x]))
    }

    /** Report the first i entries of a batch. */
    method Report(frames: array<int>, frameSizes: array<int>, i: nat)
      requires i <= frames.Length == frameSizes.Length
      modifies this`reports
      ensures reports == old(reports) + [Paired(frames[..i], frameSizes[..i])]
    {
      reports := reports + [Paired(frames[..i], frameSizes[..i])];
    }

    /** Take slot x into place i of the batch. */
    method TakeSlot(frames: array<int>, frameSizes: array<int>, i: nat, x: int) returns (fault: set<Error>)
      requires i < frames.Length == frameSizes.Length && frames != frameSizes
      requires frames != rdescBuf && frameSizes != rdescBuf
      requires 0 <= x < rdescRing.Length == rdescBuf.Length
      modifies frames, frameSizes
      ensures frames[..i] == old(frames[..i]) && frameSizes[..i] == old(frameSizes[..i])
      ensures frames[..i + 1] == frames[..i] + [rdescBuf[x]]
      ensures frameSizes[..i + 1] == frameSizes[..i] + [rdescRing[x].len]
      ensures fault == Fault(rdescRing[x])
    {
      frames[i] := rdescBuf[x];
      frameSizes[i] := rdescRing[x].len;
      fault := Check(rdescRing[x]);
      assert fault == Fault(rdescRing[x]);
    }

    /** The receive loop, from behind the tail up to the head. */
    method TakeAll(head: int, tail: int) returns (t: int, error: set<Error>, ghost batches: seq<seq<Received>>)
      requires Valid() && 0 <= head < numRdesc && 0 <= tail <= numRdesc
      modifies this`reports
      ensures 0 <= t <= numRdesc && NextSlot(t, numRdesc) == head
      ensures var arrived := Window(Incoming(), NextSlot(tail, numRdesc), head);
        && error == Faults(arrived)
        && reports == old(reports) + batches && Batched(batches, Good(arrived))
    {
      hide Window, Good, Faults, Flatten, Paired, Incoming, Batched, Progress, Fault;
      var frames, frameSizes := new int[BATCH], new int[BATCH];
      var i := 0;
      t, error, batches := tail, {}, [];
      ghost var incoming := Incoming();
      ghost var arrived := Window(incoming, NextSlot(tail, numRdesc), head);
      ghost var done: seq<Arrival> := [];
      RecvStart(incoming, NextSlot(tail, numRdesc), head, frames[..0], frameSizes[..0]);
      while true
        invariant 0 <= i <= BATCH && 0 <= t <= numRdesc
        invariant reports == old(reports) + batches
        invariant Progress(incoming, arrived, done, NextSlot(t, numRdesc), head, batches, frames[..i], frameSizes[..i], error)
        decreases Dist(NextSlot(t, numRdesc), head, numRdesc)
      {
        var nt := t + 1;
        if nt >= numRdesc {
          nt := 0;
        }
        if head == nt || i == BATCH {
          Report(frames, frameSizes, i);
          if head == nt {
            batches := batches + [Paired(frames[..i], frameSizes[..i])];
            RecvEnd(incoming, arrived, done, head, batches, frames[..i], frameSizes[..i], error);
            break;
          }
          RecvBatch(incoming, arrived, done, nt, head, batches, frames[..i], frameSizes[..i], error);
          batches := batches + [Paired(frames[..i], frameSizes[..i])];
          i := 0;
        }
        RecvTurn(incoming, arrived, done, nt, head, batches, frames[..i], frameSizes[..i], error);
        done := done + [incoming[nt]];
        t := nt;
        var fault := TakeSlot(frames, frameSizes, i, t);
        if fault != {} {
          error := error + fault;
          continue;
        }
        i := i + 1;
      }
    }

    /** Take the frames that have arrived and report them in batches. `head` and
        `tail` are what the two registers read as.  The one case shut out is the one
        in which the loop has no exit: the guard passes with a head that is no slot. */
    method RecvFrames(head: int, tail: int) returns (ok: bool, error: set<Error>)
      requires Valid() && 0 <= head && 0 <= tail
      requires !(recvEnabled && head == numRdesc && tail <= numRdesc)
      modifies this`rdt, this`reports
      ensures Valid() && ok == (error == {})
      ensures !recvEnabled || head > numRdesc || tail > numRdesc ==>
                error == {RcvDisabled} && rdt == old(rdt) && reports == old(reports)
      ensures recvEnabled && head < numRdesc && tail <= numRdesc ==>
                var arrived := Window(Incoming(), NextSlot(tail, numRdesc), head);
                && NextSlot(rdt, numRdesc) == head
                && |arrived| == (if tail < numRdesc then (head - tail - 1) % numRdesc else head)
                && error == Faults(arrived)
                && exists batches :: reports == old(reports) + batches && Batched(batches, Good(arrived))
    {
      hide Window, Good, Faults, Flatten, Incoming, Batched;
      if !recvEnabled || head < 0 || head > numRdesc || tail < 0 || tail > numRdesc {
        return false, {RcvDisabled};
      }
      if tail < numRdesc {
        SlotsArrived(Incoming(), tail, head);
      }
      var t;
      ghost var batches;
      t, error, batches := TakeAll(head, tail);
      rdt := t;
      ok := error == {};
    }
  }

  /** The first error a descriptor shows: none if and only if it is a whole frame
      without an error flag, and otherwise one, of which no flag tested earlier is set. */
  method Check(d: RDesc) returns (fault: set<Error>)
    ensures fault == {} <==> d.eop && !d.ipe && !d.tcpe && !d.rxe
    ensures |fault| <= 1 && fault <= {RcvEop, RcvIpe, RcvTcpe, RcvRxe}
    ensures RcvEop in fault <==> !d.eop
    ensures RcvIpe in fault <==> d.eop && d.ipe
    ensures RcvTcpe in fault <==> d.eop && !d.ipe && d.tcpe
    ensures RcvRxe in fault <==> d.eop && !d.ipe && !d.tcpe && d.rxe
  {
    if !d.eop {
      return {RcvEop};
    }
    if d.ipe {
      return {RcvIpe};
    }
    if d.tcpe {
      return {RcvTcpe};
    }
    if d.rxe {
      return {RcvRxe};
    }
    return {};
  }

  /** A slot of the receive ring. */
  datatype Arrival = Arrival(desc: RDesc, buf: int)

  /** The one error a descriptor counts for, the first that applies. */
  function Fault(d: RDesc): set<Error> {
    if !d.eop then {RcvEop}
    else if d.ipe then {RcvIpe}
    else if d.tcpe then {RcvTcpe}
    else if d.rxe then {RcvRxe}
    else {}
  }

  /** The frames without an error, in order. */
  function Good(arrived: seq<Arrival>): seq<Received> {
    if arrived == [] then []
    else
      var a := arrived[|arrived| - 1];
      Good(arrived[..|arrived| - 1]) + (if Fault(a.desc) == {} then [Received(a.buf, a.desc.len)] else [])
  }

  /** The errors met on the way. */
  function Faults(arrived: seq<Arrival>): set<Error> {
    if arrived == [] then {}
    else Faults(arrived[..|arrived| - 1]) + Fault(arrived[|arrived| - 1].desc)
  }

  /** A call reports an error if and only if one of the descriptors it went through
      shows that error first. */
  lemma {:induction false} FaultsSeen(arrived: seq<Arrival>, e: Error)
    ensures e in Faults(arrived) <==> exists k :: 0 <= k < |arrived| && e in Fault(arrived[k].desc)
    decreases |arrived|
  {
    if arrived != [] {
      var n := |arrived| - 1;
      FaultsSeen(arrived[..n], e);
      assert forall k :: 0 <= k < n ==> arrived[..n][k] == arrived[k];
      assert arrived[n] == arrived[|arrived| - 1];
    }
  }

  /** A descriptor of a whole frame without an error flag. */
  predicate Clean(d: RDesc) {
    d.eop && !d.ipe && !d.tcpe && !d.rxe
  }

  /** The frames reported are those of the clean descriptors, in ring order, each with
      its buffer and its length. */
  ghost predicate AreClean(arrived: seq<Arrival>, r: seq<Received>, places: seq<int>) {
    && |places| == |r|
    && (forall i :: 0 <= i < |places| ==>
          0 <= places[i] < |arrived| && Clean(arrived[places[i]].desc)
          && r[i].buf == arrived[places[i]].buf && r[i].len == arrived[places[i]].desc.len)
    && (forall i, j :: 0 <= i < j < |places| ==> places[i] < places[j])
    && (forall k :: 0 <= k < |arrived| && Clean(arrived[k].desc) ==> k in places)
  }

  lemma CleanSnoc(arrived: seq<Arrival>, r: seq<Received>, places: seq<int>, a: Arrival)
    requires AreClean(arrived, r, places)
    ensures if Clean(a.desc) then AreClean(arrived + [a], r + [Received(a.buf, a.desc.len)], places + [|arrived|])
            else AreClean(arrived + [a], r, places)
  {
    hide Clean;
    var all := places + [|arrived|];
    assert all[|places|] == |arrived|;
    forall k | 0 <= k < |arrived| && k in places ensures k in all {
      var i :| 0 <= i < |places| && places[i] == k;
      assert all[i] == k;
    }
  }

  lemma {:induction false} GoodMeans(arrived: seq<Arrival>) returns (places: seq<int>)
    ensures AreClean(arrived, Good(arrived), places)
    decreases |arrived|
  {
    if arrived == [] {
      places := [];
    } else {
      hide AreClean;
      var n := |arrived| - 1;
      var front := GoodMeans(arrived[..n]);
      CleanSnoc(arrived[..n], Good(arrived[..n]), front, arrived[n]);
      assert arrived == arrived[..n] + [arrived[n]];
      assert Good(arrived[..n]) + [] == Good(arrived[..n]);
      places := if Clean(arrived[n].desc) then front + [n] else front;
    }
  }

  function Flatten<T>(parts: seq<seq<T>>): seq<T> {
    if parts == [] then [] else Flatten(parts[..|parts| - 1]) + parts[|parts| - 1]
  }

  /** Batches, all full but the last, that make up one sequence. */
  ghost predicate Batched(batches: seq<seq<Received>>, all: seq<Received>) {
    && batches != []
    && (forall k :: 0 <= k < |batches| - 1 ==> |batches[k]| == 16)
    && |batches[|batches| - 1]| <= 16
    && Flatten(batches) == all
  }

  /** A batch, from the two arrays that hold it. */
  function Paired(frames: seq<int>, sizes: seq<int>): (r: seq<Received>)
    requires |frames| == |sizes|
    ensures |r| == |frames|
  {
    seq(|frames|, k requires 0 <= k < |frames| == |sizes| => Received(frames[k], sizes[k]))
  }

  /** In the middle of a call: of the slots that have arrived, `done` are behind it,
      their good frames in full batches and a batch begun. */
  ghost predicate Progress(incoming: seq<Arrival>, arrived: seq<Arrival>, done: seq<Arrival>, x: int, head: int,
                           batches: seq<seq<Received>>, frames: seq<int>, sizes: seq<int>, error: set<Error>)
  {
    && 0 <= x < |incoming| && 0 <= head < |incoming| && |frames| == |sizes|
    && (forall k :: 0 <= k < |batches| ==> |batches[k]| == BATCH)
    && arrived == done + Window(incoming, x, head)
    && Good(done) == Flatten(batches) + Paired(frames, sizes)
    && error == Faults(done)
  }

  lemma RecvStart(incoming: seq<Arrival>, x: int, head: int, frames: seq<int>, sizes: seq<int>)
    requires 0 <= x < |incoming| && 0 <= head < |incoming| && |frames| == |sizes| == 0
    ensures Progress(incoming, Window(incoming, x, head), [], x, head, [], frames, sizes, {})
  {
    var arrived := Window(incoming, x, head);
    assert arrived == [] + arrived;
  }

  /** A full batch is reported and the next begun. */
  lemma RecvBatch(incoming: seq<Arrival>, arrived: seq<Arrival>, done: seq<Arrival>, x: int, head: int,
                  batches: seq<seq<Received>>, frames: seq<int>, sizes: seq<int>, error: set<Error>)
    requires Progress(incoming, arrived, done, x, head, batches, frames, sizes, error) && |frames| == BATCH
    ensures Progress(incoming, arrived, done, x, head, batches + [Paired(frames, sizes)], frames[..0], sizes[..0], error)
  {
    var last := Paired(frames, sizes);
    assert (batches + [last])[..|batches|] == batches;
    assert Flatten(batches) + last == Flatten(batches) + last + Paired(frames[..0], sizes[..0]);
  }

  /** One slot further. */
  lemma RecvTurn(incoming: seq<Arrival>, arrived: seq<Arrival>, done: seq<Arrival>, x: int, head: int,
                 batches: seq<seq<Received>>, frames: seq<int>, sizes: seq<int>, error: set<Error>)
    requires Progress(incoming, arrived, done, x, head, batches, frames, sizes, error) && x != head
    ensures var a := incoming[x];
      var y := NextSlot(x, |incoming|);
      if Fault(a.desc) == {} then
        Progress(incoming, arrived, done + [a], y, head, batches, frames + [a.buf], sizes + [a.desc.len], error)
      else
        Progress(incoming, arrived, done + [a], y, head, batches, frames, sizes, error + Fault(a.desc))
  {
    var a := incoming[x];
    var rest := Window(incoming, NextSlot(x, |incoming|), head);
    assert done + ([a] + rest) == done + [a] + rest;
    assert (done + [a])[..|done|] == done;
    hide Window, Flatten;
    var before := Flatten(batches);
    assert Paired(frames + [a.buf], sizes + [a.desc.len]) == Paired(frames, sizes) + [Received(a.buf, a.desc.len)];
    assert before + (Paired(frames, sizes) + [Received(a.buf, a.desc.len)])
        == before + Paired(frames, sizes) + [Received(a.buf, a.desc.len)];
    assert Good(done) + [] == Good(done) && error + {} == error;
  }

  lemma RecvEnd(incoming: seq<Arrival>, arrived: seq<Arrival>, done: seq<Arrival>, head: int,
                batches: seq<seq<Received>>, frames: seq<int>, sizes: seq<int>, error: set<Error>)
    requires |batches| > 0 && |frames| == |sizes| <= BATCH && batches[|batches| - 1] == Paired(frames, sizes)
    requires Progress(incoming, arrived, done, head, head, batches[..|batches| - 1], frames, sizes, error)
    ensures Batched(batches, Good(arrived)) && error == Faults(arrived)
  {
    assert arrived == done;
    assert forall k :: 0 <= k < |batches| - 1 ==> batches[..|batches| - 1][k] == batches[k];
  }

  /** The descriptors of a sequence of frames. */
  ghost function Described(frames: seq<Frame>): seq<TDesc> {
    seq(|frames|, k requires 0 <= k < |frames| => TDesc(|frames[k]|, true, true))
  }

  /** Both rings hold the frames taken so far, from slot a. */
  ghost predicate Stored(slots: seq<Frame>, ring: seq<TDesc>, was: seq<Frame>, ringWas: seq<TDesc>, a: int, taken: seq<Frame>)
    requires 0 <= a < |was| == |ringWas|
  {
    slots == StoreAll(was, a, taken) && ring == StoreAll(ringWas, a, Described(taken))
  }

  lemma StoredNone(was: seq<Frame>, ringWas: seq<TDesc>, a: int)
    requires 0 <= a < |was| == |ringWas|
    ensures Stored(was, ringWas, was, ringWas, a, []) && Advance(a, 0, |was|) == a
  {
  }

  lemma StoredAll(slots: seq<Frame>, ring: seq<TDesc>, was: seq<Frame>, ringWas: seq<TDesc>, a: int, taken: seq<Frame>)
    requires 0 <= a < |was| == |ringWas| && Stored(slots, ring, was, ringWas, a, taken)
    ensures slots == StoreAll(was, a, taken) && ring == StoreAll(ringWas, a, Described(taken))
  {
  }

  lemma StoredSnoc(slots: seq<Frame>, ring: seq<TDesc>, was: seq<Frame>, ringWas: seq<TDesc>, a: int, taken: seq<Frame>, f: Frame)
    requires 0 <= a < |was| == |ringWas| && Stored(slots, ring, was, ringWas, a, taken)
    ensures var x := Advance(a, |taken|, |was|);
      && |slots| == |ring| == |was|
      && Stored(slots[x := f], ring[x := TDesc(|f|, true, true)], was, ringWas, a, taken + [f])
      && Advance(a, |taken + [f]|, |was|) == NextSlot(x, |was|)
  {
    hide StoreAll, Advance;
    StoreSnoc(was, a, taken, f);
    StoreSnoc(ringWas, a, Described(taken), TDesc(|f|, true, true));
    assert Described(taken + [f]) == Described(taken) + [TDesc(|f|, true, true)];
  }

  /** The outcome of a call that has taken some frames and has a rest to go through. */
  ghost function Resumed(taken: seq<Frame>, big: bool, rest: Accepted): Accepted {
    Accepted(taken + rest.taken, rest.full, big || rest.big)
  }

  /** One frame further. */
  lemma AcceptTurn(frames: seq<Frame>, i: nat, room: nat, bufsize: int, taken: seq<Frame>, big: bool)
    requires i < |frames|
    ensures var now := Resumed(taken, big, Accept(frames[i..], room, bufsize));
      if room == 0 then now == Accepted(taken, true, big)
      else if |frames[i]| >= bufsize then now == Resumed(taken, true, Accept(frames[i + 1..], room, bufsize))
      else now == Resumed(taken + [frames[i]], big, Accept(frames[i + 1..], room - 1, bufsize))
  {
    assert frames[i..][1..] == frames[i + 1..];
    if room == 0 {
      assert taken + [] == taken;
    } else if |frames[i]| < bufsize {
      var rest := Accept(frames[i + 1..], room - 1, bufsize).taken;
      assert taken + ([frames[i]] + rest) == taken + [frames[i]] + rest;
    }
  }

  /** The end of the frames. */
  lemma AcceptNone(room: nat, bufsize: int, taken: seq<Frame>, big: bool)
    ensures Resumed(taken, big, Accept([], room, bufsize)) == Accepted(taken, false, big)
  {
    assert taken + [] == taken;
  }

  /** Before the first frame. */
  lemma AcceptAll(rest: Accepted)
    ensures Resumed([], false, rest) == rest
  {
    assert [] + rest.taken == rest.taken;
  }
}
