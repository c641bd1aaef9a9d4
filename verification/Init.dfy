/** The init and deinit registry of init.c. */
module Init {
  import opened CString
  import opened InitOrder

  /** What the registry does, in order: the functions it calls, and main. */
  datatype Event = Called(entry: InitData) | MainCalled

  ghost function Events(s: seq<InitData>): seq<Event> {
    seq(|s|, i requires 0 <= i < |s| => Called(s[i]))
  }

  lemma EventsConcat(s: seq<InitData>, t: seq<InitData>)
    ensures Events(s + t) == Events(s) + Events(t)
  {
  }

  /** init_cmp */
  method InitCmp(p: InitData, q: InitData) returns (after: bool)
    ensures after <==> After(p, q)
    ensures after <==> Order(p.id, q.id) > 0 || (p.id == q.id && Order(p.filename, q.filename) > 0)
  {
    OrderTotal(p.id, q.id);
    var diff := StrCmp(p.id, q.id);
    if diff > 0 {
      return true;
    }
    if diff < 0 {
      return false;
    }
    diff := StrCmp(p.filename, q.filename);
    return diff > 0;
  }

  /** init_swap */
  method InitSwap(a: array<InitData>, p: int, q: int)
    requires 0 <= p < a.Length && 0 <= q < a.Length
    modifies a
    ensures a[..] == old(a[..])[p := old(a[q])][q := old(a[p])]
    ensures multiset(a[..]) == old(multiset(a[..]))
  {
    var tmp := a[p];
    a[p] := a[q];
    a[q] := tmp;
  }

  /** Everything before p is in place: sorted, and not after anything from p on. */
  ghost predicate InPlace(down: bool, s: seq<InitData>, p: int) {
    forall i, j :: 0 <= i < p && i < j < |s| ==> !Wrong(down, s[i], s[j])
  }

  /** The entry at p is not after any between it and q. */
  ghost predicate LeastTo(down: bool, s: seq<InitData>, p: int, q: int)
    requires 0 <= p < |s| && q <= |s|
  {
    forall k :: p < k < q ==> !Wrong(down, s[p], s[k])
  }

  lemma SwapKeeps(down: bool, s: seq<InitData>, p: int, q: int)
    requires 0 <= p < q < |s| && InPlace(down, s, p) && LeastTo(down, s, p, q) && Wrong(down, s[p], s[q])
    ensures var t := s[p := s[q]][q := s[p]];
      InPlace(down, t, p) && LeastTo(down, t, p, q + 1)
  {
    var t := s[p := s[q]][q := s[p]];
    WrongOnce(down, s[p], s[q]);
    forall k | p < k < q + 1
      ensures !Wrong(down, t[p], t[k])
    {
      if k < q {
        WrongTransitive(down, s[q], s[p], s[k]);
      }
    }
  }

  /** The inner loop of a sort: bring to p the entry that belongs there. */
  method Settle(a: array<InitData>, p: int, down: bool)
    requires 0 <= p < a.Length && InPlace(down, a[..], p)
    modifies a
    ensures InPlace(down, a[..], p + 1)
    ensures multiset(a[..]) == old(multiset(a[..]))
  {
    var q := p + 1;
    while q != a.Length
      invariant p < q <= a.Length
      invariant InPlace(down, a[..], p) && LeastTo(down, a[..], p, q)
      invariant multiset(a[..]) == old(multiset(a[..]))
    {
      var wrong;
      if down {
        wrong := InitCmp(a[q], a[p]);
      } else {
        wrong := InitCmp(a[p], a[q]);
      }
      if wrong {
        SwapKeeps(down, a[..], p, q);
        InitSwap(a, p, q);
      }
      q := q + 1;
    }
  }

  /** One of the two sorts: ascending for init, descending for deinit. */
  method Sort(a: array<InitData>, down: bool)
    modifies a
    ensures Sorted(down, a[..])
    ensures multiset(a[..]) == old(multiset(a[..]))
    ensures forall i, j :: 0 <= i < j < a.Length ==>
              var p, q := if down then a[j] else a[i], if down then a[i] else a[j];
              Order(p.id, q.id) < 0 || (Order(p.id, q.id) == 0 && Order(p.filename, q.filename) <= 0)
  {
    var p := 0;
    while p != a.Length
      invariant 0 <= p <= a.Length
      invariant InPlace(down, a[..], p)
      invariant multiset(a[..]) == old(multiset(a[..]))
    {
      Settle(a, p, down);
      p := p + 1;
    }
    SortedMeans(down, a[..]);
  }

  class Registry {
    const inits: array<InitData>
    const deinits: array<InitData>
    var log: seq<Event>

    constructor (inits: array<InitData>, deinits: array<InitData>)
      ensures this.inits == inits && this.deinits == deinits && log == []
    {
      this.inits, this.deinits, log := inits, deinits, [];
    }

    /** init_init */
    method InitInit()
      requires inits != deinits
      modifies inits, deinits
      ensures Sorted(false, inits[..]) && multiset(inits[..]) == old(multiset(inits[..]))
      ensures Sorted(true, deinits[..]) && multiset(deinits[..]) == old(multiset(deinits[..]))
    {
      Sort(inits, false);
      Sort(deinits, true);
    }

    /** init_scan */
    method InitScan(id: Text, entries: array<InitData>)
      modifies this`log
      ensures log == old(log) + Events(Matching(entries[..], id))
    {
      var p := 0;
      while p != entries.Length
        invariant 0 <= p <= entries.Length
        invariant log == old(log) + Events(Matching(entries[..p], id))
      {
        assert entries[..p + 1][..p] == entries[..p];
        var diff := MemCmp(entries[p].id, id, |id|);
        assert id[..|id|] == id;
        if diff == 0 {
          log := log + [Called(entries[p])];
          EventsConcat(Matching(entries[..p], id), [entries[p]]);
        }
        p := p + 1;
      }
      assert entries[..p] == entries[..];
    }

    /** init: sort, run the phases, run main, and undo the phases.  The undoing loop
        starts at the sentinel of init_list; `atNull` is what the string functions
        read at address 0. */
    method Init(atNull: Text)
      requires inits != deinits
      modifies this`log, inits, deinits
      ensures Sorted(false, inits[..]) && multiset(inits[..]) == old(multiset(inits[..]))
      ensures Sorted(true, deinits[..]) && multiset(deinits[..]) == old(multiset(deinits[..]))
      ensures forall i, j :: 0 <= i < j < inits.Length ==>
                Order(inits[i].id, inits[j].id) < 0
                || (Order(inits[i].id, inits[j].id) == 0 && Order(inits[i].filename, inits[j].filename) <= 0)
      ensures forall i, j :: 0 <= i < j < deinits.Length ==>
                Order(deinits[i].id, deinits[j].id) > 0
                || (Order(deinits[i].id, deinits[j].id) == 0 && Order(deinits[i].filename, deinits[j].filename) >= 0)
      ensures var s, t := inits[..], deinits[..];
        log == old(log)
                 + Events(Matching(s, [98, 115, 112]) + Matching(s, [100, 114, 105, 118, 101, 114]) + Matching(s, [97, 112]))
                 + [MainCalled]
                 + Events(Matching(t, atNull) + Matching(t, [97, 112]) + Matching(t, [100, 114, 105, 118, 101, 114])
                          + Matching(t, [98, 115, 112]))
      ensures log == old(log) + Events(Calls(inits[..], PHASES)) + [MainCalled]
                   + Events(Calls(deinits[..], Undoing(atNull)))
      ensures SameKeys(old(inits[..]), old(deinits[..])) ==>
                Keys(Calls(deinits[..], Reverse(PHASES))) == Reverse(Keys(Calls(inits[..], PHASES)))
      ensures SameKeys(old(inits[..]), old(deinits[..])) ==>
                (Keys(Calls(deinits[..], Undoing(atNull))) == Reverse(Keys(Calls(inits[..], PHASES)))
                 <==> forall i :: 0 <= i < deinits.Length ==> !(atNull <= deinits[i].id))
    {
      hide PHASES, Calls, Events, Reverse, Sorted, SameKeys, Undoing, Keys;
      ghost var ups0, downs0 := inits[..], deinits[..];
      InitInit();
      ghost var ups, downs := inits[..], deinits[..];
      var i := 0;
      CallsNone(ups, PHASES);
      while i < |PHASES|
        invariant 0 <= i <= |PHASES|
        invariant inits[..] == ups && deinits[..] == downs
        invariant log == old(log) + Events(Calls(ups, PHASES[..i]))
      {
        InitScan(PHASES[i], inits);
        CallsFurther(old(log), ups, PHASES, i);
        i := i + 1;
      }
      i := i + 1;
      log := log + [MainCalled];
      ghost var up := log;
      CallsNone(downs, Undoing(atNull));
      UndoingAt(atNull, |PHASES|);
      while i > 0
        invariant 0 <= i <= |PHASES| + 1
        invariant inits[..] == ups && deinits[..] == downs
        invariant log == up + Events(Calls(downs, Undoing(atNull)[..|PHASES| + 1 - i]))
      {
        i := i - 1;
        UndoingAt(atNull, i);
        InitScan(if i < |PHASES| then PHASES[i] else atNull, deinits);
        CallsFurther(up, downs, Undoing(atNull), |PHASES| - i);
      }
      assert PHASES[..|PHASES|] == PHASES && Undoing(atNull)[..|PHASES| + 1] == Undoing(atNull);
      CallsByName(ups, atNull);
      CallsByName(downs, atNull);
      UpAndDown(ups, downs);
      SameKeysKept(ups0, ups, downs0, downs);
      if SameKeys(ups0, downs0) {
        DeinitReversesInit(ups, downs);
        UndoneExactly(ups, downs, atNull);
      }
    }
  }

  lemma UpAndDown(up: seq<InitData>, down: seq<InitData>)
    requires Sorted(false, up) && Sorted(true, down)
    ensures forall i, j :: 0 <= i < j < |up| ==>
              Order(up[i].id, up[j].id) < 0 || (Order(up[i].id, up[j].id) == 0 && Order(up[i].filename, up[j].filename) <= 0)
    ensures forall i, j :: 0 <= i < j < |down| ==>
              Order(down[i].id, down[j].id) > 0
              || (Order(down[i].id, down[j].id) == 0 && Order(down[i].filename, down[j].filename) >= 0)
  {
    SortedMeans(false, up);
    SortedMeans(true, down);
    forall i, j | 0 <= i < j < |down|
      ensures Order(down[i].id, down[j].id) > 0
              || (Order(down[i].id, down[j].id) == 0 && Order(down[i].filename, down[j].filename) >= 0)
    {
      OrderTotal(down[j].id, down[i].id);
      OrderTotal(down[j].filename, down[i].filename);
    }
  }

  /** The undoing loop takes the list of phases, sentinel included, from its end. */
  lemma UndoingAt(atNull: Text, i: nat)
    requires i <= |PHASES|
    ensures |Undoing(atNull)| == |PHASES| + 1
    ensures Undoing(atNull)[|PHASES| - i] == if i < |PHASES| then PHASES[i] else atNull
  {
    hide PHASES;
    if i < |PHASES| {
      assert Undoing(atNull)[|PHASES| - i] == Reverse(PHASES)[|PHASES| - i - 1];
    }
  }

  lemma CallsNone(s: seq<InitData>, phases: seq<Text>)
    ensures Events(Calls(s, phases[..0])) == []
  {
  }

  /** One phase further. */
  lemma CallsFurther(before: seq<Event>, s: seq<InitData>, phases: seq<Text>, i: nat)
    requires i < |phases|
    ensures before + Events(Calls(s, phases[..i])) + Events(Matching(s, phases[i]))
         == before + Events(Calls(s, phases[..i + 1]))
  {
    assert phases[..i + 1][..i] == phases[..i];
    EventsConcat(Calls(s, phases[..i]), Matching(s, phases[i]));
  }
}
