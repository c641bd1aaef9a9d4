/** The registry of init.c on values: the order of its entries, and what the
    phases run. */
module InitOrder {
  import opened CString

  /** struct init_data; the function is known by a number. */
  datatype InitData = InitData(filename: Text, id: Text, func: int)

  datatype Key = Key(id: Text, filename: Text)

  function KeyOf(d: InitData): Key {
    Key(d.id, d.filename)
  }

  /** Entry p must come after entry q: by id, then by file name. */
  ghost predicate After(p: InitData, q: InitData) {
    Order(p.id, q.id) > 0 || (Order(p.id, q.id) == 0 && Order(p.filename, q.filename) > 0)
  }

  lemma AfterTotal(p: InitData, q: InitData)
    ensures After(p, q) ==> !After(q, p)
    ensures !After(p, q) && !After(q, p) <==> KeyOf(p) == KeyOf(q)
  {
    OrderTotal(p.id, q.id);
    OrderTotal(p.filename, q.filename);
  }

  lemma AfterTransitive(p: InitData, q: InitData, r: InitData)
    requires !After(p, q) && !After(q, r)
    ensures !After(p, r)
  {
    OrderTotal(p.id, r.id);
    OrderTransitive(p.id, q.id, r.id);
    if p.id == q.id == r.id {
      OrderTransitive(p.filename, q.filename, r.filename);
    }
  }

  /** The comparison of one of the two sorts finds p and q in the wrong order. */
  ghost predicate Wrong(down: bool, p: InitData, q: InitData) {
    if down then After(q, p) else After(p, q)
  }

  lemma WrongOnce(down: bool, p: InitData, q: InitData)
    requires Wrong(down, p, q)
    ensures !Wrong(down, q, p)
  {
    AfterTotal(p, q);
  }

  lemma WrongTransitive(down: bool, p: InitData, q: InitData, r: InitData)
    requires !Wrong(down, p, q) && !Wrong(down, q, r)
    ensures !Wrong(down, p, r)
  {
    if down {
      AfterTransitive(r, q, p);
    } else {
      AfterTransitive(p, q, r);
    }
  }

  ghost predicate Sorted(down: bool, s: seq<InitData>) {
    forall i, j :: 0 <= i < j < |s| ==> !Wrong(down, s[i], s[j])
  }

  /** Ascending: each entry's id is at most the next's, and of equal ids the file name;
      descending the other way round. */
  lemma SortedMeans(down: bool, s: seq<InitData>)
    ensures Sorted(down, s) <==>
      forall i, j :: 0 <= i < j < |s| ==>
        var p, q := if down then s[j] else s[i], if down then s[i] else s[j];
        Order(p.id, q.id) < 0 || (Order(p.id, q.id) == 0 && Order(p.filename, q.filename) <= 0)
  {
  }

  // ---------------------------------------------------------------- phases

  const BSP: Text := [98, 115, 112]
  const DRIVER: Text := [100, 114, 105, 118, 101, 114]
  const AP: Text := [97, 112]

  /** init_list without the sentinel. */
  const PHASES: seq<Text> := [BSP, DRIVER, AP]

  /** The entries whose id begins with the phase name, in table order. */
  function Matching(s: seq<InitData>, phase: Text): (r: seq<InitData>) {
    if s == [] then []
    else Matching(s[..|s| - 1], phase) + (if phase <= s[|s| - 1].id then [s[|s| - 1]] else [])
  }

  /** The entries of one phase after the other. */
  function Calls(s: seq<InitData>, phases: seq<Text>): seq<InitData> {
    if phases == [] then []
    else Calls(s, phases[..|phases| - 1]) + Matching(s, phases[|phases| - 1])
  }

  /** The phases by name: bsp, driver, ap; and backwards, behind what stands for the
      sentinel. */
  lemma CallsByName(s: seq<InitData>, atNull: Text)
    ensures Calls(s, PHASES) == Matching(s, [98, 115, 112]) + Matching(s, [100, 114, 105, 118, 101, 114]) + Matching(s, [97, 112])
    ensures Calls(s, Undoing(atNull))
         == Matching(s, atNull) + Matching(s, [97, 112]) + Matching(s, [100, 114, 105, 118, 101, 114]) + Matching(s, [98, 115, 112])
  {
    hide Calls, Matching, Undoing, Reverse, PHASES;
    var bsp, driver, ap: Text := [98, 115, 112], [100, 114, 105, 118, 101, 114], [97, 112];
    PhasesAre();
    CallsInOrder(s, [bsp, driver, ap]);
    CallsInOrder(s, [ap, driver, bsp]);
    UndoingCalls(s, atNull);
    Assoc(Matching(s, atNull), Matching(s, ap), Matching(s, driver), Matching(s, bsp));
  }

  lemma PhasesAre()
    ensures PHASES == [[98, 115, 112], [100, 114, 105, 118, 101, 114], [97, 112]]
    ensures Reverse(PHASES) == [[97, 112], [100, 114, 105, 118, 101, 114], [98, 115, 112]]
  {
  }

  lemma Assoc<T>(a: seq<T>, b: seq<T>, c: seq<T>, d: seq<T>)
    ensures a + (b + c + d) == a + b + c + d
  {
  }

  lemma CallsInOrder(s: seq<InitData>, phases: seq<Text>)
    requires |phases| == 3
    ensures Calls(s, phases) == Matching(s, phases[0]) + Matching(s, phases[1]) + Matching(s, phases[2])
  {
    CallsOne(s, phases[0]);
    CallsConcat(s, [phases[0]], [phases[1]]);
    CallsOne(s, phases[1]);
    CallsConcat(s, [phases[0]] + [phases[1]], [phases[2]]);
    CallsOne(s, phases[2]);
    assert phases == [phases[0]] + [phases[1]] + [phases[2]];
  }

  predicate Begins(phase: Text, d: InitData) {
    phase <= d.id
  }

  /** r are the entries of s at the places, which ascend and are all that belong to the phase. */
  ghost predicate ArePlaces(s: seq<InitData>, phase: Text, r: seq<InitData>, places: seq<int>) {
    && |places| == |r|
    && (forall i :: 0 <= i < |places| ==> 0 <= places[i] < |s| && r[i] == s[places[i]] && Begins(phase, r[i]))
    && (forall i, j :: 0 <= i < j < |places| ==> places[i] < places[j])
    && (forall k :: 0 <= k < |s| && Begins(phase, s[k]) ==> k in places)
  }

  lemma PlacesSnoc(s: seq<InitData>, phase: Text, r: seq<InitData>, places: seq<int>, d: InitData)
    requires ArePlaces(s, phase, r, places)
    ensures if Begins(phase, d) then ArePlaces(s + [d], phase, r + [d], places + [|s|])
            else ArePlaces(s + [d], phase, r, places)
  {
    hide Begins;
    var all := places + [|s|];
    assert all[|places|] == |s|;
    forall k | 0 <= k < |s| && k in places ensures k in all {
      var i :| 0 <= i < |places| && places[i] == k;
      assert all[i] == k;
    }
  }

  lemma MatchingStep(s: seq<InitData>, phase: Text)
    requires s != []
    ensures var n := |s| - 1;
      && s == s[..n] + [s[n]]
      && Matching(s, phase) == if phase <= s[n].id then Matching(s[..n], phase) + [s[n]] else Matching(s[..n], phase)
  {
    var m := Matching(s[..|s| - 1], phase);
    assert m + [] == m;
  }

  /** Entries run in table order: those of one phase are a part of the table, in order. */
  lemma {:induction false} MatchingAt(s: seq<InitData>, phase: Text) returns (places: seq<int>)
    ensures ArePlaces(s, phase, Matching(s, phase), places)
    decreases |s|
  {
    if s == [] {
      places := [];
    } else {
      hide Matching, ArePlaces;
      var n := |s| - 1;
      var front := MatchingAt(s[..n], phase);
      places := if phase <= s[n].id then front + [n] else front;
      PlacesSnoc(s[..n], phase, Matching(s[..n], phase), front, s[n]);
      MatchingStep(s, phase);
    }
  }

  function Reverse<T>(s: seq<T>): (r: seq<T>)
    ensures |r| == |s|
    ensures forall i :: 0 <= i < |s| ==> r[i] == s[|s| - 1 - i]
  {
    if s == [] then [] else [s[|s| - 1]] + Reverse(s[..|s| - 1])
  }

  lemma ReverseConcat<T>(s: seq<T>, t: seq<T>)
    ensures Reverse(s + t) == Reverse(t) + Reverse(s)
  {
  }

  lemma ReverseTwice<T>(s: seq<T>)
    ensures Reverse(Reverse(s)) == s
  {
  }

  function Keys(s: seq<InitData>): (r: seq<Key>)
    ensures |r| == |s|
    ensures forall i :: 0 <= i < |s| ==> r[i] == KeyOf(s[i])
  {
    seq(|s|, i requires 0 <= i < |s| => KeyOf(s[i]))
  }

  // ---------------------------------------------------------------- each once

  /** No phase name begins another, so no entry belongs to two phases. */
  lemma OnePhase(d: InitData, i: int, j: int)
    requires 0 <= i < |PHASES| && 0 <= j < |PHASES|
    requires PHASES[i] <= d.id && PHASES[j] <= d.id
    ensures i == j
  {
    assert PHASES[i][0] == d.id[0] == PHASES[j][0];
  }

  lemma {:induction false} MatchingCount(s: seq<InitData>, phase: Text, d: InitData)
    ensures multiset(Matching(s, phase))[d] == if phase <= d.id then multiset(s)[d] else 0
    decreases |s|
  {
    if s != [] {
      MatchingCount(s[..|s| - 1], phase, d);
      assert s == s[..|s| - 1] + [s[|s| - 1]];
    }
  }

  /** The id begins with one of the phase names. */
  predicate InPhase(d: InitData, phases: seq<Text>) {
    exists i :: 0 <= i < |phases| && phases[i] <= d.id
  }

  /** A further phase adds its own entries and none that were there. */
  lemma InPhaseSnoc(d: InitData, n: nat)
    requires n < |PHASES|
    ensures InPhase(d, PHASES[..n + 1]) <==> InPhase(d, PHASES[..n]) || PHASES[n] <= d.id
    ensures !(InPhase(d, PHASES[..n]) && PHASES[n] <= d.id)
  {
    assert forall i :: 0 <= i < n ==> PHASES[..n][i] == PHASES[..n + 1][i] == PHASES[i];
    assert PHASES[..n + 1][n] == PHASES[n];
    forall i | 0 <= i < n && PHASES[i] <= d.id
      ensures !(PHASES[n] <= d.id)
    {
      if PHASES[n] <= d.id {
        OnePhase(d, i, n);
      }
    }
  }

  lemma {:induction false} CallsCount(s: seq<InitData>, n: nat, d: InitData)
    requires n <= |PHASES|
    ensures multiset(Calls(s, PHASES[..n]))[d] == if InPhase(d, PHASES[..n]) then multiset(s)[d] else 0
    decreases n
  {
    if n > 0 {
      hide PHASES;
      CallsCount(s, n - 1, d);
      MatchingCount(s, PHASES[n - 1], d);
      InPhaseSnoc(d, n - 1);
      assert PHASES[..n][..n - 1] == PHASES[..n - 1];
    }
  }

  /** Every entry whose id begins with a phase name runs exactly as often as it is
      in the table, and no other runs. */
  lemma CallsOnce(s: seq<InitData>, d: InitData)
    ensures multiset(Calls(s, PHASES))[d]
         == if InPhase(d, PHASES) then multiset(s)[d] else 0
  {
    hide PHASES;
    CallsCount(s, |PHASES|, d);
    assert PHASES[..|PHASES|] == PHASES;
  }

  // ---------------------------------------------------------------- the reverse order

  lemma {:induction false} MatchingConcat(s: seq<InitData>, t: seq<InitData>, phase: Text)
    ensures Matching(s + t, phase) == Matching(s, phase) + Matching(t, phase)
    decreases |t|
  {
    if t == [] {
      assert s + t == s;
    } else {
      var last := t[|t| - 1];
      assert (s + t)[..|s + t| - 1] == s + t[..|t| - 1];
      MatchingConcat(s, t[..|t| - 1], phase);
    }
  }

  lemma {:induction false} MatchingReverse(s: seq<InitData>, phase: Text)
    ensures Matching(Reverse(s), phase) == Reverse(Matching(s, phase))
    decreases |s|
  {
    if s != [] {
      var front, last := s[..|s| - 1], s[|s| - 1];
      MatchingReverse(front, phase);
      MatchingConcat([last], Reverse(front), phase);
      var one := if phase <= last.id then [last] else [];
      assert [last][..0] == [];
      assert Matching([last], phase) == one;
      ReverseConcat(Matching(front, phase), one);
    }
  }

  lemma CallsOne(s: seq<InitData>, phase: Text)
    ensures Calls(s, [phase]) == Matching(s, phase)
  {
    assert [phase][..0] == [];
    assert [] + Matching(s, phase) == Matching(s, phase);
  }

  lemma {:induction false} CallsReverse(s: seq<InitData>, phases: seq<Text>)
    ensures Calls(Reverse(s), Reverse(phases)) == Reverse(Calls(s, phases))
    decreases |phases|
  {
    if phases != [] {
      var front, last := phases[..|phases| - 1], phases[|phases| - 1];
      CallsReverse(s, front);
      CallsConcat(Reverse(s), [last], Reverse(front));
      CallsOne(Reverse(s), last);
      MatchingReverse(s, last);
      ReverseConcat(Calls(s, front), Matching(s, last));
    }
  }

  lemma {:induction false} CallsConcat(s: seq<InitData>, p: seq<Text>, q: seq<Text>)
    ensures Calls(s, p + q) == Calls(s, p) + Calls(s, q)
    decreases |q|
  {
    if q == [] {
      assert p + q == p;
    } else {
      assert (p + q)[..|p + q| - 1] == p + q[..|q| - 1];
      CallsConcat(s, p, q[..|q| - 1]);
    }
  }

  /** Entries with equal keys, position by position, give calls with equal keys. */
  lemma {:induction false} MatchingKeys(s: seq<InitData>, t: seq<InitData>, phase: Text)
    requires Keys(s) == Keys(t)
    ensures Keys(Matching(s, phase)) == Keys(Matching(t, phase))
    decreases |s|
  {
    assert |s| == |Keys(s)| == |Keys(t)| == |t|;
    if s != [] {
      var n := |s| - 1;
      assert Keys(s[..n]) == Keys(s)[..n] == Keys(t)[..n] == Keys(t[..n]);
      assert KeyOf(s[n]) == Keys(s)[n] == Keys(t)[n] == KeyOf(t[n]);
      MatchingKeys(s[..n], t[..n], phase);
      KeysConcat(Matching(s[..n], phase), if phase <= s[n].id then [s[n]] else []);
      KeysConcat(Matching(t[..n], phase), if phase <= t[n].id then [t[n]] else []);
    }
  }

  lemma KeysConcat(s: seq<InitData>, t: seq<InitData>)
    ensures Keys(s + t) == Keys(s) + Keys(t)
  {
  }

  lemma KeysReverse(s: seq<InitData>)
    ensures Keys(Reverse(s)) == Reverse(Keys(s))
  {
  }

  lemma {:induction false} CallsKeys(s: seq<InitData>, t: seq<InitData>, phases: seq<Text>)
    requires Keys(s) == Keys(t)
    ensures Keys(Calls(s, phases)) == Keys(Calls(t, phases))
    decreases |phases|
  {
    if phases != [] {
      var n := |phases| - 1;
      CallsKeys(s, t, phases[..n]);
      MatchingKeys(s, t, phases[n]);
      KeysConcat(Calls(s, phases[..n]), Matching(s, phases[n]));
      KeysConcat(Calls(t, phases[..n]), Matching(t, phases[n]));
    }
  }

  // ---------------------------------------------------------------- one sorted table

  ghost predicate SameKeys(s: seq<InitData>, t: seq<InitData>) {
    multiset(Keys(s)) == multiset(Keys(t))
  }

  /** The first entry of a sorted table has the least key. */
  lemma LeastFirst(s: seq<InitData>, t: seq<InitData>)
    requires Sorted(false, s) && Sorted(false, t) && SameKeys(s, t) && s != []
    ensures t != [] && KeyOf(s[0]) == KeyOf(t[0])
  {
    assert Keys(s)[0] in multiset(Keys(t));
    assert t != [];
    assert Keys(t)[0] in multiset(Keys(s));
    var i :| 0 <= i < |s| && Keys(s)[i] == Keys(t)[0];
    var j :| 0 <= j < |t| && Keys(t)[j] == Keys(s)[0];
    AfterTotal(s[0], s[0]);
    AfterTotal(t[0], t[0]);
    AfterTotal(s[0], t[0]);
    AfterTotal(s[i], t[0]);
    AfterTotal(s[0], t[j]);
    AfterTransitive(s[0], s[i], t[0]);
    AfterTransitive(t[0], t[j], s[0]);
  }

  /** Two sorted tables of the same keys have them in the same places. */
  lemma {:induction false} SortedUnique(s: seq<InitData>, t: seq<InitData>)
    requires Sorted(false, s) && Sorted(false, t) && SameKeys(s, t)
    ensures Keys(s) == Keys(t)
    decreases |s|
  {
    if s == [] {
      assert Keys(s) == [];
      assert multiset(Keys(t)) == multiset{};
      assert |multiset(Keys(t))| == |Keys(t)|;
    } else {
      LeastFirst(s, t);
      assert Keys(s) == [KeyOf(s[0])] + Keys(s[1..]);
      assert Keys(t) == [KeyOf(t[0])] + Keys(t[1..]);
      assert multiset(Keys(s[1..])) == multiset(Keys(s)) - multiset{KeyOf(s[0])};
      assert multiset(Keys(t[1..])) == multiset(Keys(t)) - multiset{KeyOf(t[0])};
      SortedUnique(s[1..], t[1..]);
    }
  }

  lemma SortedReverse(s: seq<InitData>)
    requires Sorted(true, s)
    ensures Sorted(false, Reverse(s))
  {
  }

  /** With matching tables the real phases are undone in exactly the reverse order. */
  lemma DeinitReversesInit(up: seq<InitData>, down: seq<InitData>)
    requires Sorted(false, up) && Sorted(true, down) && SameKeys(up, down)
    ensures Keys(Calls(down, Reverse(PHASES))) == Reverse(Keys(Calls(up, PHASES)))
  {
    SortedReverse(down);
    MultisetReverse(Keys(down));
    KeysReverse(down);
    SortedUnique(up, Reverse(down));
    CallsKeys(up, Reverse(down), PHASES);
    CallsReverse(Reverse(down), PHASES);
    ReverseTwice(down);
    KeysReverse(Calls(Reverse(down), PHASES));
  }

  /** Sorting the tables leaves their keys the same. */
  lemma SameKeysKept(up: seq<InitData>, sortedUp: seq<InitData>, down: seq<InitData>, sortedDown: seq<InitData>)
    requires multiset(sortedUp) == multiset(up) && multiset(sortedDown) == multiset(down)
    ensures SameKeys(sortedUp, sortedDown) <==> SameKeys(up, down)
  {
    KeysPermuted(sortedUp, up);
    KeysPermuted(sortedDown, down);
  }

  /** A sequence without the item at place j. */
  function Less<T>(t: seq<T>, j: int): (u: seq<T>)
    requires 0 <= j < |t|
    ensures |u| == |t| - 1
  {
    t[..j] + t[j + 1..]
  }

  lemma LessOne<T>(t: seq<T>, j: int)
    requires 0 <= j < |t|
    ensures multiset(Less(t, j)) == multiset(t) - multiset{t[j]}
  {
    assert t == t[..j] + ([t[j]] + t[j + 1..]);
  }

  lemma KeysLess(t: seq<InitData>, j: int)
    requires 0 <= j < |t|
    ensures Keys(Less(t, j)) == Less(Keys(t), j)
  {
  }

  lemma SameWithout<T>(x: multiset<T>, y: multiset<T>, k: T)
    requires k in x && k in y && x - multiset{k} == y - multiset{k}
    ensures x == y
  {
    assert x == x - multiset{k} + multiset{k};
    assert y == y - multiset{k} + multiset{k};
  }

  lemma {:induction false} KeysPermuted(s: seq<InitData>, t: seq<InitData>)
    requires multiset(s) == multiset(t)
    ensures multiset(Keys(s)) == multiset(Keys(t))
    decreases |s|
  {
    assert |s| == |multiset(s)| == |multiset(t)| == |t|;
    if s == [] {
      assert Keys(s) == Keys(t);
    } else {
      hide Less;
      hide Keys;
      assert s[0] in multiset(t);
      var j :| 0 <= j < |t| && t[j] == s[0];
      LessOne(s, 0);
      LessOne(t, j);
      KeysPermuted(Less(s, 0), Less(t, j));
      KeysLess(s, 0);
      KeysLess(t, j);
      LessOne(Keys(s), 0);
      LessOne(Keys(t), j);
      SameWithout(multiset(Keys(s)), multiset(Keys(t)), KeyOf(s[0]));
    }
  }

  // ---------------------------------------------------------------- the sentinel

  /** The phases of the undoing loop: what the string functions read at address 0 in
      place of the sentinel, and then the real phases backwards. */
  function Undoing(atNull: Text): seq<Text> {
    [atNull] + Reverse(PHASES)
  }

  lemma UndoingCalls(s: seq<InitData>, atNull: Text)
    ensures Calls(s, Undoing(atNull)) == Matching(s, atNull) + Calls(s, Reverse(PHASES))
  {
    CallsConcat(s, [atNull], Reverse(PHASES));
    CallsOne(s, atNull);
  }

  lemma {:induction false} MatchingNone(s: seq<InitData>, phase: Text)
    ensures Matching(s, phase) == [] <==> forall i :: 0 <= i < |s| ==> !(phase <= s[i].id)
    decreases |s|
  {
    if s != [] {
      MatchingNone(s[..|s| - 1], phase);
    }
  }

  /** With matching tables, all that is called after main is the reverse of all that
      was called before it if and only if no deinit entry's id begins with what is
      read at address 0. */
  lemma UndoneExactly(up: seq<InitData>, down: seq<InitData>, atNull: Text)
    requires Sorted(false, up) && Sorted(true, down) && SameKeys(up, down)
    ensures Keys(Calls(down, Undoing(atNull))) == Reverse(Keys(Calls(up, PHASES)))
       <==> forall i :: 0 <= i < |down| ==> !(atNull <= down[i].id)
  {
    DeinitReversesInit(up, down);
    UndoingCalls(down, atNull);
    MatchingNone(down, atNull);
    KeysConcat(Matching(down, atNull), Calls(down, Reverse(PHASES)));
    assert |Keys(Calls(down, Undoing(atNull)))| == |Matching(down, atNull)| + |Keys(Calls(down, Reverse(PHASES)))|;
    if Matching(down, atNull) == [] {
      assert Keys(Matching(down, atNull)) == [];
    }
  }

  /** If the byte at address 0 is 0, every deinit function runs, before the phases. */
  lemma NullRunsAll(down: seq<InitData>)
    ensures Calls(down, Undoing([])) == down + Calls(down, Reverse(PHASES))
  {
    UndoingCalls(down, []);
    MatchingAll(down);
  }

  lemma {:induction false} MatchingAll(s: seq<InitData>)
    ensures Matching(s, []) == s
    decreases |s|
  {
    if s != [] {
      MatchingAll(s[..|s| - 1]);
    }
  }

  lemma {:induction false} MultisetReverse<T>(s: seq<T>)
    ensures multiset(Reverse(s)) == multiset(s)
    decreases |s|
  {
    if s != [] {
      MultisetReverse(s[..|s| - 1]);
      assert s == s[..|s| - 1] + [s[|s| - 1]];
    }
  }
}
