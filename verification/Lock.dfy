/** The spinlock of include/lock.h, instruction by instruction on any number of
    CPUs, and the console behind it. */
module Lock {

  /** Where a CPU is. `d` is the register exchanged with the lock byte. A message is
      the characters that one call of do_printf passes to putchar. */
  datatype Cpu =
    | Outside
    | Exchange(d: int, msg: string)         // 3: xchg
    | Test(d: int, msg: string)             // test, je 1f
    | Pause(d: int, msg: string)            // 2: pause
    | Compare(d: int, msg: string)          // cmp, je 2b, jmp 3b
    | Inside(msg: string, count: nat)       // 1: between lock and unlock, count characters put

  /** The lock byte, the CPUs and the characters on the console; and, as history, the
      messages of all calls, and of those that have released the lock, in that order. */
  datatype Machine = Machine(byte: int, cpus: seq<Cpu>, console: string, called: multiset<string>, finished: seq<string>)

  datatype Step =
    | Call(msg: string)
    | Exec             // the next instruction of spinlock_lock
    | Putchar
    | Unlock           // the exchange of spinlock_unlock

  predicate Enabled(m: Machine, c: int, step: Step) {
    0 <= c < |m.cpus| &&
    match step
    case Call(_) => m.cpus[c].Outside?
    case Exec => !m.cpus[c].Outside? && !m.cpus[c].Inside?
    case Putchar => m.cpus[c].Inside? && m.cpus[c].count < |m.cpus[c].msg|
    case Unlock => m.cpus[c].Inside? && m.cpus[c].count >= |m.cpus[c].msg|
  }

  function Next(m: Machine, c: int, step: Step): (n: Machine)
    requires Enabled(m, c, step)
    ensures |n.cpus| == |m.cpus|
    ensures forall i :: 0 <= i < |m.cpus| && i != c ==> n.cpus[i] == m.cpus[i]
  {
    match step
    case Call(msg) => m.(cpus := m.cpus[c := Exchange(1, msg)], called := m.called + multiset{msg})
    case Exec =>
      (match m.cpus[c]
       case Exchange(d, msg) => m.(byte := d, cpus := m.cpus[c := Test(m.byte, msg)])
       case Test(d, msg) => m.(cpus := m.cpus[c := if d == 0 then Inside(msg, 0) else Pause(d, msg)])
       case Pause(d, msg) => m.(cpus := m.cpus[c := Compare(d, msg)])
       case Compare(d, msg) => m.(cpus := m.cpus[c := if m.byte == d then Pause(d, msg) else Exchange(d, msg)])
       case Outside => m
       case Inside(_, _) => m)
    case Putchar =>
      var cpu := m.cpus[c];
      m.(cpus := m.cpus[c := Inside(cpu.msg, cpu.count + 1)], console := m.console + [cpu.msg[cpu.count]])
    case Unlock =>
      m.(byte := 0, cpus := m.cpus[c := Outside], finished := m.finished + [m.cpus[c].msg])
  }

  /** The CPU has the lock: inside, or about to learn that its exchange found 0. */
  predicate Holds(cpu: Cpu) {
    cpu.Inside? || (cpu.Test? && cpu.d == 0)
  }

  /** What the holder has put on the console so far. */
  function Printed(cpu: Cpu): string {
    if cpu.Inside? && cpu.count <= |cpu.msg| then cpu.msg[..cpu.count] else []
  }

  /** A register that goes into an exchange is 1, and no more is put than the message. */
  predicate RegisterOk(cpu: Cpu) {
    match cpu
    case Outside => true
    case Test(d, _) => d == 0 || d == 1
    case Exchange(d, _) => d == 1
    case Pause(d, _) => d == 1
    case Compare(d, _) => d == 1
    case Inside(msg, count) => count <= |msg|
  }

  function Concat(msgs: seq<string>): string {
    if msgs == [] then [] else Concat(msgs[..|msgs| - 1]) + msgs[|msgs| - 1]
  }

  predicate Free(m: Machine) {
    forall i :: 0 <= i < |m.cpus| ==> !Holds(m.cpus[i])
  }

  /** CPU h, and no other, has the lock. */
  predicate HeldBy(m: Machine, h: int) {
    && 0 <= h < |m.cpus| && Holds(m.cpus[h])
    && forall i :: 0 <= i < |m.cpus| && i != h ==> !Holds(m.cpus[i])
  }

  /** Either the byte is 0, nobody has the lock and the console shows whole messages;
      or it is 1, one CPU has the lock, and the console ends with a part of its message. */
  ghost predicate Inv(m: Machine) {
    && (forall i :: 0 <= i < |m.cpus| ==> RegisterOk(m.cpus[i]))
    && if m.byte == 0 then Free(m) && m.console == Concat(m.finished)
       else m.byte == 1 && exists h :: HeldBy(m, h) && m.console == Concat(m.finished) + Printed(m.cpus[h])
  }

  predicate Initial(m: Machine) {
    m.byte == 0 && m.console == [] && m.called == multiset{} && m.finished == [] && forall i :: 0 <= i < |m.cpus| ==> m.cpus[i] == Outside
  }

  // ---------------------------------------------------------------- no message is lost

  /** The messages of the calls still under way. */
  function Pending(cpus: seq<Cpu>): multiset<string> {
    if cpus == [] then multiset{}
    else Pending(cpus[..|cpus| - 1]) + Message(cpus[|cpus| - 1])
  }

  function Message(cpu: Cpu): multiset<string> {
    if cpu.Outside? then multiset{} else multiset{cpu.msg}
  }

  predicate Conserved(m: Machine) {
    m.called == multiset(m.finished) + Pending(m.cpus)
  }

  lemma {:induction false} PendingUpdate(cpus: seq<Cpu>, c: int, cpu: Cpu, x: string)
    requires 0 <= c < |cpus|
    ensures Pending(cpus[c := cpu])[x] + Message(cpus[c])[x] == Pending(cpus)[x] + Message(cpu)[x]
    decreases |cpus|
  {
    hide Message;
    var n := |cpus| - 1;
    if c < n {
      PendingUpdate(cpus[..n], c, cpu, x);
      assert cpus[c := cpu][..n] == cpus[..n][c := cpu];
    } else {
      assert cpus[c := cpu][..n] == cpus[..n];
    }
  }

  /** A step takes a message from a call to its CPU, or from its CPU to the finished. */
  lemma StepMoves(m: Machine, c: int, step: Step, x: string)
    requires Enabled(m, c, step)
    ensures var n := Next(m, c, step);
      n.called[x] + Message(m.cpus[c])[x] + multiset(m.finished)[x]
        == m.called[x] + Message(n.cpus[c])[x] + multiset(n.finished)[x]
  {
    if step != Unlock {
      assert Next(m, c, step).finished == m.finished;
    } else {
      assert multiset(m.finished + [m.cpus[c].msg]) == multiset(m.finished) + multiset{m.cpus[c].msg};
    }
  }

  lemma NextConserves(m: Machine, c: int, step: Step)
    requires Conserved(m) && Enabled(m, c, step)
    ensures Conserved(Next(m, c, step))
  {
    var n := Next(m, c, step);
    assert n.cpus == m.cpus[c := n.cpus[c]];
    hide Pending, Message, Next, Enabled;
    forall x: string
      ensures n.called[x] == multiset(n.finished)[x] + Pending(n.cpus)[x]
    {
      StepMoves(m, c, step, x);
      PendingUpdate(m.cpus, c, n.cpus[c], x);
    }
  }

  lemma {:induction false} PendingNone(cpus: seq<Cpu>)
    requires forall i :: 0 <= i < |cpus| ==> cpus[i] == Outside
    ensures Pending(cpus) == multiset{}
    decreases |cpus|
  {
    if cpus != [] {
      PendingNone(cpus[..|cpus| - 1]);
    }
  }

  predicate RegistersOk(m: Machine) {
    forall i :: 0 <= i < |m.cpus| ==> RegisterOk(m.cpus[i])
  }

  lemma NextKeepsRegisters(m: Machine, c: int, step: Step)
    requires Inv(m) && Enabled(m, c, step)
    ensures RegistersOk(Next(m, c, step))
  {
    var n := Next(m, c, step);
    assert RegisterOk(m.cpus[c]) && (m.byte == 0 || m.byte == 1);
    assert RegisterOk(n.cpus[c]);
  }

  /** A step while nobody has the lock. */
  lemma FreeStep(m: Machine, c: int, step: Step)
    requires Inv(m) && m.byte == 0 && Enabled(m, c, step)
    ensures var n := Next(m, c, step);
      if n.byte == 0 then Free(n) && n.console == Concat(n.finished)
      else n.byte == 1 && HeldBy(n, c) && n.console == Concat(n.finished) + Printed(n.cpus[c])
  {
    hide Concat;
    assert RegisterOk(m.cpus[c]) && !Holds(m.cpus[c]);
  }

  /** A step while CPU h has it. */
  lemma HeldStep(m: Machine, c: int, step: Step, h: int)
    requires RegistersOk(m) && m.byte == 1 && Enabled(m, c, step)
    requires HeldBy(m, h) && m.console == Concat(m.finished) + Printed(m.cpus[h])
    ensures var n := Next(m, c, step);
      if n.byte == 0 then Free(n) && n.console == Concat(n.finished)
      else n.byte == 1 && HeldBy(n, h) && n.console == Concat(n.finished) + Printed(n.cpus[h])
  {
    var n := Next(m, c, step);
    assert RegisterOk(m.cpus[c]);
    if step == Unlock {
      assert c == h && n.finished[..|m.finished|] == m.finished;
    } else if step == Putchar {
      assert c == h;
      var msg, k := m.cpus[h].msg, m.cpus[h].count;
      assert msg[..k + 1] == msg[..k] + [msg[k]];
      assert Concat(m.finished) + (msg[..k] + [msg[k]]) == Concat(m.finished) + msg[..k] + [msg[k]];
    }
    hide Concat;
  }

  lemma NextKeepsInv(m: Machine, c: int, step: Step)
    requires Inv(m) && Enabled(m, c, step)
    ensures Inv(Next(m, c, step))
  {
    hide Next, Enabled, RegisterOk, Holds, Free, Concat, Printed;
    NextKeepsRegisters(m, c, step);
    if m.byte == 0 {
      FreeStep(m, c, step);
    } else {
      var h :| HeldBy(m, h) && m.console == Concat(m.finished) + Printed(m.cpus[h]);
      HeldStep(m, c, step, h);
    }
  }

  // ---------------------------------------------------------------- runs

  datatype Action = Action(cpu: int, step: Step)

  predicate Run(m: Machine, run: seq<Action>)
    decreases |run|
  {
    run == [] || (Enabled(m, run[0].cpu, run[0].step) && Run(Next(m, run[0].cpu, run[0].step), run[1..]))
  }

  function After(m: Machine, run: seq<Action>): (t: Machine)
    requires Run(m, run)
    ensures |t.cpus| == |m.cpus|
    decreases |run|
  {
    if run == [] then m else After(Next(m, run[0].cpu, run[0].step), run[1..])
  }

  lemma {:induction false} RunKeepsInv(m: Machine, run: seq<Action>)
    requires Inv(m) && Conserved(m) && Run(m, run)
    ensures Inv(After(m, run)) && Conserved(After(m, run))
    decreases |run|
  {
    if run != [] {
      NextKeepsInv(m, run[0].cpu, run[0].step);
      NextConserves(m, run[0].cpu, run[0].step);
      RunKeepsInv(Next(m, run[0].cpu, run[0].step), run[1..]);
    }
  }

  lemma InitialInv(m: Machine)
    requires Initial(m)
    ensures Inv(m) && Conserved(m)
  {
    PendingNone(m.cpus);
  }

  /** Mutual exclusion in every interleaving, and what the byte says. */
  lemma MutualExclusion(m: Machine, run: seq<Action>, i: int, j: int)
    requires Initial(m) && Run(m, run)
    requires var t := After(m, run); 0 <= i < |t.cpus| && 0 <= j < |t.cpus| && Holds(t.cpus[i]) && Holds(t.cpus[j])
    ensures i == j && After(m, run).byte == 1
  {
    InitialInv(m);
    RunKeepsInv(m, run);
  }

  lemma ByteSaysHeld(m: Machine, run: seq<Action>)
    requires Initial(m) && Run(m, run)
    ensures var t := After(m, run);
      (t.byte == 1 <==> exists h :: 0 <= h < |t.cpus| && Holds(t.cpus[h])) && (t.byte == 0 || t.byte == 1)
  {
    InitialInv(m);
    RunKeepsInv(m, run);
  }

  /** Nobody's characters come between those of a message: in every interleaving the
      console shows whole messages, one after the other, and then the beginning of
      at most one, that of the CPU inside. */
  lemma MessagesStayWhole(m: Machine, run: seq<Action>)
    requires Initial(m) && Run(m, run)
    ensures var t := After(m, run);
      || t.console == Concat(t.finished)
      || exists h :: 0 <= h < |t.cpus| && t.cpus[h].Inside? && t.cpus[h].count <= |t.cpus[h].msg|
                   && t.console == Concat(t.finished) + t.cpus[h].msg[..t.cpus[h].count]
  {
    InitialInv(m);
    RunKeepsInv(m, run);
    var t := After(m, run);
    if t.byte == 1 {
      var h :| HeldBy(t, h) && t.console == Concat(t.finished) + Printed(t.cpus[h]);
      if !t.cpus[h].Inside? {
        assert t.console == Concat(t.finished);
      }
    }
  }

  /** Every message of a call is finished or still with its CPU, once. */
  lemma MessagesConserved(m: Machine, run: seq<Action>)
    requires Initial(m) && Run(m, run)
    ensures var t := After(m, run);
      t.called == multiset(t.finished) + Pending(t.cpus)
  {
    InitialInv(m);
    RunKeepsInv(m, run);
  }

  // ---------------------------------------------------------------- getting in

  /** A CPU that runs alone for some instructions. */
  function Alone(c: int, n: nat): seq<Action> {
    seq(n, _ => Action(c, Exec))
  }

  /** Instructions to go for a waiting CPU that finds the lock free. */
  function Distance(cpu: Cpu): nat {
    match cpu
    case Exchange(_, _) => 2
    case Test(d, _) => if d == 0 then 1 else 5
    case Pause(_, _) => 4
    case Compare(_, _) => 3
    case Outside => 0
    case Inside(_, _) => 0
  }

  /** A waiting CPU that finds the lock free is inside after at most five
      instructions of its own, with its message. */
  lemma {:induction false} WaiterGetsIn(m: Machine, c: int)
    requires Inv(m) && Enabled(m, c, Exec) && (m.byte == 0 || Holds(m.cpus[c]))
    ensures Distance(m.cpus[c]) <= 5 && Run(m, Alone(c, Distance(m.cpus[c])))
    ensures After(m, Alone(c, Distance(m.cpus[c]))).cpus[c] == Inside(m.cpus[c].msg, 0)
    decreases Distance(m.cpus[c])
  {
    var n := Next(m, c, Exec);
    var k := Distance(m.cpus[c]);
    assert Alone(c, k)[1..] == Alone(c, k - 1);
    NextKeepsInv(m, c, Exec);
    if Distance(n.cpus[c]) > 0 {
      WaiterGetsIn(n, c);
    } else {
      assert Alone(c, 0) == [];
    }
  }
}
