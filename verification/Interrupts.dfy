/** The interrupt controller and the CPU's do_intr.  Devices run on other threads: between any two
    of the CPU's calls any number of lines may be raised. */
module Interrupts {
  const IRQ_BASE: nat := 32
  const NO_INTR: nat := 255

  type Line = n: nat | n < 16

  /** i8259_intr_no and cpu.intr, which the mutex keeps together. */
  datatype Latch = Latch(intrNo: nat, intr: bool)

  function Raised(l: Latch, irq: Line): Latch {
    Latch(if l.intrNo == NO_INTR || irq as int > l.intrNo as int - IRQ_BASE then irq + IRQ_BASE else l.intrNo, true)
  }

  // ---------- all interleavings ----------

  /** Where the CPU is inside do_intr. */
  datatype Pc = Idle | Querying | Acking(vector: nat) | Delivering(vector: nat) | AssertFailed

  /** The lines raised between two acknowledgements, before and after the query, and the vector
      the CPU took. */
  datatype Window = Window(before: seq<Line>, after: seq<Line>, vector: nat)

  datatype Machine = Machine(
    latch: Latch, IF: bool, pc: Pc,
    windows: seq<Window>, before: seq<Line>, after: seq<Line>,
    delivered: seq<nat>)

  datatype Event =
    | Raise(line: Line)          // a device calls i8259_raise_intr
    | CpuStep                    // the CPU's next call in do_intr
    | SetIF(value: bool)         // an instruction, cli or sti among them

  const START: Machine := Machine(Latch(NO_INTR, false), false, Idle, [], [], [], [])

  function Next(m: Machine, e: Event): Machine {
    match e
    case Raise(line) =>
      var raised := m.(latch := Raised(m.latch, line));
      if m.pc.Acking? then raised.(after := m.after + [line]) else raised.(before := m.before + [line])
    case SetIF(value) => if m.pc.Idle? then m.(IF := value) else m
    case CpuStep =>
      match m.pc
      case Idle => if m.latch.intr && m.IF then m.(pc := Querying) else m
      case Querying => m.(pc := if m.latch.intrNo == NO_INTR then AssertFailed else Acking(m.latch.intrNo))
      case Acking(v) =>
        m.(latch := Latch(NO_INTR, false), pc := Delivering(v),
           windows := m.windows + [Window(m.before, m.after, v)], before := [], after := [])
      // through an interrupt gate; a trap gate is this step and a SetIF(true) after it
      case Delivering(v) => m.(IF := false, pc := Idle, delivered := m.delivered + [v])
      case AssertFailed => m
  }

  function Run(m: Machine, es: seq<Event>): Machine
    decreases |es|
  {
    if es == [] then m else Run(Next(m, es[0]), es[1..])
  }

  function Highest(lines: seq<Line>): (h: Line)
    requires lines != []
    ensures h in lines && forall i :: 0 <= i < |lines| ==> lines[i] <= h
  {
    var n := |lines| - 1;
    if n == 0 then lines[0]
    else
      var h := Highest(lines[..n]);
      if lines[n] > h then lines[n] else h
  }

  lemma HighestSnoc(lines: seq<Line>, line: Line)
    requires lines != []
    ensures Highest(lines + [line]) == if line > Highest(lines) then line else Highest(lines)
  {
    assert (lines + [line])[..|lines|] == lines;
  }

  /** The pending vector is 32 plus the highest line raised since the last acknowledgement. */
  ghost predicate PendingIsHighest(l: Latch, lines: seq<Line>) {
    if lines == [] then l == Latch(255, false) else l == Latch(32 + Highest(lines), true)
  }

  ghost predicate Took(before: seq<Line>, vector: nat) {
    before != [] && vector == 32 + Highest(before)
  }

  ghost predicate Inv(m: Machine) {
    && PendingIsHighest(m.latch, m.before + m.after)
    && m.pc != AssertFailed
    && (m.pc.Querying? ==> m.before != [])
    && (m.pc.Acking? ==> Took(m.before, m.pc.vector))
    && (!m.pc.Acking? ==> m.after == [])
    && (forall i :: 0 <= i < |m.windows| ==> Took(m.windows[i].before, m.windows[i].vector))
    && Vectors(m.windows) == m.delivered + (if m.pc.Delivering? then [m.pc.vector] else [])
  }

  function Vectors(ws: seq<Window>): seq<nat> { seq(|ws|, i requires 0 <= i < |ws| => ws[i].vector) }

  lemma PendingAfterRaise(l: Latch, lines: seq<Line>, line: Line)
    requires PendingIsHighest(l, lines)
    ensures PendingIsHighest(Raised(l, line), lines + [line])
  {
    if lines != [] { HighestSnoc(lines, line); } else { assert Highest([line]) == line; }
  }

  lemma NextKeepsInv(m: Machine, e: Event)
    requires Inv(m)
    ensures Inv(Next(m, e))
  {
    if e.Raise? {
      PendingAfterRaise(m.latch, m.before + m.after, e.line);
      if m.pc.Acking? {
        assert m.before + m.after + [e.line] == m.before + (m.after + [e.line]);
      } else {
        assert m.before + m.after + [e.line] == m.before + [e.line] + m.after;
      }
    } else if e.CpuStep? && m.pc.Acking? {
      var n := Next(m, e);
      assert n.before + n.after == [];
      assert Vectors(n.windows) == Vectors(m.windows) + [m.pc.vector];
    } else {
      assert m.after == [] ==> m.before + m.after == m.before;
    }
  }

  /** In every interleaving: cpu.intr is set exactly while a vector is pending, the vector is the
      highest line since the last acknowledgement, and do_intr's assertion never fails. */
  lemma {:induction false} RunKeepsInv(m: Machine, es: seq<Event>)
    requires Inv(m)
    ensures Inv(Run(m, es))
    decreases |es|
  {
    if es != [] {
      NextKeepsInv(m, es[0]);
      RunKeepsInv(Next(m, es[0]), es[1..]);
    }
  }

  lemma AssertNeverFails(es: seq<Event>)
    ensures Inv(Run(START, es))
    ensures var m := Run(START, es);
            m.pc != AssertFailed && (m.latch.intr <==> m.latch.intrNo != NO_INTR)
  {
    assert START.before + START.after == [] && Vectors(START.windows) == [];
    RunKeepsInv(START, es);
  }

  // ---------- interrupts do not nest ----------

  /** The deliveries that can still come before IF is set again. */
  function Owed(m: Machine): nat {
    match m.pc
    case Idle => if m.IF then 1 else 0
    case AssertFailed => 0
    case _ => 1
  }

  /** Until the program sets IF again at most one interrupt is delivered, and none if IF is clear. */
  lemma {:induction false} OneDelivery(m: Machine, es: seq<Event>)
    requires SetIF(true) !in es
    ensures |Run(m, es).delivered| <= |m.delivered| + if m.pc.Idle? && !m.IF then 0 else 1
    ensures |Run(m, es).delivered| + Owed(Run(m, es)) <= |m.delivered| + Owed(m)
    decreases |es|
  {
    if es != [] {
      assert es[0] in es;
      OneDelivery(Next(m, es[0]), es[1..]);
    }
  }

  /** After a reset nothing is delivered before the program sets IF for the first time. */
  lemma NothingBeforeSti(es: seq<Event>)
    requires SetIF(true) !in es
    ensures Run(START, es).delivered == []
  {
    OneDelivery(START, es);
  }

  // ---------- what happens to each raise ----------

  function Raises(es: seq<Event>): seq<Line> {
    if es == [] then []
    else if es[0].Raise? then [es[0].line] + Raises(es[1..])
    else Raises(es[1..])
  }

  function Flat(ws: seq<Window>): seq<Line> {
    if ws == [] then [] else Flat(ws[..|ws| - 1]) + ws[|ws| - 1].before + ws[|ws| - 1].after
  }

  /** Every line raised so far, in order: those of the closed windows, then the open one. */
  function History(m: Machine): seq<Line> { Flat(m.windows) + m.before + m.after }

  lemma NextHistory(m: Machine, e: Event)
    requires Inv(m)
    ensures History(Next(m, e)) == if e.Raise? then History(m) + [e.line] else History(m)
  {
    assert !m.pc.Acking? ==> m.after == [];
    hide Inv, Raised, Flat;
    var f := Flat(m.windows);
    if e.Raise? {
      if m.pc.Acking? { SnocLast(f + m.before, m.after, e.line); } else { SnocMiddle(f, m.before, e.line); }
    } else if e.CpuStep? && m.pc.Acking? {
      FlatSnoc(m.windows, Window(m.before, m.after, m.pc.vector));
      NoMore(f + m.before + m.after);
    }
  }

  lemma SnocLast<T>(a: seq<T>, b: seq<T>, x: T)
    ensures a + (b + [x]) == a + b + [x]
  {}

  lemma SnocMiddle<T>(a: seq<T>, b: seq<T>, x: T)
    ensures a + (b + [x]) + [] == a + b + [] + [x]
  {}

  lemma NoMore<T>(a: seq<T>)
    ensures a + [] + [] == a
  {}

  lemma FlatSnoc(ws: seq<Window>, w: Window)
    ensures Flat(ws + [w]) == Flat(ws) + w.before + w.after
  {
    assert (ws + [w])[..|ws|] == ws;
  }

  /** No raise is duplicated or invented: each belongs to exactly one window, in order, and each
      closed window delivers one vector, the highest line raised before its query.  The other lines
      of a closed window, those raised between query and acknowledgement among them, are lost. */
  lemma {:induction false} RaisesAreAccountedFor(m: Machine, es: seq<Event>)
    requires Inv(m)
    ensures History(Run(m, es)) == History(m) + Raises(es)
    decreases |es|
  {
    hide Inv, Next, History, Run, Raises;
    Unfolded(m, es);
    if es == [] {
      assert History(m) + [] == History(m);
    } else {
      NextKeepsInv(m, es[0]);
      NextHistory(m, es[0]);
      RaisesAreAccountedFor(Next(m, es[0]), es[1..]);
      if es[0].Raise? {
        Associates(History(m), es[0].line, Raises(es[1..]));
      }
    }
  }

  lemma Unfolded(m: Machine, es: seq<Event>)
    ensures es == [] ==> Run(m, es) == m && Raises(es) == []
    ensures es != [] ==> Run(m, es) == Run(Next(m, es[0]), es[1..])
    ensures es != [] ==> Raises(es) == if es[0].Raise? then [es[0].line] + Raises(es[1..]) else Raises(es[1..])
  {}

  lemma Associates<T>(a: seq<T>, x: T, b: seq<T>)
    ensures a + [x] + b == a + ([x] + b)
  {}

  /** A line raised after the query and before the acknowledgement never reaches the CPU in that
      window, however high it is: the smallest run that loses one. */
  lemma RaiseAfterQueryIsLost(low: Line, high: Line)
    requires low < high
    ensures var m := Run(START, [SetIF(true), Raise(low), CpuStep, CpuStep, Raise(high), CpuStep, CpuStep]);
            m.delivered == [low + IRQ_BASE] && m.latch == Latch(NO_INTR, false) && m.pc == Idle
  {
    var es := [SetIF(true), Raise(low), CpuStep, CpuStep, Raise(high), CpuStep, CpuStep];
    var m1 := Next(START, es[0]);
    var m2 := Next(m1, es[1]);
    var m3 := Next(m2, es[2]);
    var m4 := Next(m3, es[3]);
    var m5 := Next(m4, es[4]);
    var m6 := Next(m5, es[5]);
    RunAt(START, es, 0); RunAt(m1, es, 1); RunAt(m2, es, 2); RunAt(m3, es, 3);
    RunAt(m4, es, 4); RunAt(m5, es, 5); RunAt(m6, es, 6);
    assert es[0..] == es && es[7..] == [];
  }

  lemma RunAt(m: Machine, es: seq<Event>, i: nat)
    requires i < |es|
    ensures Run(m, es[i..]) == Run(Next(m, es[i]), es[i + 1..])
  {
    assert es[i..][1..] == es[i + 1..];
  }

  // ---------- when a raise is lost ----------

  function Vector(line: Line): nat { 32 + line }
  function VectorsOf(lines: seq<Line>): seq<nat> { seq(|lines|, i requires 0 <= i < |lines| => Vector(lines[i])) }

  ghost predicate OneLineEach(ws: seq<Window>) {
    forall i :: 0 <= i < |ws| ==> |ws[i].before| == 1 && ws[i].after == []
  }

  ghost predicate AllTook(ws: seq<Window>) { forall i :: 0 <= i < |ws| ==> Took(ws[i].before, ws[i].vector) }

  /** A closed window has a line at least; only if it has no other is every line delivered. */
  lemma {:induction false} FlatLength(ws: seq<Window>)
    requires AllTook(ws)
    ensures |Flat(ws)| >= |ws| && (|Flat(ws)| == |ws| <==> OneLineEach(ws))
    ensures OneLineEach(ws) ==> VectorsOf(Flat(ws)) == Vectors(ws)
  {
    if ws != [] {
      var n := |ws| - 1;
      var w := ws[n];
      FlatLength(ws[..n]);
      assert Took(w.before, w.vector);
      assert Flat(ws) == Flat(ws[..n]) + w.before + w.after;
      OneLineSnoc(ws);
      if OneLineEach(ws) {
        assert w.before == [Highest(w.before)];
        assert Vectors(ws) == Vectors(ws[..n]) + [w.vector];
      }
    }
  }

  lemma OneLineSnoc(ws: seq<Window>)
    requires ws != []
    ensures var w := ws[|ws| - 1];
            OneLineEach(ws) <==> OneLineEach(ws[..|ws| - 1]) && |w.before| == 1 && w.after == []
  {
    var front := ws[..|ws| - 1];
    assert forall i :: 0 <= i < |front| ==> front[i] == ws[i];
  }

  /** After any run: every line raised in a closed window reached the CPU, each once and in order, if
      and only if no window saw a second line, be it before the query or after it. */
  lemma NoRaiseLostIff(es: seq<Event>)
    ensures var m := Run(START, es);
            VectorsOf(Flat(m.windows)) == m.delivered + (if m.pc.Delivering? then [m.pc.vector] else [])
            <==> OneLineEach(m.windows)
  {
    var m := Run(START, es);
    AssertNeverFails(es);
    FlatLength(m.windows);
  }

  lemma HighestOfBoth(a: seq<Line>, b: seq<Line>)
    requires a != []
    ensures Highest(a + b) == Highest(a) <==> forall i :: 0 <= i < |b| ==> b[i] <= Highest(a)
  {
    var h := Highest(a + b);
    assert forall i :: 0 <= i < |a| ==> (a + b)[i] == a[i];
    assert forall i :: 0 <= i < |b| ==> (a + b)[|a| + i] == b[i];
  }

  /** After any run: every closed window delivered the highest of all its lines if and only if none
      of them saw a higher line between query and acknowledgement than before the query. */
  lemma HighestDeliveredIff(es: seq<Event>)
    ensures var ws := Run(START, es).windows;
            (forall i :: 0 <= i < |ws| ==>
               ws[i].before != [] && ws[i].vector == Vector(Highest(ws[i].before + ws[i].after)))
            <==> (forall i :: 0 <= i < |ws| ==>
                    forall j :: 0 <= j < |ws[i].after| ==> Vector(ws[i].after[j]) <= ws[i].vector)
  {
    var ws := Run(START, es).windows;
    AssertNeverFails(es);
    forall i | 0 <= i < |ws|
      ensures ws[i].before != []
      ensures ws[i].vector == Vector(Highest(ws[i].before + ws[i].after))
              <==> forall j :: 0 <= j < |ws[i].after| ==> Vector(ws[i].after[j]) <= ws[i].vector
    {
      assert Took(ws[i].before, ws[i].vector);
      HighestOfBoth(ws[i].before, ws[i].after);
    }
  }

  function RaiseAll(lines: seq<Line>): seq<Event> { seq(|lines|, i requires 0 <= i < |lines| => Raise(lines[i])) }

  lemma {:induction false} RunAppend(m: Machine, es: seq<Event>, fs: seq<Event>)
    ensures Run(m, es + fs) == Run(Run(m, es), fs)
    decreases |es|
  {
    if es == [] {
      assert es + fs == fs;
    } else {
      assert (es + fs)[1..] == es[1..] + fs;
      RunAppend(Next(m, es[0]), es[1..], fs);
    }
  }

  lemma {:induction false} RaisesWhileAcking(m: Machine, lines: seq<Line>)
    requires m.pc.Acking?
    ensures var n := Run(m, RaiseAll(lines));
            n == m.(latch := n.latch, after := m.after + lines)
    decreases |lines|
  {
    if lines == [] {
      assert m.after + [] == m.after;
    } else {
      assert RaiseAll(lines)[1..] == RaiseAll(lines[1..]);
      RaisesWhileAcking(Next(m, Raise(lines[0])), lines[1..]);
      assert m.after + [lines[0]] + lines[1..] == m.after + lines;
    }
  }

  /** Whenever the CPU stands between query and acknowledgement, whatever lines are raised then are
      dropped by the acknowledgement: the vector is the one read before, and nothing is left pending. */
  lemma LostBeforeAck(es: seq<Event>, lines: seq<Line>)
    requires Run(START, es).pc.Acking?
    ensures var m, n := Run(START, es), Run(START, es + (RaiseAll(lines) + [CpuStep, CpuStep]));
            && n.latch == Latch(NO_INTR, false) && n.pc == Idle && n.before == [] && n.after == []
            && n.delivered == m.delivered + [m.pc.vector]
            && n.windows == m.windows + [Window(m.before, m.after + lines, m.pc.vector)]
  {
    var m := Run(START, es);
    var n := Run(m, RaiseAll(lines));
    RunAppend(START, es, RaiseAll(lines) + [CpuStep, CpuStep]);
    RunAppend(m, RaiseAll(lines), [CpuStep, CpuStep]);
    RaisesWhileAcking(m, lines);
    var acked := Next(n, CpuStep);
    assert [CpuStep, CpuStep][1..] == [CpuStep] && [CpuStep][1..] == [];
    assert Run(n, [CpuStep, CpuStep]) == Run(acked, [CpuStep]) == Next(acked, CpuStep);
  }

  // ---------- the program ----------

  /** The controller's variables and the part of the CPU's state that do_intr uses.  The ghost
      machine records what has happened; i8259_intr_no and cpu.intr are its latch. */
  class Board {
    var intrNo: nat
    var cpuIntr: bool
    var IF: bool

    ghost var m: Machine

    ghost predicate Valid()
      reads this
    {
      Inv(m) && Latch(intrNo, cpuIntr) == m.latch && IF == m.IF
    }

    /** The lines raised since the last acknowledgement. */
    ghost function Lines(): seq<Line>
      reads this
    {
      m.before + m.after
    }

    constructor ()
      ensures Valid() && m == START
    {
      intrNo, cpuIntr, IF := NO_INTR, false, false;
      m := START;
    }

    /** i8259_raise_intr */
    method RaiseIntr(irq: Line)
      requires Valid()
      modifies this`intrNo, this`cpuIntr, this`m
      ensures Valid() && m == Next(old(m), Raise(irq))
      ensures Lines() == old(Lines()) + [irq] && cpuIntr && intrNo == 32 + Highest(Lines())
    {
      NextKeepsInv(m, Raise(irq));
      LinesAfterRaise(m, irq);
      if intrNo == NO_INTR || (intrNo != NO_INTR && irq as int > intrNo as int - IRQ_BASE) {
        intrNo := irq + IRQ_BASE;
      }
      cpuIntr := true;
      m := Next(m, Raise(irq));
    }

    /** i8259_query_intr_no */
    method QueryIntrNo() returns (n: nat)
      requires Valid()
      ensures n == if Lines() == [] then 255 else 32 + Highest(Lines())
    {
      n := intrNo;
    }

    /** i8259_ack_intr, where do_intr calls it */
    method AckIntr()
      requires Valid() && m.pc.Acking?
      modifies this`intrNo, this`cpuIntr, this`m
      ensures Valid() && m == Next(old(m), CpuStep)
      ensures Lines() == [] && intrNo == NO_INTR && !cpuIntr
    {
      NextKeepsInv(m, CpuStep);
      intrNo := NO_INTR;
      cpuIntr := false;
      m := Next(m, CpuStep);
    }

    /** The other threads: any number of raises. */
    method Devices(ghost start: Machine, ghost past: seq<Event>) returns (ghost lines: seq<Line>, ghost es: seq<Event>)
      requires Valid() && m == Run(start, past)
      modifies this`intrNo, this`cpuIntr, this`m
      ensures Valid() && es == past + RaiseAll(lines) && m == Run(start, es)
      ensures m.pc == old(m.pc) && Lines() == old(Lines()) + lines
      ensures m.pc.Querying? ==> m.before == old(m.before) + lines
      ensures m.pc.Acking? ==> m.before == old(m.before)
      ensures m.windows == old(m.windows) && m.delivered == old(m.delivered)
    {
      hide Inv, Highest, PendingIsHighest;
      var raised: seq<Line> := *;
      lines, es := [], past;
      for i := 0 to |raised|
        invariant Valid() && es == past + RaiseAll(lines) && m == Run(start, es)
        invariant m.pc == old(m.pc) && Lines() == old(Lines()) + lines
        invariant m.pc.Querying? ==> m.before == old(m.before) + lines
        invariant m.pc.Acking? ==> m.before == old(m.before)
        invariant m.windows == old(m.windows) && m.delivered == old(m.delivered)
      {
        RunSnoc(start, es, Raise(raised[i]));
        assert RaiseAll(lines + [raised[i]]) == RaiseAll(lines) + [Raise(raised[i])];
        RaiseIntr(raised[i]);
        lines, es := lines + [raised[i]], es + [Raise(raised[i])];
      }
    }

    /** The CPU's next step inside do_intr, where it touches nothing of the controller. */
    ghost method Step(start: Machine, past: seq<Event>) returns (es: seq<Event>)
      requires Inv(m) && m == Run(start, past)
      modifies this`m
      ensures Inv(m) && m == Next(old(m), CpuStep) && m == Run(start, es)
    {
      NextKeepsInv(m, CpuStep);
      RunSnoc(start, past, CpuStep);
      m := Next(m, CpuStep);
      es := past + [CpuStep];
    }

    /** do_intr up to the query, with the devices at work before and after it. */
    method TakeVector(ghost start: Machine, ghost past: seq<Event>) returns (vector: nat, ghost es: seq<Event>)
      requires Valid() && m.pc.Idle? && cpuIntr && IF && m == Run(start, past)
      modifies this`intrNo, this`cpuIntr, this`m
      ensures Valid() && m.pc == Acking(vector) && m == Run(start, es)
      ensures Took(m.before, vector) && old(Lines()) <= m.before
      ensures m.windows == old(m.windows) && m.delivered == old(m.delivered)
    {
      hide Run, Highest, RaiseAll;
      ghost var lines;
      es := Step(start, past);
      lines, es := Devices(start, es);
      vector := QueryIntrNo();
      assert vector != NO_INTR;
      es := Step(start, es);
      lines, es := Devices(start, es);
    }

    /** The rest of do_intr: acknowledge and enter the handler. */
    method Acknowledge(ghost start: Machine, ghost past: seq<Event>, vector: nat) returns (ghost es: seq<Event>)
      requires Valid() && m.pc == Acking(vector) && m == Run(start, past)
      modifies this
      ensures Valid() && m.pc.Idle? && m == Run(start, es) && !IF
      ensures m.delivered == old(m.delivered) + [vector]
      ensures m.windows == old(m.windows) + [Window(old(m.before), old(m.after), vector)]
    {
      hide Run, Highest, RaiseAll, PendingIsHighest, Took;
      ghost var lines;
      RunSnoc(start, past, CpuStep);
      AckIntr();
      lines, es := Devices(start, past + [CpuStep]);
      IF := false;
      es := Step(start, es);
    }

    /** do_intr.  The vector is that of the highest line raised before the query, those raised since
        do_intr was entered among them; its assertion holds whatever the devices do. */
    method DoIntr() returns (taken: bool, vector: nat, ghost es: seq<Event>)
      requires Valid() && m.pc.Idle?
      modifies this
      ensures Valid() && m.pc.Idle? && m == Run(old(m), es)
      ensures taken <==> old(cpuIntr) && old(IF)
      ensures !taken ==> m == old(m)
      ensures taken ==> !IF && m.delivered == old(m.delivered) + [vector]
      ensures taken ==> |m.windows| == |old(m.windows)| + 1 && old(Lines()) <= m.windows[|old(m.windows)|].before
      ensures taken ==> Took(m.windows[|old(m.windows)|].before, vector)
    {
      hide Inv, Took;
      taken, vector, es := cpuIntr && IF, NO_INTR, [];
      if taken {
        ghost var start := m;
        vector, es := TakeVector(start, es);
        es := Acknowledge(start, es, vector);
      }
    }
  }

  lemma {:induction false} RunSnoc(m: Machine, es: seq<Event>, e: Event)
    ensures Run(m, es + [e]) == Next(Run(m, es), e)
  {
    RunAppend(m, es, [e]);
    assert [e][1..] == [];
  }

  lemma LinesAfterRaise(m: Machine, irq: Line)
    requires Inv(m)
    ensures var n := Next(m, Raise(irq)); n.before + n.after == m.before + m.after + [irq]
  {
    if m.pc.Acking? {
      SnocLast(m.before, m.after, irq);
    } else {
      assert m.before + m.after == m.before;
    }
  }
}
