/**
 * Automatic IDs: each activation reads the durable watermarks, evaluates, and reserves what it
 * allocated before its outcome is looked at; steps of different activations interleave.
 */
module AutoIds {
  import opened Prelude

  /** A table's object identifier. */
  datatype Table = Table(id: nat)

  /** How a reservation went through: the ref moved, or a lost update found the ref already there. */
  datatype Hold = Advanced | SameWatermark

  datatype Phase =
    | Reading
    | Evaluating
    | Reserving
    | Swapping(table: Table)
    | Rechecking(table: Table)
    | Passed
    | Failed

  datatype Activation = Activation(
    phase: Phase,
    tables: set<Table>,            // the automatic-key tables
    done: set<Table>,              // those the current loop has dealt with
    read: map<Table, int>,         // watermarks found; a table without a ref is absent
    next: map<Table, int>,         // the next ID of each table
    issued: map<Table, seq<int>>,  // IDs handed out, in order
    succeeded: bool,               // the evaluation's outcome, inspected after reservation
    held: map<Table, Hold>)        // tables whose IDs were reserved

  /** The allocator refs and every activation begun. */
  datatype State = State(refs: map<Table, int>, activations: map<nat, Activation>)

  /** The loops visit their tables in any order. */
  datatype Step =
    | Begin(a: nat, tables: set<Table>)
    | Read(a: nat, table: Table)
    | Evaluate(a: nat)
    | Observe(a: nat, table: Table, id: int)
    | Allocate(a: nat, table: Table)
    | Finish(a: nat, succeeded: bool)
    | Reserve(a: nat, table: Table)
    | Swap(a: nat, durable: bool)
    | Lose(a: nat)
    | Recheck(a: nat)
    | Complete(a: nat)
    | Abort(a: nat)

  function Find(m: map<Table, int>, t: Table): Option<int> {
    if t in m then Some(m[t]) else None
  }

  /** A watermark, zero before the first reservation. */
  function Level(m: map<Table, int>, t: Table): int {
    if t in m then m[t] else 0
  }

  function Base(x: Activation, t: Table): int {
    Level(x.read, t)
  }

  /** The highest ID of a table the activation allocated, accepted or observed. */
  function High(x: Activation, t: Table): int {
    Level(x.next, t) - 1
  }

  predicate NeedsReservation(x: Activation, t: Table) {
    (t !in x.read || High(x, t) > x.read[t]) && High(x, t) > 0
  }

  function ReadOne(x: Activation, refs: map<Table, int>, t: Table): Activation {
    x.(done := x.done + {t}, read := if t in refs then x.read[t := refs[t]] else x.read)
  }

  /** Counters start at one and are raised above the watermarks read. */
  function BeginEvaluation(x: Activation): Activation {
    x.(phase := Evaluating,
       next := map t | t in x.tables :: Max(1, Base(x, t) + 1),
       issued := map t | t in x.tables :: [])
  }

  function ObserveId(x: Activation, t: Table, id: int): Activation
    requires t in x.next
  {
    x.(next := x.next[t := Max(x.next[t], id + 1)])
  }

  function AllocateId(x: Activation, t: Table): Activation
    requires t in x.next && t in x.issued
  {
    x.(next := x.next[t := x.next[t] + 1], issued := x.issued[t := x.issued[t] + [x.next[t]]])
  }

  /** The reservation of the table went through. */
  function Settle(x: Activation, t: Table, hold: Hold): Activation {
    x.(phase := Reserving, done := x.done + {t}, held := x.held[t := hold])
  }

  function Fail(x: Activation): Activation {
    x.(phase := Failed)
  }

  function Update(s: State, a: nat, x: Activation): State {
    s.(activations := s.activations[a := x])
  }

  /** One step of one activation; `None` when it is not that activation's turn to take it. */
  function Apply(s: State, step: Step): Option<State> {
    if step.Begin? then
      if step.a in s.activations then None else
      Some(Update(s, step.a, Activation(Reading, step.tables, {}, map[], map[], map[], false, map[])))
    else if step.a !in s.activations then None
    else if step.Swap? then Swapped(s, step.a, s.activations[step.a], step.durable)
    else match Moved(s.refs, step, s.activations[step.a])
      case None => None
      case Some(x) => Some(Update(s, step.a, x))
  }

  /** The ref update is atomic: it takes place only over the value expected. */
  function Swapped(s: State, a: nat, x: Activation, durable: bool): Option<State> {
    if !x.phase.Swapping? || Find(s.refs, x.phase.table) != Find(x.read, x.phase.table) then None else
    var t := x.phase.table;
    var settled := Settle(x, t, Advanced);
    Some(Update(s.(refs := s.refs[t := High(x, t)]), a, if durable then settled else Fail(settled)))
  }

  /** Every other step changes the activation alone. */
  function Moved(refs: map<Table, int>, step: Step, x: Activation): Option<Activation> {
    match step
    case Begin(_, _) => None
    case Swap(_, _) => None
    case Read(_, t) =>
      if x.phase.Reading? && t in x.tables && t !in x.done then Some(ReadOne(x, refs, t)) else None
    case Evaluate(_) =>
      if x.phase.Reading? && x.tables <= x.done then Some(BeginEvaluation(x)) else None
    case Observe(_, t, id) =>
      if x.phase.Evaluating? && t in x.next then Some(ObserveId(x, t, id)) else None
    case Allocate(_, t) =>
      if x.phase.Evaluating? && t in x.next && t in x.issued then Some(AllocateId(x, t)) else None
    case Finish(_, succeeded) =>
      if x.phase.Evaluating? then Some(x.(phase := Reserving, done := {}, succeeded := succeeded)) else None
    case Abort(_) =>
      if x.phase.Passed? then None else Some(Fail(x))
    case _ => Looped(refs, step, x)
  }

  /** The steps of the reservation loop. */
  function Looped(refs: map<Table, int>, step: Step, x: Activation): Option<Activation>
    requires step.Reserve? || step.Lose? || step.Recheck? || step.Complete?
  {
    match step
    case Reserve(_, t) => Considered(refs, t, x)
    case Lose(_) =>
      // The update reported failure, for whatever reason.
      if x.phase.Swapping? then Some(x.(phase := Rechecking(x.phase.table))) else None
    case Recheck(_) => Rechecked(refs, x)
    case Complete(_) =>
      if x.phase.Reserving? && x.tables <= x.done then Some(x.(phase := Passed)) else None
  }

  /** A table's turn: nothing to reserve, a ref that moved meanwhile, or an update to make. */
  function Considered(refs: map<Table, int>, t: Table, x: Activation): Option<Activation> {
    if !x.phase.Reserving? || t !in x.tables || t in x.done then None
    else if !NeedsReservation(x, t) then Some(x.(done := x.done + {t}))
    else if Find(refs, t) != Find(x.read, t) then Some(Fail(x))
    else Some(x.(phase := Swapping(t)))
  }

  /** After a failed update: let through when the ref names this very watermark. */
  function Rechecked(refs: map<Table, int>, x: Activation): Option<Activation> {
    if !x.phase.Rechecking? then None
    else if Find(refs, x.phase.table) == Some(High(x, x.phase.table)) then
      Some(Settle(x, x.phase.table, SameWatermark))
    else Some(Fail(x))
  }

  function Run(s: State, steps: seq<Step>): Option<State>
    decreases |steps|
  {
    if steps == [] then Some(s) else
    match Run(s, steps[..|steps| - 1])
    case None => None
    case Some(mid) => Apply(mid, steps[|steps| - 1])
  }

  function Start(refs: map<Table, int>): State {
    State(refs, map[])
  }

  ghost predicate Reachable(refs: map<Table, int>, s: State) {
    exists steps :: Run(Start(refs), steps) == Some(s)
  }

  // ---- What is promised ----

  /** The IDs an activation may have handed out for a table. */
  predicate InRange(x: Activation, t: Table, id: int) {
    Base(x, t) < id <= High(x, t)
  }

  predicate Holds(s: State, a: nat, t: Table, hold: Hold) {
    a in s.activations && t in s.activations[a].held && s.activations[a].held[t] == hold
  }

  predicate Held(s: State, a: nat, t: Table) {
    a in s.activations && t in s.activations[a].held
  }

  ghost predicate Overlap(s: State, a: nat, b: nat, t: Table)
    requires a in s.activations && b in s.activations
  {
    exists id :: InRange(s.activations[a], t, id) && InRange(s.activations[b], t, id)
  }

  /** Reserved ranges of one table lie apart. */
  ghost predicate RangesDisjoint(s: State, t: Table) {
    forall a, b | a != b && Held(s, a, t) && Held(s, b, t) :: !Overlap(s, a, b, t)
  }

  predicate Apart(x: Activation, y: Activation, t: Table) {
    High(x, t) <= Base(y, t) || High(y, t) <= Base(x, t)
  }

  // ---- Invariants ----

  predicate Ascending(ids: seq<int>, low: int, high: int) {
    && (forall i | 0 <= i < |ids| :: low < ids[i] <= high)
    && (forall i, j | 0 <= i < j < |ids| :: ids[i] < ids[j])
  }

  /** Every ID handed out lies above the watermark read and at most at the high water. */
  predicate Counting(x: Activation, t: Table) {
    && (t in x.next <==> t in x.issued)
    && (t in x.next ==> x.next[t] >= Max(1, Base(x, t) + 1) && Ascending(x.issued[t], Base(x, t), High(x, t)))
    && (x.phase.Reading? ==> t !in x.next)
    && (!x.phase.Reading? && !x.phase.Failed? && t in x.tables ==> t in x.next)
    && (t in x.next ==> t in x.tables)
  }

  /** What was read does not exceed the ref, nor fall below where the run began. */
  predicate ReadBelow(refs0: map<Table, int>, refs: map<Table, int>, x: Activation, t: Table) {
    && (t in x.read ==> t in refs && 0 <= x.read[t] <= refs[t])
    && ((x.phase.Reading? && t in x.done) || t in x.next ==> Level(refs0, t) <= Base(x, t))
  }

  predicate Reserved(refs: map<Table, int>, x: Activation, t: Table) {
    && (t in x.held ==> t in x.next && t in refs && Base(x, t) < High(x, t) <= refs[t])
    && (x.phase.Reading? || x.phase.Evaluating? ==> t !in x.held)
    && (x.phase.Reserving? || x.phase.Swapping? || x.phase.Rechecking? || x.phase.Passed? ==>
          (t in x.held ==> t in x.done) && (t in x.done ==> t in x.held || !NeedsReservation(x, t)))
    && ((x.phase.Swapping? || x.phase.Rechecking?) && x.phase.table == t ==>
      t in x.tables && t !in x.done && NeedsReservation(x, t))
    && (x.phase.Passed? ==> t in x.tables ==> t in x.done)
  }

  predicate TableInv(refs0: map<Table, int>, refs: map<Table, int>, x: Activation, t: Table) {
    Counting(x, t) && ReadBelow(refs0, refs, x, t) && Reserved(refs, x, t)
  }

  ghost predicate ActivationInv(refs0: map<Table, int>, refs: map<Table, int>, x: Activation) {
    forall t :: TableInv(refs0, refs, x, t)
  }

  ghost predicate AllApart(s: State) {
    forall a, b, t | a != b && Holds(s, a, t, Advanced) && Holds(s, b, t, Advanced) ::
      Apart(s.activations[a], s.activations[b], t)
  }

  ghost predicate Winner(s: State, a: nat, t: Table, level: int) {
    Holds(s, a, t, Advanced) && High(s.activations[a], t) == level
  }

  ghost predicate HasWinner(s: State, t: Table, level: int) {
    exists a :: Winner(s, a, t, level)
  }

  /** A ref that moved was moved by an activation that reserved exactly up to it. */
  ghost predicate RefsWon(refs0: map<Table, int>, s: State) {
    forall t | t in s.refs :: (t in refs0 && s.refs[t] == refs0[t]) || HasWinner(s, t, s.refs[t])
  }

  /** A reservation that did not move the ref shares its high water with one that did. */
  ghost predicate SharedWon(s: State) {
    forall a, t | Holds(s, a, t, SameWatermark) :: HasWinner(s, t, High(s.activations[a], t))
  }

  ghost predicate Covers(s: State, a: nat, t: Table, id: int) {
    Holds(s, a, t, Advanced) && InRange(s.activations[a], t, id)
  }

  ghost predicate Covered(s: State, t: Table, id: int) {
    exists a :: Covers(s, a, t, id)
  }

  ghost predicate AllCovered(refs0: map<Table, int>, s: State) {
    forall t, id | Level(refs0, t) < id <= Level(s.refs, t) :: Covered(s, t, id)
  }

  ghost predicate RefsGrow(refs: map<Table, int>, refs': map<Table, int>) {
    forall t | t in refs :: t in refs' && refs[t] <= refs'[t]
  }

  predicate Natural(refs: map<Table, int>) {
    forall t | t in refs :: refs[t] >= 0
  }

  ghost predicate Inv(refs0: map<Table, int>, s: State) {
    && Natural(refs0) && Natural(s.refs) && RefsGrow(refs0, s.refs)
    && (forall a | a in s.activations :: ActivationInv(refs0, s.refs, s.activations[a]))
    && AllApart(s) && RefsWon(refs0, s) && SharedWon(s) && AllCovered(refs0, s)
  }

  // ---- Each step keeps the invariant ----

  lemma ReadKept(refs0: map<Table, int>, refs: map<Table, int>, refs': map<Table, int>, x: Activation)
    requires ActivationInv(refs0, refs, x) && RefsGrow(refs, refs')
    ensures ActivationInv(refs0, refs', x)
  {
    forall t ensures TableInv(refs0, refs', x, t) { assert TableInv(refs0, refs, x, t); }
  }

  /** What a step that reserves nothing does to the reservations: nothing. */
  ghost predicate Quiet(s: State, s': State, a: nat) {
    && s'.refs == s.refs
    && (forall b | b in s.activations :: b in s'.activations)
    && (forall b | b in s'.activations && b != a :: b in s.activations && s'.activations[b] == s.activations[b])
    && (a in s'.activations && a !in s.activations ==> s'.activations[a].held == map[])
    && (a in s.activations ==>
          && s'.activations[a].held == s.activations[a].held
          && forall t | t in s.activations[a].held ::
               Base(s'.activations[a], t) == Base(s.activations[a], t)
                 && High(s'.activations[a], t) == High(s.activations[a], t))
  }

  lemma QuietKeeps(refs0: map<Table, int>, s: State, s': State, a: nat)
    requires Inv(refs0, s) && Quiet(s, s', a)
    ensures AllApart(s') && RefsWon(refs0, s') && SharedWon(s') && AllCovered(refs0, s')
  {
    hide ActivationInv;
    assert forall b, t, h :: Holds(s', b, t, h) <==> Holds(s, b, t, h);
    assert forall b, t, h | Holds(s, b, t, h) ::
      Base(s'.activations[b], t) == Base(s.activations[b], t)
        && High(s'.activations[b], t) == High(s.activations[b], t);
    forall t, level | HasWinner(s, t, level) ensures HasWinner(s', t, level) {
      var b :| Winner(s, b, t, level);
      assert Winner(s', b, t, level);
    }
    forall t, id | Covered(s, t, id) ensures Covered(s', t, id) {
      var b :| Covers(s, b, t, id);
      assert Covers(s', b, t, id);
    }
  }

  /** One activation may take on one reservation; everything held before stays as it was. */
  ghost predicate Gains(s: State, s': State, a: nat, t: Table, hold: Hold) {
    && a in s.activations && t !in s.activations[a].held
    && s'.activations.Keys == s.activations.Keys
    && (forall b | b in s.activations && b != a :: s'.activations[b] == s.activations[b])
    && s'.activations[a].held == s.activations[a].held[t := hold]
    && s'.activations[a].read == s.activations[a].read && s'.activations[a].next == s.activations[a].next
  }

  lemma GainsKeeps(s: State, s': State, a: nat, t: Table, hold: Hold)
    requires Gains(s, s', a, t, hold)
    ensures forall b, u, h :: Holds(s', b, u, h) <==> Holds(s, b, u, h) || (b == a && u == t && h == hold)
    ensures forall b, u | b in s.activations :: Base(s'.activations[b], u) == Base(s.activations[b], u)
    ensures forall b, u | b in s.activations :: High(s'.activations[b], u) == High(s.activations[b], u)
    ensures forall u, level | HasWinner(s, u, level) :: HasWinner(s', u, level)
    ensures forall u, id | Covered(s, u, id) :: Covered(s', u, id)
  {
    forall u, level | HasWinner(s, u, level) ensures HasWinner(s', u, level) {
      var b :| Winner(s, b, u, level);
      assert Winner(s', b, u, level);
    }
    forall u, id | Covered(s, u, id) ensures Covered(s', u, id) {
      var b :| Covers(s, b, u, id);
      assert Covers(s', b, u, id);
    }
  }

  /** A reservation's own part of the invariant, by activation. */
  lemma HeldBelow(refs0: map<Table, int>, s: State, b: nat, t: Table)
    requires Inv(refs0, s) && Held(s, b, t)
    ensures t in s.refs && Base(s.activations[b], t) < High(s.activations[b], t) <= s.refs[t]
    ensures Level(refs0, t) <= Base(s.activations[b], t)
  {
    assert TableInv(refs0, s.refs, s.activations[b], t);
  }

  /** Moving the ref reserves exactly what lies between its old and its new value. */
  lemma AdvanceKeeps(refs0: map<Table, int>, s: State, s': State, a: nat, t: Table)
    requires Inv(refs0, s) && Gains(s, s', a, t, Advanced)
    requires Find(s.refs, t) == Find(s.activations[a].read, t) && NeedsReservation(s.activations[a], t)
    requires s'.refs == s.refs[t := High(s.activations[a], t)]
    ensures Natural(s'.refs) && RefsGrow(s.refs, s'.refs)
    ensures AllApart(s') && RefsWon(refs0, s') && SharedWon(s') && AllCovered(refs0, s')
  {
    hide ActivationInv, RefsWon, SharedWon, AllCovered;
    AdvanceApart(refs0, s, s', a, t);
    AdvanceWins(refs0, s, s', a, t);
    AdvanceCovers(refs0, s, s', a, t);
  }

  lemma AdvanceApart(refs0: map<Table, int>, s: State, s': State, a: nat, t: Table)
    requires Inv(refs0, s) && Gains(s, s', a, t, Advanced) && Base(s.activations[a], t) == Level(s.refs, t)
    ensures AllApart(s')
  {
    hide ActivationInv, RefsWon, SharedWon, AllCovered;
    GainsKeeps(s, s', a, t, Advanced);
    forall b, c, u | b != c && Holds(s', b, u, Advanced) && Holds(s', c, u, Advanced)
      ensures Apart(s'.activations[b], s'.activations[c], u)
    {
      if b == a && u == t { HeldBelow(refs0, s, c, t); }
      else if c == a && u == t { HeldBelow(refs0, s, b, t); }
      else { assert Apart(s.activations[b], s.activations[c], u); }
    }
  }

  lemma AdvanceWins(refs0: map<Table, int>, s: State, s': State, a: nat, t: Table)
    requires Inv(refs0, s) && Gains(s, s', a, t, Advanced) && s'.refs == s.refs[t := High(s.activations[a], t)]
    ensures RefsWon(refs0, s') && SharedWon(s')
  {
    hide ActivationInv, AllApart, AllCovered, HasWinner;
    GainsKeeps(s, s', a, t, Advanced);
    WinnerFound(s', a, t, High(s.activations[a], t));
  }

  lemma WinnerFound(s: State, a: nat, t: Table, level: int)
    requires Winner(s, a, t, level)
    ensures HasWinner(s, t, level)
  {
  }

  lemma AdvanceCovers(refs0: map<Table, int>, s: State, s': State, a: nat, t: Table)
    requires Inv(refs0, s) && Gains(s, s', a, t, Advanced) && Base(s.activations[a], t) == Level(s.refs, t)
    requires s'.refs == s.refs[t := High(s.activations[a], t)]
    ensures AllCovered(refs0, s')
  {
    hide ActivationInv, AllApart, RefsWon, SharedWon;
    GainsKeeps(s, s', a, t, Advanced);
    forall u, id | Level(refs0, u) < id <= Level(s'.refs, u) ensures Covered(s', u, id) {
      if u == t && id > Level(s.refs, t) {
        assert Covers(s', a, t, id);
      } else {
        assert Covered(s, u, id);
      }
    }
  }

  /** A lost update accepted at the same watermark: some other activation moved the ref there. */
  lemma ShareKeeps(refs0: map<Table, int>, s: State, s': State, a: nat, t: Table)
    requires Inv(refs0, s) && Gains(s, s', a, t, SameWatermark)
    requires s'.refs == s.refs && Find(s.refs, t) == Some(High(s.activations[a], t))
    requires NeedsReservation(s.activations[a], t) && Level(refs0, t) <= Base(s.activations[a], t)
    ensures AllApart(s') && RefsWon(refs0, s') && SharedWon(s') && AllCovered(refs0, s')
  {
    hide ActivationInv;
    GainsKeeps(s, s', a, t, SameWatermark);
    assert HasWinner(s, t, High(s.activations[a], t));
    forall u, id | Level(refs0, u) < id <= Level(s'.refs, u) ensures Covered(s', u, id) {
      assert Covered(s, u, id);
    }
  }

  /** Steps other than these four leave what was read, the counters and the IDs handed out alone. */
  predicate Countdown(step: Step) {
    step.Read? || step.Evaluate? || step.Observe? || step.Allocate?
  }

  lemma MovedShape(refs: map<Table, int>, step: Step, x: Activation, y: Activation)
    requires Moved(refs, step, x) == Some(y)
    ensures !Countdown(step) ==> y.next == x.next && y.issued == x.issued && y.read == x.read && y.tables == x.tables
    ensures !Countdown(step) ==> y.phase.Failed? || (!x.phase.Reading? && !x.phase.Failed? && !y.phase.Reading?)
    ensures step.Read? ==> x.phase.Reading? && step.table !in x.done && y == ReadOne(x, refs, step.table)
    ensures step.Evaluate? ==> x.phase.Reading? && x.tables <= x.done && y == BeginEvaluation(x)
    ensures step.Observe? ==> x.phase.Evaluating? && step.table in x.next && y == ObserveId(x, step.table, step.id)
    ensures step.Allocate? ==>
        x.phase.Evaluating? && step.table in x.next && step.table in x.issued && y == AllocateId(x, step.table)
  {
    hide ReadOne, BeginEvaluation, ObserveId, AllocateId, Looped;
    if step.Reserve? || step.Lose? || step.Recheck? || step.Complete? { LoopShape(refs, step, x, y); }
  }

  lemma LoopShape(refs: map<Table, int>, step: Step, x: Activation, y: Activation)
    requires step.Reserve? || step.Lose? || step.Recheck? || step.Complete?
    requires Looped(refs, step, x) == Some(y)
    ensures y.next == x.next && y.issued == x.issued && y.read == x.read && y.tables == x.tables
    ensures y.phase.Failed? || (!x.phase.Reading? && !x.phase.Failed? && !y.phase.Reading?)
  {
    hide Considered, Rechecked;
    if step.Reserve? { ConsideredShape(refs, step.table, x, y); }
    if step.Recheck? { RecheckedShape(refs, x, y); }
  }

  lemma ConsideredShape(refs: map<Table, int>, t: Table, x: Activation, y: Activation)
    requires Considered(refs, t, x) == Some(y)
    ensures y.next == x.next && y.issued == x.issued && y.read == x.read && y.tables == x.tables
    ensures y.phase.Failed? || (x.phase.Reserving? && (y.phase.Reserving? || y.phase.Swapping?))
  {
    hide NeedsReservation, Find;
  }

  lemma RecheckedShape(refs: map<Table, int>, x: Activation, y: Activation)
    requires Rechecked(refs, x) == Some(y)
    ensures y.next == x.next && y.issued == x.issued && y.read == x.read && y.tables == x.tables
    ensures y.phase.Failed? || (x.phase.Rechecking? && y.phase.Reserving?)
  {
    hide High, Find;
  }

  /** A step that changes the activation alone keeps its invariant, table by table. */
  lemma MovedCounting(refs: map<Table, int>, step: Step, x: Activation, y: Activation, t: Table)
    requires Counting(x, t) && Moved(refs, step, x) == Some(y)
    ensures Counting(y, t)
  {
    hide Counting, Moved;
    MovedShape(refs, step, x, y);
    if step.Read? {
      ReadCounts(x, refs, step.table, t);
    } else if step.Allocate? {
      AllocateCounts(x, step.table, t);
    } else if step.Observe? {
      ObserveCounts(x, step.table, step.id, t);
    } else if step.Evaluate? {
      EvaluationCounts(x, t);
    } else {
      SameCounts(x, y, t);
    }
  }

  lemma SameCounts(x: Activation, y: Activation, t: Table)
    requires Counting(x, t)
    requires y.next == x.next && y.issued == x.issued && y.read == x.read && y.tables == x.tables
    requires y.phase.Failed? || (!x.phase.Reading? && !x.phase.Failed? && !y.phase.Reading?)
    ensures Counting(y, t)
  {
    hide Ascending;
  }

  lemma ReadCounts(x: Activation, refs: map<Table, int>, u: Table, t: Table)
    requires Counting(x, t) && x.phase.Reading?
    ensures Counting(ReadOne(x, refs, u), t)
  {
  }

  lemma AllocateCounts(x: Activation, u: Table, t: Table)
    requires Counting(x, t) && x.phase.Evaluating? && u in x.next && u in x.issued
    ensures Counting(AllocateId(x, u), t)
  {
  }

  lemma ObserveCounts(x: Activation, u: Table, id: int, t: Table)
    requires Counting(x, t) && x.phase.Evaluating? && u in x.next
    ensures Counting(ObserveId(x, u, id), t)
  {
  }

  lemma EvaluationCounts(x: Activation, t: Table)
    ensures Counting(BeginEvaluation(x), t)
  {
  }

  lemma MovedReadBelow(
      refs0: map<Table, int>, refs: map<Table, int>, step: Step, x: Activation, y: Activation, t: Table)
    requires Natural(refs) && RefsGrow(refs0, refs)
    requires Counting(x, t) && ReadBelow(refs0, refs, x, t) && Moved(refs, step, x) == Some(y)
    ensures ReadBelow(refs0, refs, y, t)
  {
    hide Counting, ReadBelow, Moved;
    MovedShape(refs, step, x, y);
    if step.Read? {
      ReadingBelow(refs0, refs, x, step.table, t);
    } else {
      assert t in y.next ==> t in x.next || (x.phase.Reading? && t in x.done);
      LaterBelow(refs0, refs, x, y, t);
    }
  }

  lemma ReadingBelow(refs0: map<Table, int>, refs: map<Table, int>, x: Activation, u: Table, t: Table)
    requires Natural(refs) && RefsGrow(refs0, refs) && x.phase.Reading? && u !in x.done
    requires Counting(x, t) && ReadBelow(refs0, refs, x, t)
    ensures ReadBelow(refs0, refs, ReadOne(x, refs, u), t)
  {
    hide Ascending;
  }

  /** Nothing is read after the evaluation began, and no table gains a counter. */
  lemma LaterBelow(refs0: map<Table, int>, refs: map<Table, int>, x: Activation, y: Activation, t: Table)
    requires ReadBelow(refs0, refs, x, t) && y.read == x.read && !y.phase.Reading?
    requires t in y.next ==> t in x.next || (x.phase.Reading? && t in x.done)
    ensures ReadBelow(refs0, refs, y, t)
  {
  }

  lemma MovedReserved(refs: map<Table, int>, step: Step, x: Activation, y: Activation, t: Table)
    requires Counting(x, t) && Reserved(refs, x, t) && Moved(refs, step, x) == Some(y)
    ensures Reserved(refs, y, t)
    ensures !step.Recheck? ==> y.held == x.held
    ensures !step.Recheck? && t in x.held ==> Base(x, t) == Base(y, t) && High(x, t) == High(y, t)
  {
    hide Ascending;
    if x.phase.Reading? || x.phase.Evaluating? { EarlyReserved(refs, step, x, y, t); }
    else { LateReserved(refs, step, x, y, t); }
  }

  lemma EarlyReserved(refs: map<Table, int>, step: Step, x: Activation, y: Activation, t: Table)
    requires Reserved(refs, x, t) && Moved(refs, step, x) == Some(y) && (x.phase.Reading? || x.phase.Evaluating?)
    ensures Reserved(refs, y, t) && y.held == x.held && t !in x.held
  {
    hide NeedsReservation;
    assert t !in x.held;
    hide Reserved;
    EarlyPhases(refs, step, x, y);
    NothingReserved(refs, y, t);
  }

  lemma EarlyPhases(refs: map<Table, int>, step: Step, x: Activation, y: Activation)
    requires Moved(refs, step, x) == Some(y) && (x.phase.Reading? || x.phase.Evaluating?)
    ensures y.held == x.held
    ensures y.phase.Reading? || y.phase.Evaluating? || y.phase.Failed? || (y.phase.Reserving? && y.done == {})
  {
    hide NeedsReservation, Find, High;
  }

  lemma NothingReserved(refs: map<Table, int>, y: Activation, t: Table)
    requires t !in y.held
    requires y.phase.Reading? || y.phase.Evaluating? || y.phase.Failed? || (y.phase.Reserving? && y.done == {})
    ensures Reserved(refs, y, t)
  {
    hide NeedsReservation;
  }

  lemma LateReserved(refs: map<Table, int>, step: Step, x: Activation, y: Activation, t: Table)
    requires Counting(x, t) && Reserved(refs, x, t) && Moved(refs, step, x) == Some(y)
    requires !x.phase.Reading? && !x.phase.Evaluating?
    ensures Reserved(refs, y, t)
    ensures !step.Recheck? ==> y.held == x.held
    ensures y.read == x.read && y.next == x.next
  {
    hide Counting, Reserved;
    if step.Recheck? && y != Fail(x) { SettleReserved(refs, x, x.phase.table, SameWatermark, t); }
    else if step.Reserve? && y != Fail(x) { LoopReserved(refs, x, step.table, t); }
    else if y == Fail(x) { FailReserved(refs, x, t); }
    else { PhaseReserved(refs, x, y, t); }
  }

  lemma SettleReserved(refs: map<Table, int>, x: Activation, u: Table, hold: Hold, t: Table)
    requires Counting(x, t) && Reserved(refs, x, t)
    requires x.phase == Swapping(u) || x.phase == Rechecking(u)
    requires u in refs && refs[u] >= High(x, u)
    ensures Reserved(refs, Settle(x, u, hold), t)
  {
    hide Ascending;
    var y := Settle(x, u, hold);
    assert NeedsReservation(y, t) == NeedsReservation(x, t);
  }

  lemma LoopReserved(refs: map<Table, int>, x: Activation, u: Table, t: Table)
    requires Reserved(refs, x, t) && x.phase.Reserving? && u in x.tables && u !in x.done
    ensures !NeedsReservation(x, u) ==> Reserved(refs, x.(done := x.done + {u}), t)
    ensures NeedsReservation(x, u) ==> Reserved(refs, x.(phase := Swapping(u)), t)
  {
    assert forall y: Activation | y.read == x.read && y.next == x.next ::
      NeedsReservation(y, t) == NeedsReservation(x, t);
  }

  lemma FailReserved(refs: map<Table, int>, x: Activation, t: Table)
    requires Reserved(refs, x, t)
    ensures Reserved(refs, Fail(x), t)
  {
    hide NeedsReservation;
  }

  lemma PhaseReserved(refs: map<Table, int>, x: Activation, y: Activation, t: Table)
    requires Reserved(refs, x, t) && y == x.(phase := y.phase)
    requires (x.phase.Swapping? && y.phase == Rechecking(x.phase.table))
        || (x.phase.Reserving? && x.tables <= x.done && y.phase.Passed?)
    ensures Reserved(refs, y, t)
  {
    assert NeedsReservation(y, t) == NeedsReservation(x, t);
  }

  lemma MovedKeeps(refs0: map<Table, int>, refs: map<Table, int>, step: Step, x: Activation, y: Activation, t: Table)
    requires Natural(refs) && RefsGrow(refs0, refs)
    requires TableInv(refs0, refs, x, t) && Moved(refs, step, x) == Some(y)
    ensures TableInv(refs0, refs, y, t)
    ensures !step.Recheck? ==> y.held == x.held
    ensures !step.Recheck? && t in x.held ==> Base(x, t) == Base(y, t) && High(x, t) == High(y, t)
  {
    hide Moved, Counting, ReadBelow, Reserved;
    MovedCounting(refs, step, x, y, t);
    MovedReadBelow(refs0, refs, step, x, y, t);
    MovedReserved(refs, step, x, y, t);
  }

  lemma QuietStep(refs0: map<Table, int>, s: State, step: Step, s': State)
    requires Inv(refs0, s) && Apply(s, step) == Some(s') && !step.Swap?
    ensures ActivationInv(refs0, s'.refs, s'.activations[step.a])
    ensures !step.Recheck? ==> Quiet(s, s', step.a)
  {
    hide AllApart, RefsWon, SharedWon, AllCovered, TableInv, Moved;
    if !step.Begin? {
      var x, y := s.activations[step.a], s'.activations[step.a];
      forall t ensures TableInv(refs0, s.refs, y, t) && (!step.Recheck? ==> y.held == x.held)
        && (!step.Recheck? && t in x.held ==> Base(x, t) == Base(y, t) && High(x, t) == High(y, t))
      {
        assert TableInv(refs0, s.refs, x, t);
        MovedKeeps(refs0, s.refs, step, x, y, t);
      }
    } else {
      NewcomerHolds(refs0, s.refs, step.tables);
    }
  }

  lemma NewcomerHolds(refs0: map<Table, int>, refs: map<Table, int>, tables: set<Table>)
    ensures ActivationInv(refs0, refs, Activation(Reading, tables, {}, map[], map[], map[], false, map[]))
  {
  }

  lemma SwapKeeps(refs0: map<Table, int>, s: State, step: Step, s': State)
    requires Inv(refs0, s) && Apply(s, step) == Some(s') && step.Swap?
    ensures Inv(refs0, s') && RefsGrow(s.refs, s'.refs)
  {
    var a := step.a;
    var x := s.activations[a];
    var t := x.phase.table;
    assert TableInv(refs0, s.refs, x, t);
    hide AllApart, RefsWon, SharedWon, AllCovered, ActivationInv;
    AdvanceKeeps(refs0, s, s', a, t);
    forall b | b in s'.activations ensures ActivationInv(refs0, s'.refs, s'.activations[b]) {
      ReadKept(refs0, s.refs, s'.refs, s.activations[b]);
      if b == a { SettledHolds(refs0, s'.refs, x, t, s'.activations[a]); }
    }
  }

  lemma SettledHolds(refs0: map<Table, int>, refs: map<Table, int>, x: Activation, t: Table, y: Activation)
    requires ActivationInv(refs0, refs, x) && x.phase == Swapping(t) && t in refs && refs[t] >= High(x, t)
    requires y == Settle(x, t, Advanced) || y == Fail(Settle(x, t, Advanced))
    ensures ActivationInv(refs0, refs, y)
  {
    forall u ensures TableInv(refs0, refs, y, u) {
      assert TableInv(refs0, refs, x, u);
      assert TableInv(refs0, refs, x, t);
    }
  }

  lemma StepKeeps(refs0: map<Table, int>, s: State, step: Step, s': State)
    requires Inv(refs0, s) && Apply(s, step) == Some(s')
    ensures Inv(refs0, s') && RefsGrow(s.refs, s'.refs)
  {
    hide AllApart, RefsWon, SharedWon, AllCovered, TableInv;
    if step.Swap? { SwapKeeps(refs0, s, step, s'); return; }
    var a := step.a;
    QuietStep(refs0, s, step, s');
    if step.Recheck? { RecheckKeeps(refs0, s, step, s'); }
    else { QuietKeeps(refs0, s, s', a); }
  }

  lemma RecheckKeeps(refs0: map<Table, int>, s: State, step: Step, s': State)
    requires Inv(refs0, s) && Apply(s, step) == Some(s') && step.Recheck?
    ensures AllApart(s') && RefsWon(refs0, s') && SharedWon(s') && AllCovered(refs0, s')
  {
    hide Inv, AllApart, RefsWon, SharedWon, AllCovered, NeedsReservation, Apply;
    RecheckOutcome(s, step, s');
    RecheckFacts(refs0, s, step.a);
    var x := s.activations[step.a];
    var t := x.phase.table;
    if Find(s.refs, t) == Some(High(x, t)) {
      ShareKeeps(refs0, s, s', step.a, t);
    } else {
      QuietKeeps(refs0, s, s', step.a);
    }
  }

  lemma RecheckFacts(refs0: map<Table, int>, s: State, a: nat)
    requires Inv(refs0, s) && a in s.activations && s.activations[a].phase.Rechecking?
    ensures var x := s.activations[a];
      var t := x.phase.table;
      t !in x.held && NeedsReservation(x, t) && Level(refs0, t) <= Base(x, t)
  {
    hide AllApart, RefsWon, SharedWon, AllCovered;
    var x := s.activations[a];
    assert TableInv(refs0, s.refs, x, x.phase.table);
  }

  lemma RecheckOutcome(s: State, step: Step, s': State)
    requires Apply(s, step) == Some(s') && step.Recheck?
    ensures step.a in s.activations && s.activations[step.a].phase.Rechecking?
    ensures var x := s.activations[step.a];
      var t := x.phase.table;
      s' == Update(s, step.a,
                   if Find(s.refs, t) == Some(High(x, t)) then Settle(x, t, SameWatermark) else Fail(x))
  {
    hide Find, High;
  }

  lemma StartHolds(refs: map<Table, int>)
    requires Natural(refs)
    ensures Inv(refs, Start(refs))
  {
  }

  lemma {:induction false} RunKeeps(refs0: map<Table, int>, s: State, steps: seq<Step>, s': State)
    requires Inv(refs0, s) && Run(s, steps) == Some(s')
    ensures Inv(refs0, s') && RefsGrow(s.refs, s'.refs)
    decreases |steps|
  {
    hide Inv, Apply;
    if steps != [] {
      var mid := Run(s, steps[..|steps| - 1]).value;
      RunKeeps(refs0, s, steps[..|steps| - 1], mid);
      StepKeeps(refs0, mid, steps[|steps| - 1], s');
    }
  }

  lemma ReachableKeeps(refs0: map<Table, int>, s: State)
    requires Natural(refs0) && Reachable(refs0, s)
    ensures Inv(refs0, s)
  {
    hide Inv;
    var steps :| Run(Start(refs0), steps) == Some(s);
    StartHolds(refs0);
    RunKeeps(refs0, Start(refs0), steps, s);
  }

  // ---- The promises, over every interleaving ----

  /** Between any two moments of a run no watermark decreases or disappears. */
  lemma WatermarksNeverDecrease(refs0: map<Table, int>, s: State, steps: seq<Step>, s': State, t: Table)
    requires Natural(refs0) && Reachable(refs0, s) && Run(s, steps) == Some(s')
    ensures t in s.refs ==> t in s'.refs
    ensures Level(s.refs, t) <= Level(s'.refs, t)
  {
    hide Run, Reachable;
    ReachableKeeps(refs0, s);
    RunKeeps(refs0, s, steps, s');
  }

  /**
   * Whatever the evaluation's outcome, an activation that got past reservation reserved every table
   * it took an ID from, its IDs are ascending and lie in its range, below the watermark.
   */
  lemma PassedHasReserved(refs0: map<Table, int>, s: State, a: nat, t: Table)
    requires Natural(refs0) && Reachable(refs0, s) && a in s.activations && s.activations[a].phase == Passed
    requires t in s.activations[a].issued && s.activations[a].issued[t] != []
    ensures Held(s, a, t) && High(s.activations[a], t) <= Level(s.refs, t)
    ensures Ascending(s.activations[a].issued[t], Base(s.activations[a], t), High(s.activations[a], t))
  {
    hide Reachable;
    ReachableKeeps(refs0, s);
    var x := s.activations[a];
    assert TableInv(refs0, s.refs, x, t);
    assert x.issued[t][0] <= High(x, t);
  }

  /** An activation whose counter has passed an ID: what it handed out since lies above. */
  ghost predicate Beyond(x: Activation, t: Table, id: int, before: seq<int>) {
    && !x.phase.Reading? && t in x.next && x.next[t] > id && t in x.issued && before <= x.issued[t]
    && forall i | |before| <= i < |x.issued[t]| :: x.issued[t][i] > id
  }

  lemma BeyondStep(s: State, step: Step, s': State, a: nat, t: Table, id: int, before: seq<int>)
    requires Apply(s, step) == Some(s') && a in s.activations && Beyond(s.activations[a], t, id, before)
    ensures a in s'.activations && Beyond(s'.activations[a], t, id, before)
  {
    if step.a == a && step.Allocate? && step.table == t {
      var x := s.activations[a];
      assert s'.activations[a].issued[t] == x.issued[t] + [x.next[t]];
    }
  }

  lemma {:induction false} BeyondRun(s: State, steps: seq<Step>, s': State, a: nat, t: Table, id: int, before: seq<int>)
    requires Run(s, steps) == Some(s') && a in s.activations && Beyond(s.activations[a], t, id, before)
    ensures a in s'.activations && Beyond(s'.activations[a], t, id, before)
    decreases |steps|
  {
    hide Apply, Beyond;
    if steps != [] {
      var mid := Run(s, steps[..|steps| - 1]).value;
      BeyondRun(s, steps[..|steps| - 1], mid, a, t, id, before);
      BeyondStep(mid, steps[|steps| - 1], s', a, t, id, before);
    }
  }

  /**
   * An ID an activation observed is never handed out by it afterwards, whatever else runs; and once the
   * activation is past reservation the watermark is no lower, so no later activation hands it out either.
   */
  lemma ObservedIsPassed(
      refs0: map<Table, int>, s: State, a: nat, t: Table, id: int, seen: State, steps: seq<Step>, s': State)
    requires Natural(refs0) && Reachable(refs0, s)
    requires Apply(s, Observe(a, t, id)) == Some(seen) && Run(seen, steps) == Some(s')
    ensures a in s.activations && t in s.activations[a].issued
    ensures a in s'.activations && t in s'.activations[a].issued
    ensures s.activations[a].issued[t] <= s'.activations[a].issued[t]
    ensures forall i | |s.activations[a].issued[t]| <= i < |s'.activations[a].issued[t]| ::
              s'.activations[a].issued[t][i] > id
    ensures s'.activations[a].phase == Passed ==> Level(s'.refs, t) >= id
  {
    hide Reachable, Run;
    ReachableKeeps(refs0, s);
    assert TableInv(refs0, s.refs, s.activations[a], t);
    var before := s.activations[a].issued[t];
    BeyondRun(seen, steps, s', a, t, id, before);
    StepKeeps(refs0, s, Observe(a, t, id), seen);
    RunKeeps(refs0, seen, steps, s');
    assert TableInv(refs0, s'.refs, s'.activations[a], t);
  }

  /** Two reservations that moved the ref share no ID. */
  lemma AdvancedApart(refs0: map<Table, int>, s: State, a: nat, b: nat, t: Table)
    requires Natural(refs0) && Reachable(refs0, s) && a != b
    requires Holds(s, a, t, Advanced) && Holds(s, b, t, Advanced)
    ensures Apart(s.activations[a], s.activations[b], t)
  {
    hide Reachable;
    ReachableKeeps(refs0, s);
  }

  /**
   * The reserved ranges of a table are disjoint exactly when no reservation of it was accepted
   * because the ref already named the same watermark.
   */
  lemma DisjointExactly(refs0: map<Table, int>, s: State, t: Table)
    requires Natural(refs0) && Reachable(refs0, s)
    ensures RangesDisjoint(s, t) <==> forall a :: !Holds(s, a, t, SameWatermark)
  {
    hide Reachable;
    ReachableKeeps(refs0, s);
    hide ActivationInv;
    if a :| Holds(s, a, t, SameWatermark) {
      var high := High(s.activations[a], t);
      assert HasWinner(s, t, high);
      var b :| Winner(s, b, t, high);
      HeldBelow(refs0, s, a, t);
      HeldBelow(refs0, s, b, t);
      assert InRange(s.activations[a], t, high) && InRange(s.activations[b], t, high);
      assert Overlap(s, a, b, t);
    } else {
      forall a, b | a != b && Held(s, a, t) && Held(s, b, t) ensures !Overlap(s, a, b, t) {
        assert !Holds(s, a, t, SameWatermark) && !Holds(s, b, t, SameWatermark);
        AdvancedApart(refs0, s, a, b, t);
      }
    }
  }

  /** Every ID between the first and the present watermark was reserved by one ref movement only. */
  lemma ReservedOnce(refs0: map<Table, int>, s: State, t: Table, id: int)
    requires Natural(refs0) && Reachable(refs0, s)
    ensures Level(refs0, t) < id <= Level(s.refs, t) <==> Covered(s, t, id)
    ensures forall a, b | Covers(s, a, t, id) && Covers(s, b, t, id) :: a == b
  {
    hide Reachable;
    ReachableKeeps(refs0, s);
    hide ActivationInv;
    if a :| Covers(s, a, t, id) { HeldBelow(refs0, s, a, t); }
    forall a, b | Covers(s, a, t, id) && Covers(s, b, t, id) ensures a == b {
      if a != b { AdvancedApart(refs0, s, a, b, t); }
    }
  }

  /** An ID two activations both handed out after passing reservation. */
  predicate IssuedTwice(s: State, a: nat, b: nat, t: Table, id: int) {
    && a != b && a in s.activations && b in s.activations
    && s.activations[a].phase == Passed && s.activations[b].phase == Passed
    && t in s.activations[a].issued && id in s.activations[a].issued[t]
    && t in s.activations[b].issued && id in s.activations[b].issued[t]
  }

  /** Uniqueness, and the only way it can fail. */
  lemma IssuedTwiceOnlyByFallback(refs0: map<Table, int>, s: State, a: nat, b: nat, t: Table, id: int)
    requires Natural(refs0) && Reachable(refs0, s) && IssuedTwice(s, a, b, t, id)
    ensures Holds(s, a, t, SameWatermark) || Holds(s, b, t, SameWatermark)
  {
    hide Reachable;
    PassedHasReserved(refs0, s, a, t);
    PassedHasReserved(refs0, s, b, t);
    if Holds(s, a, t, Advanced) && Holds(s, b, t, Advanced) {
      AdvancedApart(refs0, s, a, b, t);
    }
  }

  /** The activation passed, and the highest ID it reserved is one it handed out rather than observed. */
  predicate DrewHigh(x: Activation, t: Table) {
    x.phase == Passed && t in x.issued && High(x, t) in x.issued[t]
  }

  ghost predicate SomeTwice(s: State, t: Table) {
    exists a, b, id :: IssuedTwice(s, a, b, t, id)
  }

  /**
   * When every activation that holds a table passed and drew its own high water, some ID of the
   * table was handed out twice exactly when the fallback was taken for it.
   */
  lemma IssuedTwiceExactly(refs0: map<Table, int>, s: State, t: Table)
    requires Natural(refs0) && Reachable(refs0, s)
    requires forall a | Held(s, a, t) :: DrewHigh(s.activations[a], t)
    ensures SomeTwice(s, t) <==> exists a :: Holds(s, a, t, SameWatermark)
  {
    hide Reachable;
    if a, b, id :| IssuedTwice(s, a, b, t, id) {
      IssuedTwiceOnlyByFallback(refs0, s, a, b, t, id);
    }
    if a :| Holds(s, a, t, SameWatermark) {
      ReachableKeeps(refs0, s);
      hide ActivationInv;
      var high := High(s.activations[a], t);
      assert HasWinner(s, t, high);
      var b :| Winner(s, b, t, high);
      assert Held(s, a, t) && Held(s, b, t);
      assert IssuedTwice(s, a, b, t, high);
    }
  }

  lemma {:induction false} AscendingAtLeast(ids: seq<int>, low: int, high: int, i: nat)
    requires Ascending(ids, low, high) && i < |ids|
    ensures ids[i] >= low + 1 + i
  {
    if i > 0 { AscendingAtLeast(ids, low, high, i - 1); }
  }

  /** An activation that handed out as many IDs as it reserved drew its high water. */
  lemma WholeRangeDrawsHigh(refs0: map<Table, int>, s: State, a: nat, t: Table)
    requires Natural(refs0) && Reachable(refs0, s) && Held(s, a, t) && s.activations[a].phase == Passed
    requires t in s.activations[a].issued
    requires |s.activations[a].issued[t]| == High(s.activations[a], t) - Base(s.activations[a], t)
    ensures DrewHigh(s.activations[a], t)
  {
    hide Reachable;
    ReachableKeeps(refs0, s);
    HeldBelow(refs0, s, a, t);
    PassedHasReserved(refs0, s, a, t);
    var x := s.activations[a];
    var n := |x.issued[t]| - 1;
    AscendingAtLeast(x.issued[t], Base(x, t), High(x, t), n);
    assert x.issued[t][n] == High(x, t);
  }

  // ---- Runs through the fallback ----

  lemma Extend(refs0: map<Table, int>, s: State, step: Step, s': State)
    requires Reachable(refs0, s) && Apply(s, step) == Some(s')
    ensures Reachable(refs0, s')
  {
    var steps :| Run(Start(refs0), steps) == Some(s);
    assert (steps + [step])[..|steps|] == steps;
    assert Run(Start(refs0), steps + [step]) == Some(s');
  }

  /** How a racer reached ID 1: by handing it out, or by observing it. */
  function Drawn(allocates: bool): seq<int> { if allocates then [1] else [] }

  /** The race: both have read no watermark, and 1 is the high water of both. */
  function Racer(t: Table, phase: Phase, allocates: bool): Activation {
    Activation(phase, {t}, {}, map[], map[t := 2], map[t := Drawn(allocates)], true, map[])
  }

  lemma Prepare(s: State, a: nat, t: Table, allocates: bool)
    requires Reachable(map[], s) && a !in s.activations && t !in s.refs
    ensures Reachable(map[], Update(s, a, Racer(t, Reserving, allocates)))
  {
    hide Reachable, Run;
    var x0 := Activation(Reading, {t}, {}, map[], map[], map[], false, map[]);
    Extend(map[], s, Begin(a, {t}), Update(s, a, x0));
    PrepareReads(s, Update(s, a, x0), a, t, x0, allocates);
  }

  /** From the first read to the end of the evaluation. */
  lemma PrepareReads(s: State, s0: State, a: nat, t: Table, x0: Activation, allocates: bool)
    requires x0 == Activation(Reading, {t}, {}, map[], map[], map[], false, map[])
    requires s0 == Update(s, a, x0) && Reachable(map[], s0) && t !in s.refs
    ensures Reachable(map[], Update(s, a, Racer(t, Reserving, allocates)))
  {
    hide Reachable, Run;
    var x1 := ReadOne(x0, s.refs, t);
    Advances(s, a, x0, Read(a, t), x1);
    var x2 := BeginEvaluation(x1);
    Advances(s, a, x1, Evaluate(a), x2);
    assert x2.next == map[t := 1] && x2.issued == map[t := []];
    var step := if allocates then Allocate(a, t) else Observe(a, t, 1);
    var x3 := if allocates then AllocateId(x2, t) else ObserveId(x2, t, 1);
    Advances(s, a, x2, step, x3);
    assert x3.issued[t] == Drawn(allocates);
    assert x3.next == map[t := 2] && x3.issued == map[t := Drawn(allocates)];
    assert Racer(t, Reserving, allocates) == x3.(phase := Reserving, done := {}, succeeded := true);
    Advances(s, a, x3, Finish(a, true), Racer(t, Reserving, allocates));
  }

  /** A step that changes one activation, as a step of the whole. */
  lemma Advances(s: State, a: nat, x: Activation, step: Step, y: Activation)
    requires Reachable(map[], Update(s, a, x)) && step.a == a && !step.Begin? && !step.Swap?
    requires Moved(s.refs, step, x) == Some(y)
    ensures Reachable(map[], Update(s, a, y))
  {
    hide Reachable, Run, Moved;
    assert Update(Update(s, a, x), a, y) == Update(s, a, y);
    Extend(map[], Update(s, a, x), step, Update(s, a, y));
  }

  /** Both racers are about to update the ref. */
  function Armed(t: Table, allocates: bool): State {
    State(map[], map[0 := Racer(t, Swapping(t), allocates), 1 := Racer(t, Swapping(t), allocates)])
  }

  /** The first has moved it and passed. */
  function FirstPassed(t: Table, allocates: bool): State {
    var winner := Settle(Racer(t, Swapping(t), allocates), t, Advanced);
    State(map[t := 1], map[0 := winner.(phase := Passed), 1 := Racer(t, Swapping(t), allocates)])
  }

  /** The second lost the update, found its own watermark and passed too. */
  function BothPassed(t: Table, allocates: bool): State {
    var loser := Settle(Racer(t, Rechecking(t), allocates), t, SameWatermark);
    Update(FirstPassed(t, allocates), 1, loser.(phase := Passed))
  }

  lemma BothArmed(t: Table, allocates: bool)
    ensures Reachable(map[], Armed(t, allocates))
  {
    hide Reachable, Run;
    var s := Start(map[]);
    var ready, armed := Racer(t, Reserving, allocates), Racer(t, Swapping(t), allocates);
    StartReachable();
    Prepare(s, 0, t, allocates);
    Prepare(Update(s, 0, ready), 1, t, allocates);
    Advances(Update(s, 0, ready), 1, ready, Reserve(1, t), armed);
    var both := Update(Update(s, 0, ready), 1, armed);
    assert both == Update(both, 0, ready);
    Advances(both, 0, ready, Reserve(0, t), armed);
    assert Update(both, 0, armed) == Armed(t, allocates);
  }

  lemma FirstPasses(t: Table, allocates: bool)
    ensures Reachable(map[], FirstPassed(t, allocates))
  {
    hide Reachable, Run;
    BothArmed(t, allocates);
    var winner := Settle(Racer(t, Swapping(t), allocates), t, Advanced);
    var won := Update(Armed(t, allocates).(refs := map[t := 1]), 0, winner);
    Extend(map[], Armed(t, allocates), Swap(0, true), won);
    assert won == Update(won, 0, winner);
    Advances(won, 0, winner, Complete(0), winner.(phase := Passed));
    assert Update(won, 0, winner.(phase := Passed)) == FirstPassed(t, allocates);
  }

  lemma SecondPasses(t: Table, allocates: bool)
    ensures Reachable(map[], BothPassed(t, allocates))
  {
    hide Reachable, Run;
    FirstPasses(t, allocates);
    var s := FirstPassed(t, allocates);
    var swapping, rechecking := Racer(t, Swapping(t), allocates), Racer(t, Rechecking(t), allocates);
    assert s == Update(s, 1, swapping);
    Advances(s, 1, swapping, Lose(1), rechecking);
    var loser := Settle(rechecking, t, SameWatermark);
    Advances(s, 1, rechecking, Recheck(1), loser);
    Advances(s, 1, loser, Complete(1), loser.(phase := Passed));
  }

  /**
   * Uniqueness is false of the fallback: two activations race for a new table, the second loses
   * the update, finds its own watermark there and passes; both have handed out ID 1.
   */
  lemma FallbackIssuesTwice(t: Table)
    ensures exists s :: Reachable(map[], s) && IssuedTwice(s, 0, 1, t, 1)
  {
    hide Reachable, Run;
    SecondPasses(t, true);
    assert IssuedTwice(BothPassed(t, true), 0, 1, t, 1);
  }

  /** The fallback was taken, everybody who holds the table passed, and yet no ID was handed out twice. */
  ghost predicate HarmlessFallback(s: State, t: Table) {
    && (exists a :: Holds(s, a, t, SameWatermark))
    && (forall a | Held(s, a, t) :: s.activations[a].phase == Passed)
    && !SomeTwice(s, t)
  }

  /**
   * The fallback alone does not decide: the same race between two activations that only observed
   * ID 1 ends with both passed and no ID handed out twice.
   */
  lemma FallbackMayIssueNothing(t: Table)
    ensures exists s :: Reachable(map[], s) && HarmlessFallback(s, t)
  {
    hide Reachable, Run;
    SecondPasses(t, false);
    var s := BothPassed(t, false);
    assert Holds(s, 1, t, SameWatermark);
    assert forall a | a in s.activations && t in s.activations[a].issued :: s.activations[a].issued[t] == [];
  }

  lemma StartReachable()
    ensures Reachable(map[], Start(map[]))
  {
    assert Run(Start(map[]), []) == Some(Start(map[]));
  }
}
