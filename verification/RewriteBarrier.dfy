/**
 * Many clients, one rewriter, one writer task. Every successfully executed
 * mutation gets a number, and the protocol is followed lock step by lock step:
 * who holds the barrier, whose frame is in hand, what is in the channel, and what
 * file and buffer hold.
 */
module RewriteBarrier {

  type Client = nat

  /** A mutating client: waiting for the barrier, inside it, or past it with a frame still to log. */
  datatype Phase =
    | Idle
    | Reading
    | Ran(id: nat)
    | RanInVain
    | InHand(id: nat)

  /** The rewriter, from the write guard to the writer's reply. */
  datatype Rewriter =
    | Off
    | Holding
    | Snapped(ids: set<nat>)
    | Sent(ids: set<nat>)
    | Replied

  datatype Item = Rec(id: nat) | SwapTo(ids: set<nat>)

  /**
   * `base` is what the installed snapshot contains, `tail` the records in file
   * and buffer after it, `executed` the number of mutations so far.
   */
  datatype State = State(
    clients: map<Client, Phase>,
    rewriter: Rewriter,
    channel: seq<Item>,
    base: set<nat>,
    tail: seq<nat>,
    executed: nat)

  datatype Step =
    | Acquire(c: Client)
    | Execute(c: Client, succeeds: bool)
    | Release(c: Client)
    | Log(c: Client)
    | LockWrite
    | TakeSnapshot
    | SendSwap
    | WriterHandles
    | UnlockWrite

  ghost predicate Init(s: State) {
    && (forall c :: c in s.clients ==> s.clients[c].Idle?)
    && s.rewriter.Off? && s.channel == [] && s.base == {} && s.tail == [] && s.executed == 0
  }

  predicate HoldsRead(p: Phase) {
    p.Reading? || p.Ran? || p.RanInVain?
  }

  function AllBelow(n: nat): (r: set<nat>)
    ensures forall i: nat :: i in r <==> i < n
  {
    if n == 0 then {} else AllBelow(n - 1) + {n - 1}
  }

  ghost predicate Next(s: State, step: Step, s': State) {
    match step
    case Acquire(c) =>
      && c in s.clients && s.clients[c].Idle? && s.rewriter.Off?
      && s' == s.(clients := s.clients[c := Reading])
    case Execute(c, ok) =>
      && c in s.clients && s.clients[c].Reading?
      && s' == if ok then s.(clients := s.clients[c := Ran(s.executed)], executed := s.executed + 1)
               else s.(clients := s.clients[c := RanInVain])
    case Release(c) =>
      && c in s.clients && (s.clients[c].Ran? || s.clients[c].RanInVain?)
      && s' == s.(clients := s.clients[c := if s.clients[c].Ran? then InHand(s.clients[c].id) else Idle])
    case Log(c) =>
      && c in s.clients && s.clients[c].InHand?
      && s' == s.(clients := s.clients[c := Idle], channel := s.channel + [Rec(s.clients[c].id)])
    case LockWrite =>
      && s.rewriter.Off? && (forall c :: c in s.clients ==> !HoldsRead(s.clients[c]))
      && s' == s.(rewriter := Holding)
    case TakeSnapshot =>
      && s.rewriter.Holding?
      && s' == s.(rewriter := Snapped(AllBelow(s.executed)))
    case SendSwap =>
      && s.rewriter.Snapped?
      && s' == s.(rewriter := Sent(s.rewriter.ids), channel := s.channel + [SwapTo(s.rewriter.ids)])
    case WriterHandles =>
      && s.channel != []
      && s' == (match s.channel[0]
                case Rec(id) => s.(channel := s.channel[1..], tail := s.tail + [id])
                case SwapTo(ids) => s.(channel := s.channel[1..], base := ids, tail := [], rewriter := Replied))
    case UnlockWrite =>
      && s.rewriter.Replied?
      && s' == s.(rewriter := Off)
  }

  ghost predicate IsRun(states: seq<State>, steps: seq<Step>) {
    && |states| == |steps| + 1 && Init(states[0])
    && forall i :: 0 <= i < |steps| ==> Next(states[i], steps[i], states[i + 1])
  }

  // ------------------------------------------------------- the invariant

  /** Executed by this client and not yet handed to the channel. */
  predicate Carries(s: State, c: Client, id: nat) {
    c in s.clients && (s.clients[c] == Ran(id) || s.clients[c] == InHand(id))
  }

  ghost predicate Carried(s: State, id: nat) {
    exists c :: Carries(s, c, id)
  }

  /** In the installed snapshot, on file or in the buffer, in the channel, or in a client's hand. */
  ghost predicate Covered(s: State, id: nat) {
    id in s.base || id in s.tail || Rec(id) in s.channel || Carried(s, id)
  }

  /** From the write guard to the reply no client is inside the barrier. */
  ghost predicate Guarded(s: State) {
    !s.rewriter.Off? ==> forall c :: c in s.clients ==> !HoldsRead(s.clients[c])
  }

  /** A snapshot not yet installed holds every mutation there is; a swap is queued only while its sender waits. */
  ghost predicate SnapshotComplete(s: State) {
    && (s.rewriter.Snapped? || s.rewriter.Sent? ==> s.rewriter.ids == AllBelow(s.executed))
    && (forall i :: 0 <= i < |s.channel| && s.channel[i].SwapTo? ==>
          s.rewriter.Sent? && s.channel[i].ids == s.rewriter.ids)
    && (forall i, j :: 0 <= i < j < |s.channel| ==> !(s.channel[i].SwapTo? && s.channel[j].SwapTo?))
  }

  ghost predicate NothingLost(s: State) {
    forall id :: 0 <= id < s.executed ==> Covered(s, id)
  }

  ghost predicate Inv(s: State) {
    Guarded(s) && SnapshotComplete(s) && NothingLost(s)
  }

  lemma StaysCovered(s: State, step: Step, s': State, id: nat)
    requires Inv(s) && Next(s, step, s') && id < s'.executed
    ensures Covered(s', id)
  {
    if id == s.executed {
      assert Carries(s', step.c, id);
    } else {
      assert Covered(s, id);
      if Carried(s, id) {
        var c :| Carries(s, c, id);
        if step == Log(c) {
          assert s'.channel[|s.channel|] == Rec(id);
        } else {
          assert Carries(s', c, id);
        }
      } else if Rec(id) in s.channel {
        var i :| 0 <= i < |s.channel| && s.channel[i] == Rec(id);
        if step.WriterHandles? {
          if i == 0 {
            assert s'.tail[|s.tail|] == id;
          } else {
            assert s'.channel[i - 1] == Rec(id);
          }
        } else {
          assert s'.channel[i] == Rec(id);
        }
      } else if step.WriterHandles? && s.channel[0].Rec? && id in s.tail {
        var i :| 0 <= i < |s.tail| && s.tail[i] == id;
        assert s'.tail[i] == id;
      }
    }
  }

  lemma GuardStays(s: State, step: Step, s': State)
    requires Inv(s) && Next(s, step, s')
    ensures Guarded(s') && SnapshotComplete(s')
  {
    if step.WriterHandles? {
      assert forall i :: 0 <= i < |s'.channel| ==> s'.channel[i] == s.channel[i + 1];
    } else {
      assert forall i :: 0 <= i < |s.channel| ==> s'.channel[i] == s.channel[i];
    }
  }

  lemma InvStep(s: State, step: Step, s': State)
    requires Inv(s) && Next(s, step, s')
    ensures Inv(s')
  {
    GuardStays(s, step, s');
    forall id | 0 <= id < s'.executed
      ensures Covered(s', id)
    {
      StaysCovered(s, step, s', id);
    }
  }

  /**
   * No mutation is lost by a rewrite: in every state of every interleaving of
   * clients, rewriter and writer, each executed mutation is in the installed
   * snapshot, in file or buffer, in the channel, or in its client's hand.
   */
  lemma {:induction false} NeverLost(states: seq<State>, steps: seq<Step>, k: nat)
    requires IsRun(states, steps) && k < |states|
    ensures Inv(states[k])
    decreases k
  {
    hide Next, Inv;
    if k == 0 {
      assert Inv(states[0]) by { InitInv(states[0]); }
    } else {
      NeverLost(states, steps, k - 1);
      assert Next(states[k - 1], steps[k - 1], states[k - 1 + 1]);
      InvStep(states[k - 1], steps[k - 1], states[k]);
    }
  }

  lemma InitInv(s: State)
    requires Init(s)
    ensures Inv(s)
  {
  }

  /** Once no frame is in hand or in the channel, file and buffer hold everything. */
  lemma QuietMeansComplete(s: State)
    requires Inv(s) && s.channel == [] && forall c :: c in s.clients ==> !s.clients[c].Ran? && !s.clients[c].InHand?
    ensures forall id :: 0 <= id < s.executed ==> id in s.base || id in s.tail
  {
    forall id | 0 <= id < s.executed
      ensures id in s.base || id in s.tail
    {
      assert Covered(s, id);
    }
  }

  // ------------------------------------------------- once and only once?

  /** Where the log is heading: base and tail once the channel has been handled. */
  datatype Heading = Heading(base: set<nat>, tail: seq<nat>)

  function Handled(h: Heading, channel: seq<Item>): Heading
    decreases |channel|
  {
    if channel == [] then h
    else
      match channel[|channel| - 1]
      case Rec(id) => (var before := Handled(h, channel[..|channel| - 1]); before.(tail := before.tail + [id]))
      case SwapTo(ids) => Heading(ids, [])
  }

  function HeadingOf(s: State): Heading {
    Handled(Heading(s.base, s.tail), s.channel)
  }

  lemma {:induction false} HandledSplit(h: Heading, a: seq<Item>, b: seq<Item>)
    ensures Handled(h, a + b) == Handled(Handled(h, a), b)
    decreases |b|
  {
    if b == [] {
      assert a + b == a;
    } else {
      assert (a + b)[..|a + b| - 1] == a + b[..|b| - 1];
      HandledSplit(h, a, b[..|b| - 1]);
    }
  }

  /** No mutation will be replayed twice: base, tail and hands have nothing in common and repeat nothing. */
  ghost predicate Once(s: State) {
    var h := HeadingOf(s);
    && (forall i, j :: 0 <= i < j < |h.tail| ==> h.tail[i] != h.tail[j])
    && (forall i :: 0 <= i < |h.tail| ==> h.tail[i] !in h.base)
    && (forall c, id: nat :: Carries(s, c, id) ==> id !in h.base && id !in h.tail)
    && (forall c, d, id: nat :: Carries(s, c, id) && Carries(s, d, id) ==> c == d)
  }

  /** Numbers are given out in order. */
  ghost predicate Numbered(s: State) {
    var h := HeadingOf(s);
    && (forall id :: id in h.base ==> id < s.executed)
    && (forall i :: 0 <= i < |h.tail| ==> h.tail[i] < s.executed)
    && (forall c, id: nat :: Carries(s, c, id) ==> id < s.executed)
  }

  lemma HeadingStep(s: State, step: Step, s': State)
    requires Next(s, step, s')
    ensures HeadingOf(s') ==
            match step
            case Log(c) => (var h := HeadingOf(s); h.(tail := h.tail + [s.clients[c].id]))
            case SendSwap => Heading(s.rewriter.ids, [])
            case _ => HeadingOf(s)
  {
    match step
    case Log(c) => HandledSplit(Heading(s.base, s.tail), s.channel, [Rec(s.clients[c].id)]);
    case SendSwap => HandledSplit(Heading(s.base, s.tail), s.channel, [SwapTo(s.rewriter.ids)]);
    case WriterHandles =>
      assert s.channel == [s.channel[0]] + s.channel[1..];
      HandledSplit(Heading(s.base, s.tail), [s.channel[0]], s.channel[1..]);
    case _ =>
  }

  lemma NumberedStep(s: State, step: Step, s': State)
    requires Inv(s) && Numbered(s) && Next(s, step, s')
    ensures Numbered(s')
  {
    hide Handled;
    HeadingStep(s, step, s');
    if step.Log? {
      assert Carries(s, step.c, s.clients[step.c].id);
    }
    forall c, id: nat | Carries(s', c, id)
      ensures id < s'.executed
    {
      assert Carries(s, c, id) || id == s.executed;
    }
  }

  /**
   * Each mutation stays written once through every step but one; and the step
   * that queues the rewritten file keeps it so exactly when no client is between
   * executing and logging at that moment.
   */
  lemma OnceStep(s: State, step: Step, s': State)
    requires Inv(s) && Numbered(s) && Once(s) && Next(s, step, s')
    ensures !step.SendSwap? ==> Once(s')
    ensures step.SendSwap? ==> (Once(s') <==> forall c, id: nat :: !Carries(s, c, id))
  {
    hide Handled;
    HeadingStep(s, step, s');
    if step.SendSwap? {
      assert forall c, id: nat :: Carries(s', c, id) <==> Carries(s, c, id);
    } else if step.Execute? || step.Release? {
      forall c, id: nat | Carries(s', c, id)
        ensures Carries(s, c, id) || (c == step.c && id == s.executed)
      {
      }
    } else if step.Log? {
      var id := s.clients[step.c].id;
      assert Carries(s, step.c, id);
      assert forall d, i: nat :: Carries(s', d, i) ==> Carries(s, d, i) && d != step.c;
    } else {
      assert forall c, id: nat :: Carries(s', c, id) ==> Carries(s, c, id);
    }
  }

  ghost predicate CleanSwaps(states: seq<State>, steps: seq<Step>)
    requires |states| == |steps| + 1
  {
    forall i :: 0 <= i < |steps| && steps[i].SendSwap? ==> forall c, id: nat :: !Carries(states[i], c, id)
  }

  /** A run whose swaps are all sent while no frame is in hand writes every mutation exactly once. */
  lemma {:induction false} AlwaysOnce(states: seq<State>, steps: seq<Step>, k: nat)
    requires IsRun(states, steps) && CleanSwaps(states, steps) && k < |states|
    ensures Once(states[k]) && Numbered(states[k])
    decreases k
  {
    hide Next, Inv, Once, Numbered;
    if k == 0 {
      InitOnce(states[0]);
    } else {
      AlwaysOnce(states, steps, k - 1);
      NeverLost(states, steps, k - 1);
      assert Next(states[k - 1], steps[k - 1], states[k - 1 + 1]);
      OnceStep(states[k - 1], steps[k - 1], states[k]);
      NumberedStep(states[k - 1], steps[k - 1], states[k]);
    }
  }

  /** And a run does so throughout exactly when its swaps are clean. */
  lemma AlwaysOnceIff(states: seq<State>, steps: seq<Step>)
    requires IsRun(states, steps)
    ensures (forall k :: 0 <= k < |states| ==> Once(states[k])) <==> CleanSwaps(states, steps)
  {
    hide Inv, Once, Numbered;
    if CleanSwaps(states, steps) {
      forall k | 0 <= k < |states|
        ensures Once(states[k])
      {
        AlwaysOnce(states, steps, k);
      }
    }
    if forall k :: 0 <= k < |states| ==> Once(states[k]) {
      forall i | 0 <= i < |steps| && steps[i].SendSwap?
        ensures forall c, id: nat :: !Carries(states[i], c, id)
      {
        assert Next(states[i], steps[i], states[i + 1]) && Once(states[i]) && Once(states[i + 1]);
        NeverLost(states, steps, i);
        AlwaysNumbered(states, steps, i);
        OnceStep(states[i], steps[i], states[i + 1]);
      }
    }
  }

  lemma InitOnce(s: State)
    requires Init(s)
    ensures Once(s) && Numbered(s)
  {
  }

  // ------------------------------------------------ in execution order?

  /** A mutation is with one client at most. */
  ghost predicate OneCarrier(s: State) {
    forall c, d, id: nat :: Carries(s, c, id) && Carries(s, d, id) ==> c == d
  }

  /** The log follows execution, and can go on doing so: every frame in hand is later than all of it. */
  ghost predicate InOrder(s: State) {
    var h := HeadingOf(s);
    && (forall i, j :: 0 <= i < j < |h.tail| ==> h.tail[i] < h.tail[j])
    && (forall c, id: nat, i :: Carries(s, c, id) && 0 <= i < |h.tail| ==> h.tail[i] < id)
  }

  /** No client carries an earlier mutation than this one. */
  ghost predicate Earliest(s: State, c: Client)
    requires c in s.clients && s.clients[c].InHand?
  {
    forall d, id: nat :: Carries(s, d, id) ==> s.clients[c].id <= id
  }

  lemma OneCarrierStep(s: State, step: Step, s': State)
    requires Numbered(s) && OneCarrier(s) && Next(s, step, s')
    ensures OneCarrier(s')
  {
    hide Handled;
    forall c, id: nat | Carries(s', c, id)
      ensures Carries(s, c, id) || (step.Execute? && c == step.c && id == s.executed)
    {
    }
  }

  /**
   * Every step but logging keeps the log in execution order; and logging a frame
   * keeps it so exactly when no client carries an earlier mutation.
   */
  lemma InOrderStep(s: State, step: Step, s': State)
    requires Numbered(s) && OneCarrier(s) && InOrder(s) && Next(s, step, s')
    ensures !step.Log? ==> InOrder(s')
    ensures step.Log? ==> (InOrder(s') <==> Earliest(s, step.c))
  {
    hide Handled;
    HeadingStep(s, step, s');
    if step.Log? {
      LogOrder(s, step.c, s');
    } else {
      forall c, id: nat | Carries(s', c, id)
        ensures Carries(s, c, id) || id == s.executed
      {
      }
    }
  }

  lemma LogOrder(s: State, c: Client, s': State)
    requires OneCarrier(s) && InOrder(s) && Next(s, Log(c), s')
    ensures InOrder(s') <==> Earliest(s, c)
  {
    hide Handled;
    HeadingStep(s, Log(c), s');
    var own := s.clients[c].id;
    var tail := HeadingOf(s').tail;
    assert Carries(s, c, own) && tail[|tail| - 1] == own;
    assert forall d, id: nat :: Carries(s', d, id) <==> Carries(s, d, id) && d != c;
    if InOrder(s') {
      forall d, id: nat | Carries(s, d, id)
        ensures own <= id
      {
        if d != c {
          assert Carries(s', d, id) && tail[|tail| - 1] < id;
        }
      }
    }
  }

  ghost predicate OrderlyLogs(states: seq<State>, steps: seq<Step>)
    requires IsRun(states, steps)
  {
    forall i :: 0 <= i < |steps| && steps[i].Log? ==> LogsEarliest(states[i], steps[i])
  }

  ghost predicate LogsEarliest(s: State, step: Step) {
    step.Log? && step.c in s.clients && s.clients[step.c].InHand? && Earliest(s, step.c)
  }

  lemma {:induction false} AlwaysNumbered(states: seq<State>, steps: seq<Step>, k: nat)
    requires IsRun(states, steps) && k < |states|
    ensures Numbered(states[k]) && OneCarrier(states[k])
    decreases k
  {
    hide Next, Inv, Numbered, OneCarrier;
    if k == 0 {
      InitOrder(states[0]);
    } else {
      AlwaysNumbered(states, steps, k - 1);
      NeverLost(states, steps, k - 1);
      assert Next(states[k - 1], steps[k - 1], states[k - 1 + 1]);
      NumberedStep(states[k - 1], steps[k - 1], states[k]);
      OneCarrierStep(states[k - 1], steps[k - 1], states[k]);
    }
  }

  lemma InitOrder(s: State)
    requires Init(s)
    ensures Numbered(s) && OneCarrier(s) && InOrder(s)
  {
  }

  lemma {:induction false} OrderKept(states: seq<State>, steps: seq<Step>, k: nat)
    requires IsRun(states, steps) && OrderlyLogs(states, steps) && k < |states|
    ensures InOrder(states[k])
    decreases k
  {
    hide Next, Numbered, OneCarrier, InOrder, Earliest;
    if k == 0 {
      InitOrder(states[0]);
    } else {
      OrderKept(states, steps, k - 1);
      AlwaysNumbered(states, steps, k - 1);
      assert Next(states[k - 1], steps[k - 1], states[k - 1 + 1]);
      assert steps[k - 1].Log? ==> LogsEarliest(states[k - 1], steps[k - 1]);
      InOrderStep(states[k - 1], steps[k - 1], states[k]);
    }
  }

  /**
   * Whatever the rewriter does, a run keeps its log in execution order throughout
   * exactly when every frame is logged before those of later mutations.
   */
  lemma InOrderIff(states: seq<State>, steps: seq<Step>)
    requires IsRun(states, steps)
    ensures (forall k :: 0 <= k < |states| ==> InOrder(states[k])) <==> OrderlyLogs(states, steps)
  {
    hide Numbered, OneCarrier, InOrder, Earliest;
    if OrderlyLogs(states, steps) {
      forall k | 0 <= k < |states|
        ensures InOrder(states[k])
      {
        OrderKept(states, steps, k);
      }
    }
    if forall k :: 0 <= k < |states| ==> InOrder(states[k]) {
      forall i | 0 <= i < |steps| && steps[i].Log?
        ensures LogsEarliest(states[i], steps[i])
      {
        assert Next(states[i], steps[i], states[i + 1]) && InOrder(states[i]) && InOrder(states[i + 1]);
        AlwaysNumbered(states, steps, i);
        InOrderStep(states[i], steps[i], states[i + 1]);
      }
    }
  }

  // --------------------------------------------------- two runs to know

  lemma Extend(states: seq<State>, steps: seq<Step>, step: Step, s': State)
      returns (states': seq<State>, steps': seq<Step>)
    requires IsRun(states, steps) && Next(states[|steps|], step, s')
    ensures IsRun(states', steps') && states'[|steps'|] == s'
  {
    hide Next;
    states', steps' := states + [s'], steps + [step];
    forall i | 0 <= i < |steps'|
      ensures Next(states'[i], steps'[i], states'[i + 1])
    {
      if i < |steps| {
        assert Next(states[i], steps[i], states[i + 1]);
      }
    }
  }

  lemma Executes(states: seq<State>, steps: seq<Step>, c: Client) returns (states': seq<State>, steps': seq<Step>)
    requires IsRun(states, steps) && var s := states[|steps|]; c in s.clients && s.clients[c].Idle? && s.rewriter.Off?
    ensures IsRun(states', steps')
    ensures var s := states[|steps|];
            states'[|steps'|] == s.(clients := s.clients[c := InHand(s.executed)], executed := s.executed + 1)
  {
    var s := states[|steps|];
    var s1 := s.(clients := s.clients[c := Reading]);
    var s2 := s1.(clients := s1.clients[c := Ran(s.executed)], executed := s.executed + 1);
    var s3 := s2.(clients := s2.clients[c := InHand(s.executed)]);
    assert Next(s, Acquire(c), s1) && Next(s1, Execute(c, true), s2) && Next(s2, Release(c), s3);
    hide IsRun, Next;
    states', steps' := Extend(states, steps, Acquire(c), s1);
    states', steps' := Extend(states', steps', Execute(c, true), s2);
    states', steps' := Extend(states', steps', Release(c), s3);
    assert s3.clients == s.clients[c := InHand(s.executed)];
  }

  /** A rewrite up to the queued swap, with whatever frames in hand. */
  lemma Rewrites(states: seq<State>, steps: seq<Step>) returns (states': seq<State>, steps': seq<Step>)
    requires IsRun(states, steps)
    requires var s := states[|steps|];
             s.rewriter.Off? && s.channel == [] && forall c :: c in s.clients ==> !HoldsRead(s.clients[c])
    ensures IsRun(states', steps')
    ensures var s := states[|steps|];
            var all := AllBelow(s.executed);
            states'[|steps'|] == s.(rewriter := Sent(all), channel := [SwapTo(all)])
  {
    var s := states[|steps|];
    var all := AllBelow(s.executed);
    var s1 := s.(rewriter := Holding);
    var s2 := s1.(rewriter := Snapped(all));
    var s3 := s2.(rewriter := Sent(all), channel := [SwapTo(all)]);
    assert Next(s, LockWrite, s1) && Next(s1, TakeSnapshot, s2) && Next(s2, SendSwap, s3);
    hide IsRun, Next;
    states', steps' := Extend(states, steps, LockWrite, s1);
    states', steps' := Extend(states', steps', TakeSnapshot, s2);
    states', steps' := Extend(states', steps', SendSwap, s3);
  }

  /** The frame in hand at the swap is both in the snapshot and in the log after it. */
  lemma InSnapshotAndLogged() returns (states: seq<State>, steps: seq<Step>)
    ensures IsRun(states, steps)
    ensures var s := states[|steps|];
            s.channel == [] && 0 in s.base && s.tail == [0]
  {
    var s0 := State(map[0 := Idle], Off, [], {}, [], 0);
    states, steps := Executes([s0], [], 0);
    states, steps := Rewrites(states, steps);
    var s6 := states[|steps|];
    var all := AllBelow(1);
    var s7 := s6.(clients := s6.clients[0 := Idle], channel := [SwapTo(all), Rec(0)]);
    var s8 := s7.(channel := [Rec(0)], base := all, rewriter := Replied);
    var s9 := s8.(channel := [], tail := [0]);
    assert Next(s6, Log(0), s7);
    assert s7.channel[1..] == s8.channel && s8.channel[1..] == s9.channel && s8.tail + [0] == s9.tail;
    assert Next(s7, WriterHandles, s8) && Next(s8, WriterHandles, s9);
    hide IsRun, Next;
    states, steps := Extend(states, steps, Log(0), s7);
    states, steps := Extend(states, steps, WriterHandles, s8);
    states, steps := Extend(states, steps, WriterHandles, s9);
  }

  /** Two clients may log in the other order than they executed. */
  lemma LoggedOutOfOrder() returns (states: seq<State>, steps: seq<Step>)
    ensures IsRun(states, steps) && states[|steps|].tail == [1, 0]
  {
    var s0 := State(map[0 := Idle, 1 := Idle], Off, [], {}, [], 0);
    states, steps := Executes([s0], [], 0);
    states, steps := Executes(states, steps, 1);
    var s6 := states[|steps|];
    var s7 := s6.(clients := s6.clients[1 := Idle], channel := [Rec(1)]);
    var s8 := s7.(clients := s7.clients[0 := Idle], channel := [Rec(1), Rec(0)]);
    var s9 := s8.(channel := [Rec(0)], tail := [1]);
    var s10 := s9.(channel := [], tail := [1, 0]);
    assert Next(s6, Log(1), s7) && Next(s7, Log(0), s8);
    assert s8.channel[1..] == s9.channel && s9.channel[1..] == s10.channel;
    assert Next(s8, WriterHandles, s9) && Next(s9, WriterHandles, s10);
    hide IsRun, Next;
    states, steps := Extend(states, steps, Log(1), s7);
    states, steps := Extend(states, steps, Log(0), s8);
    states, steps := Extend(states, steps, WriterHandles, s9);
    states, steps := Extend(states, steps, WriterHandles, s10);
  }
}
