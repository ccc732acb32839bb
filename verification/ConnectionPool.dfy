/**
 * Connection slots. Accepting, cleaning up and evicting run concurrently; each
 * touches the semaphore, the permit map and the connection map one operation at a
 * time, so any two of them may interleave between any two operations.
 */
module ConnectionPool {

  type Id = nat
  type Caller = nat

  /** Progress of one `remove_connection` call. */
  datatype Stage = Started | PermitTaken | Unlisted

  datatype Removal = Removal(id: Id, stage: Stage)

  /**
   * `free` permits in the semaphore; a taken permit is with an accept in flight,
   * in the permit map, or in the hands of a removal until that call returns.
   * `accepting[id]` tells whether the connection is already listed.
   */
  datatype Pool = Pool(
    max: nat,
    free: nat,
    accepting: map<Id, bool>,
    connections: set<Id>,
    permits: set<Id>,
    hands: map<Id, Caller>,
    removals: map<Caller, Removal>,
    released: set<Id>,
    releases: nat)

  datatype Step =
    | Reserve(id: Id)
    | Abandon(id: Id)
    | List(id: Id)
    | StorePermit(id: Id)
    | Start(r: Caller, id: Id)
    | TakePermit(r: Caller)
    | Unlist(r: Caller)
    | Return(r: Caller)

  predicate Init(p: Pool) {
    p == Pool(p.max, p.max, map[], {}, {}, map[], map[], {}, 0)
  }

  /** Connection ids are never used twice. */
  predicate Unused(p: Pool, id: Id) {
    id !in p.accepting && id !in p.permits && id !in p.hands && id !in p.released && id !in p.connections
  }

  predicate Enabled(p: Pool, step: Step) {
    match step
    case Reserve(id) => p.free > 0 && Unused(p, id)
    case Abandon(id) => id in p.accepting && !p.accepting[id]
    case List(id) => id in p.accepting && !p.accepting[id]
    case StorePermit(id) => id in p.accepting && p.accepting[id]
    case Start(r, _) => r !in p.removals
    case TakePermit(r) => r in p.removals && p.removals[r].stage.Started?
    case Unlist(r) => r in p.removals && p.removals[r].stage.PermitTaken?
    case Return(r) => r in p.removals && p.removals[r].stage.Unlisted?
  }

  function Next(p: Pool, step: Step): Pool
    requires Enabled(p, step)
  {
    match step
    case Reserve(id) => p.(free := p.free - 1, accepting := p.accepting[id := false])
    case Abandon(id) =>
      p.(free := p.free + 1, accepting := p.accepting - {id},
         released := p.released + {id}, releases := p.releases + 1)
    case List(id) => p.(connections := p.connections + {id}, accepting := p.accepting[id := true])
    case StorePermit(id) => p.(permits := p.permits + {id}, accepting := p.accepting - {id})
    case Start(r, id) => p.(removals := p.removals[r := Removal(id, Started)])
    case TakePermit(r) =>
      var id := p.removals[r].id;
      p.(removals := p.removals[r := Removal(id, PermitTaken)],
         permits := p.permits - {id},
         hands := if id in p.permits then p.hands[id := r] else p.hands)
    case Unlist(r) =>
      var id := p.removals[r].id;
      p.(removals := p.removals[r := Removal(id, Unlisted)], connections := p.connections - {id})
    case Return(r) =>
      var id := p.removals[r].id;
      var holds := id in p.hands && p.hands[id] == r;
      p.(removals := p.removals - {r},
         free := if holds then p.free + 1 else p.free,
         hands := if holds then p.hands - {id} else p.hands,
         released := if holds then p.released + {id} else p.released,
         releases := if holds then p.releases + 1 else p.releases)
  }

  // ---------------------------------------------------------- invariants

  /** Every permit is free or in exactly one place. */
  ghost predicate Accounted(p: Pool) {
    Adds(p) && OnePlaceEach(p)
  }

  ghost predicate Adds(p: Pool) {
    p.free + |p.accepting| + |p.permits| + |p.hands| == p.max && p.releases == |p.released|
  }

  ghost predicate OnePlaceEach(p: Pool) {
    && p.accepting.Keys !! p.permits && p.accepting.Keys !! p.hands.Keys && p.permits !! p.hands.Keys
    && p.released !! p.accepting.Keys && p.released !! p.permits && p.released !! p.hands.Keys
  }

  /** A permit in hand belongs to a removal of that id that has not returned. */
  ghost predicate HandsHeld(p: Pool) {
    forall id :: id in p.hands ==>
      p.hands[id] in p.removals && p.removals[p.hands[id]].id == id && !p.removals[p.hands[id]].stage.Started?
  }

  /** The permit behind this connection: with its accept, in the map, or with a removal that has yet to unlist it. */
  ghost predicate Backed(p: Pool, id: Id) {
    || (id in p.accepting && p.accepting[id])
    || id in p.permits
    || (id in p.hands && p.hands[id] in p.removals && p.removals[p.hands[id]].stage.PermitTaken?)
  }

  ghost predicate AllBacked(p: Pool) {
    forall id :: id in p.connections ==> Backed(p, id)
  }

  ghost predicate Inv(p: Pool) {
    Accounted(p) && HandsHeld(p) && AllBacked(p)
  }

  lemma MapSizes<V>(m: map<Id, V>, id: Id, v: V)
    ensures |m[id := v]| == if id in m then |m| else |m| + 1
    ensures |m - {id}| == if id in m then |m| - 1 else |m|
  {
    assert m[id := v].Keys == m.Keys + {id};
    assert (m - {id}).Keys == m.Keys - {id};
    assert |m| == |m.Keys|;
  }

  lemma CountAccept(p: Pool, step: Step)
    requires Accounted(p) && Enabled(p, step) && (step.Reserve? || step.Abandon? || step.List? || step.StorePermit?)
    ensures Adds(Next(p, step))
  {
    MapSizes(p.accepting, step.id, true);
    MapSizes(p.accepting, step.id, false);
    SetSizes(p.permits, step.id);
    SetSizes(p.released, step.id);
  }

  lemma CountTake(p: Pool, r: Caller)
    requires Accounted(p) && Enabled(p, TakePermit(r))
    ensures Adds(Next(p, TakePermit(r)))
  {
    var id := p.removals[r].id;
    MapSizes(p.hands, id, r);
    SetSizes(p.permits, id);
  }

  lemma CountReturn(p: Pool, r: Caller)
    requires Accounted(p) && Enabled(p, Return(r))
    ensures Adds(Next(p, Return(r)))
  {
    var id := p.removals[r].id;
    MapSizes(p.hands, id, r);
    SetSizes(p.released, id);
  }

  lemma SetSizes(a: set<Id>, id: Id)
    ensures |a + {id}| == if id in a then |a| else |a| + 1
    ensures |a - {id}| == if id in a then |a| - 1 else |a|
  {
    if id in a {
      assert a + {id} == a;
    } else {
      assert a - {id} == a;
    }
  }

  lemma CountStep(p: Pool, step: Step)
    requires Inv(p) && Enabled(p, step)
    ensures Adds(Next(p, step))
  {
    hide HandsHeld, AllBacked;
    if step.TakePermit? {
      CountTake(p, step.r);
    } else if step.Return? {
      CountReturn(p, step.r);
    } else if !step.Start? && !step.Unlist? {
      CountAccept(p, step);
    }
  }

  lemma PlaceStep(p: Pool, step: Step)
    requires Inv(p) && Enabled(p, step)
    ensures OnePlaceEach(Next(p, step))
  {
    hide Adds, HandsHeld, AllBacked;
    var p' := Next(p, step);
    if step.TakePermit? || step.Return? || step.Start? || step.Unlist? {
      assert p'.accepting == p.accepting;
    } else {
      assert p'.hands == p.hands;
      assert p'.accepting.Keys == p.accepting.Keys + {step.id} || p'.accepting.Keys == p.accepting.Keys - {step.id};
    }
  }

  lemma HandsStep(p: Pool, step: Step)
    requires Inv(p) && Enabled(p, step)
    ensures HandsHeld(Next(p, step))
  {
    hide AllBacked, Adds;
    var p' := Next(p, step);
    forall id | id in p'.hands
      ensures p'.hands[id] in p'.removals && p'.removals[p'.hands[id]].id == id
              && !p'.removals[p'.hands[id]].stage.Started?
    {
      if id in p.hands {
        assert p.hands[id] in p.removals;
      }
    }
  }

  lemma StaysBacked(p: Pool, step: Step, id: Id)
    requires HandsHeld(p) && Enabled(p, step) && id in Next(p, step).connections
    requires id in p.connections ==> Backed(p, id)
    ensures Backed(Next(p, step), id)
  {
    hide Adds;
  }

  lemma BackedStep(p: Pool, step: Step)
    requires Inv(p) && Enabled(p, step)
    ensures AllBacked(Next(p, step))
  {
    hide Backed, Accounted, HandsHeld;
    forall id | id in Next(p, step).connections
      ensures Backed(Next(p, step), id)
    {
      StaysBacked(p, step, id);
    }
  }

  lemma InvStep(p: Pool, step: Step)
    requires Inv(p) && Enabled(p, step)
    ensures Inv(Next(p, step))
  {
    CountStep(p, step);
    PlaceStep(p, step);
    HandsStep(p, step);
    BackedStep(p, step);
  }

  /** A listed connection has a permit that is not free, so listing never outgrows the maximum. */
  lemma ListedWithinMax(p: Pool)
    requires Inv(p)
    ensures |p.connections| + p.free <= p.max
  {
    var taken := p.accepting.Keys + p.permits + p.hands.Keys;
    assert |taken| == |p.accepting| + |p.permits| + |p.hands|;
    forall id | id in p.connections
      ensures id in taken
    {
      assert Backed(p, id);
    }
    Subset(p.connections, taken);
  }

  lemma {:induction false} Subset(a: set<Id>, b: set<Id>)
    requires a <= b
    ensures |a| <= |b|
  {
    if a != {} {
      var x :| x in a;
      Subset(a - {x}, b - {x});
    }
  }

  ghost predicate IsRun(pools: seq<Pool>, steps: seq<Step>) {
    && |pools| == |steps| + 1 && Init(pools[0])
    && forall i :: 0 <= i < |steps| ==> Enabled(pools[i], steps[i]) && pools[i + 1] == Next(pools[i], steps[i])
  }

  /**
   * Slot accounting under every interleaving: free permits and held permits add up
   * to the maximum, listed connections never exceed it, and each permit released
   * was released once.
   */
  lemma {:induction false} SlotsAddUp(pools: seq<Pool>, steps: seq<Step>, k: nat)
    requires IsRun(pools, steps) && k < |pools|
    ensures var p := pools[k];
            && Inv(p) && p.max == pools[0].max
            && p.free + |p.accepting| + |p.permits| + |p.hands| == p.max
            && |p.connections| <= p.max
            && p.releases == |p.released|
    decreases k
  {
    hide Inv;
    if k == 0 {
      assert Inv(pools[0]) by { InitInv(pools[0]); }
    } else {
      SlotsAddUp(pools, steps, k - 1);
      assert pools[k - 1 + 1] == Next(pools[k - 1], steps[k - 1]);
      InvStep(pools[k - 1], steps[k - 1]);
    }
    ListedWithinMax(pools[k]);
    assert Accounted(pools[k]) by { Unfold(pools[k]); }
  }

  lemma InitInv(p: Pool)
    requires Init(p)
    ensures Inv(p)
  {
  }

  lemma Unfold(p: Pool)
    requires Inv(p)
    ensures Accounted(p)
  {
  }

  /**
   * A slot is never released twice: whoever takes the permit off the map is the
   * only one to give it back, and does so when its call returns.
   */
  lemma ReleasedOnce(p: Pool, step: Step)
    requires Inv(p) && Enabled(p, step)
    ensures var p' := Next(p, step);
            && p'.released >= p.released
            && (p'.free > p.free ==> exists id :: id !in p.released && p'.released == p.released + {id})
            && (p'.free <= p.free ==> p'.released == p.released)
  {
    hide HandsHeld, AllBacked, Adds;
    if step.Abandon? {
      assert step.id !in p.released;
    } else if step.Return? {
      var id := p.removals[step.r].id;
      assert id in p.hands ==> id !in p.released;
    }
  }

  /** The permit of an accepted connection: in the map, in a removal's hands, or given back. */
  ghost predicate Placed(p: Pool, id: Id) {
    id !in p.accepting && (id in p.permits || id in p.hands || id in p.released)
  }

  lemma PlacedStep(p: Pool, step: Step, id: Id)
    requires Inv(p) && Enabled(p, step) && Placed(p, id)
    ensures Placed(Next(p, step), id)
    ensures id !in p.permits ==> id !in Next(p, step).permits
  {
    hide Adds, AllBacked;
  }

  /** A removal of this id. */
  predicate Removes(p: Pool, r: Caller, id: Id) {
    r in p.removals && p.removals[r].id == id
  }

  lemma {:induction false} StaysPlaced(pools: seq<Pool>, steps: seq<Step>, from: nat, k: nat, id: Id)
    requires IsRun(pools, steps) && from <= k < |pools| && Placed(pools[from], id)
    ensures Placed(pools[k], id)
    ensures id !in pools[from].permits ==> id !in pools[k].permits
    decreases k
  {
    hide Inv, Enabled, Next, Placed;
    if from < k {
      StaysPlaced(pools, steps, from, k - 1, id);
      SlotsAddUp(pools, steps, k - 1);
      assert Enabled(pools[k - 1], steps[k - 1]) && pools[k - 1 + 1] == Next(pools[k - 1], steps[k - 1]);
      PlacedStep(pools[k - 1], steps[k - 1], id);
    }
  }

  /**
   * A slot is released at least once: after the permit was stored, one removal
   * that got as far as the permit map is enough, whoever else raced it, once the
   * removals of that connection have returned.
   */
  lemma ReleasedInTheEnd(pools: seq<Pool>, steps: seq<Step>, stored: nat, taken: nat, k: nat, id: Id)
    requires IsRun(pools, steps) && stored < taken < k < |pools|
    requires steps[stored] == StorePermit(id)
    requires steps[taken].TakePermit? && Removes(pools[taken], steps[taken].r, id)
    requires forall r :: !Removes(pools[k], r, id)
    ensures id in pools[k].released
  {
    assert pools[stored + 1] == Next(pools[stored], steps[stored]) && Enabled(pools[stored], steps[stored]);
    StaysPlaced(pools, steps, stored + 1, taken, id);
    assert pools[taken + 1] == Next(pools[taken], steps[taken]) && Enabled(pools[taken], steps[taken]);
    SlotsAddUp(pools, steps, taken);
    PlacedStep(pools[taken], steps[taken], id);
    StaysPlaced(pools, steps, taken + 1, k, id);
    SlotsAddUp(pools, steps, k);
    if id in pools[k].hands {
      assert Removes(pools[k], pools[k].hands[id], id);
    }
  }

  // --------------------------------------- slots without a connection

  /** A removal of this id took its permit step when there was no permit to take, and unlisted the connection. */
  ghost predicate RemovedEarly(pools: seq<Pool>, steps: seq<Step>, k: nat, id: Id, i: nat, j: nat)
    requires |pools| == |steps| + 1 && k < |pools|
  {
    && i < j < k && steps[i].TakePermit? && steps[j] == Unlist(steps[i].r)
    && Removes(pools[i], steps[i].r, id) && Removes(pools[j], steps[i].r, id)
    && id !in pools[i].permits && id in pools[j].connections
  }

  /** A removal past its permit step took that step earlier. */
  lemma {:induction false} TookEarlier(pools: seq<Pool>, steps: seq<Step>, j: nat, r: Caller) returns (i: nat)
    requires IsRun(pools, steps) && j < |pools|
    requires r in pools[j].removals && !pools[j].removals[r].stage.Started?
    ensures i < j && steps[i] == TakePermit(r) && Removes(pools[i], r, pools[j].removals[r].id)
    decreases j
  {
    assert j > 0;
    assert Enabled(pools[j - 1], steps[j - 1]) && pools[j - 1 + 1] == Next(pools[j - 1], steps[j - 1]);
    if steps[j - 1] == TakePermit(r) {
      i := j - 1;
    } else {
      i := TookEarlier(pools, steps, j - 1, r);
    }
  }

  /** A permit that is in the map now was never taken off it. */
  lemma NeverTaken(pools: seq<Pool>, steps: seq<Step>, i: nat, k: nat, id: Id)
    requires IsRun(pools, steps) && i < k < |pools| && id in pools[k].permits
    requires steps[i].TakePermit? && Removes(pools[i], steps[i].r, id)
    ensures id !in pools[i].permits
  {
    if id in pools[i].permits {
      assert Enabled(pools[i], steps[i]) && pools[i + 1] == Next(pools[i], steps[i]);
      SlotsAddUp(pools, steps, i);
      StaysPlaced(pools, steps, i + 1, k, id);
    }
  }

  /** Connections whose accept has listed them are listed until a removal unlists them. */
  lemma {:induction false} UnlistedBySomeone(pools: seq<Pool>, steps: seq<Step>, k: nat, id: Id)
      returns (i: nat, j: nat)
    requires IsRun(pools, steps) && k < |pools| && id !in pools[k].connections
    requires id in pools[k].permits || (id in pools[k].accepting && pools[k].accepting[id])
    ensures i < j < k && steps[i].TakePermit? && steps[j] == Unlist(steps[i].r)
    ensures Removes(pools[i], steps[i].r, id) && Removes(pools[j], steps[i].r, id) && id in pools[j].connections
    decreases k
  {
    assert k > 0;
    var m := k - 1;
    assert Enabled(pools[m], steps[m]) && pools[m + 1] == Next(pools[m], steps[m]);
    if steps[m].Unlist? && Removes(pools[m], steps[m].r, id) && id in pools[m].connections {
      j := m;
      i := TookEarlier(pools, steps, m, steps[m].r);
    } else {
      i, j := UnlistedBySomeone(pools, steps, m, id);
    }
  }

  lemma ListedIsPlaced(p: Pool, id: Id)
    requires Inv(p) && id in p.connections
    ensures (id in p.accepting && p.accepting[id]) || Placed(p, id)
  {
    assert Backed(p, id);
  }

  /** Listed once and off the list now. */
  ghost predicate OffList(p: Pool, id: Id) {
    id !in p.connections && ((id in p.accepting && p.accepting[id]) || Placed(p, id))
  }

  lemma OffListStep(p: Pool, step: Step, id: Id)
    requires Inv(p) && Enabled(p, step) && OffList(p, id)
    ensures OffList(Next(p, step), id)
  {
    hide Adds, AllBacked;
    if Placed(p, id) {
      PlacedStep(p, step, id);
    }
  }

  lemma {:induction false} StaysOffList(pools: seq<Pool>, steps: seq<Step>, from: nat, k: nat, id: Id)
    requires IsRun(pools, steps) && from <= k < |pools| && OffList(pools[from], id)
    ensures OffList(pools[k], id)
    decreases k
  {
    hide Inv, Enabled, Next, OffList;
    if from < k {
      StaysOffList(pools, steps, from, k - 1, id);
      assert Enabled(pools[k - 1], steps[k - 1]) && pools[k - 1 + 1] == Next(pools[k - 1], steps[k - 1]);
      SlotsAddUp(pools, steps, k - 1);
      OffListStep(pools[k - 1], steps[k - 1], id);
    }
  }

  /**
   * The exact cause of a slot held by no listed connection: a removal that came
   * between listing the connection and storing its permit, found no permit and
   * took the connection off the list.
   */
  lemma HeldUnlistedIff(pools: seq<Pool>, steps: seq<Step>, k: nat, id: Id)
    requires IsRun(pools, steps) && k < |pools| && id in pools[k].permits
    ensures id !in pools[k].connections <==> exists i: nat, j: nat :: RemovedEarly(pools, steps, k, id, i, j)
  {
    if id !in pools[k].connections {
      var i, j := UnlistedBySomeone(pools, steps, k, id);
      NeverTaken(pools, steps, i, k, id);
      assert RemovedEarly(pools, steps, k, id, i, j);
    }
    if i: nat, j: nat :| RemovedEarly(pools, steps, k, id, i, j) {
      assert Enabled(pools[j], steps[j]) && pools[j + 1] == Next(pools[j], steps[j]);
      SlotsAddUp(pools, steps, j);
      ListedIsPlaced(pools[j], id);
      assert OffList(pools[j + 1], id);
      StaysOffList(pools, steps, j + 1, k, id);
    }
  }

  /** Such a run, with one slot: nothing is in flight or listed, and nothing is free. */
  lemma SlotWithoutConnection() returns (pools: seq<Pool>, steps: seq<Step>)
    ensures IsRun(pools, steps)
    ensures var p := pools[|steps|];
            p.max == 1 && p.free == 0 && p.accepting == map[] && p.removals == map[] && p.connections == {}
  {
    var p0 := Pool(1, 1, map[], {}, {}, map[], map[], {}, 0);
    var p1 := Next(p0, Reserve(7));
    var p2 := Next(p1, List(7));
    var p3 := Next(p2, Start(0, 7));
    var p4 := Next(p3, TakePermit(0));
    var p5 := Next(p4, Unlist(0));
    var p6 := Next(p5, Return(0));
    var p7 := Next(p6, StorePermit(7));
    pools := [p0, p1, p2, p3, p4, p5, p6, p7];
    steps := [Reserve(7), List(7), Start(0, 7), TakePermit(0), Unlist(0), Return(0), StorePermit(7)];
    assert p7.accepting == map[] && p7.removals == map[] && p7.connections == {};
  }

  /** With nothing in flight, every connection without a permit in the map is gone and all its slots are free. */
  lemma QuietPool(p: Pool)
    requires Inv(p) && p.accepting == map[] && p.removals == map[]
    ensures p.connections <= p.permits && p.free + |p.permits| == p.max
  {
    assert p.hands == map[];
    forall id | id in p.connections
      ensures id in p.permits
    {
      assert Backed(p, id);
    }
  }
}
