/** Lexicase selection (optionally epsilon-relaxed, optionally elitist): every
    output slot narrows a pool of candidates through the objectives taken in a
    per-slot random order, then picks one survivor.  The two sources of
    randomness, the objective order and the final pick, are inputs. */
module Lexicase {
  import opened Fitness
  import opened Pools

  /** The state of one slot's narrowing loop: the candidate pool and the
      objectives not yet consulted. */
  datatype SlotState = SlotState(pool: seq<bool>, features: seq<nat>)

  /** `order` is a permutation of the objective indices [0, m). */
  predicate IsOrder(order: seq<nat>, m: nat) {
    && |order| == m
    && (forall k :: 0 <= k < m ==> order[k] < m)
    && (forall a, b :: 0 <= a < b < m ==> order[a] != order[b])
  }

  /** A loop state of a slot over matrix f with tolerances mad: a non-empty
      pool over the population and only valid objectives left. */
  predicate Live(f: seq<seq<real>>, mad: seq<real>, s: SlotState) {
    && IsMatrix(f) && |mad| == Width(f)
    && |s.pool| == |f| && true in s.pool
    && forall k :: 0 <= k < |s.features| ==> s.features[k] < Width(f)
  }

  /** The loop's exit condition: objectives exhausted or a single candidate left. */
  predicate Done(s: SlotState) {
    |s.features| == 0 || Count(s.pool) == 1
  }

  /** The loop's starting state: everyone in the pool, the whole order ahead. */
  function Initial(n: nat, order: seq<nat>): SlotState {
    SlotState(Full(n), order)
  }

  /** The tolerance vector: the supplied median absolute deviations under
      epsilon relaxation, zero otherwise. */
  function Tolerances(f: seq<seq<real>>, epsilon: bool, deviation: seq<real>): (mad: seq<real>)
    requires IsMatrix(f) && (epsilon ==> |deviation| == Width(f))
    ensures |mad| == Width(f)
    ensures !epsilon ==> forall j :: 0 <= j < |mad| ==> mad[j] == 0.0
    ensures epsilon ==> mad == deviation
  {
    if epsilon then deviation else Zeros(Width(f))
  }

  /** The pool obtained by filtering on objective j: the members that come
      within mad[j] of the pool's best score on j, before any rollback. */
  function Narrowed(f: seq<seq<real>>, mad: seq<real>, pool: seq<bool>, j: nat): seq<bool>
    requires IsMatrix(f) && |mad| == Width(f) && j < Width(f)
    requires |pool| == |f| && true in pool
  {
    var col := Column(f, j);
    Filter(pool, col, PoolMax(col, pool) - mad[j])
  }

  /** Consulting objective j: keep the members that come within mad[j] of the
      pool's best score on j, or keep the whole pool when that would remove
      everyone.  The pool never grows and stays non-empty, whether the
      filtering is committed or rolled back. */
  function Consult(f: seq<seq<real>>, mad: seq<real>, pool: seq<bool>, j: nat): (next: seq<bool>)
    requires IsMatrix(f) && |mad| == Width(f) && j < Width(f)
    requires |pool| == |f| && true in pool
    ensures |next| == |pool| && true in next && Subset(next, pool)
    ensures next == pool || next == Narrowed(f, mad, pool, j)
  {
    var narrowed := Narrowed(f, mad, pool, j);
    if Count(narrowed) == 0 then pool else narrowed
  }

  /** One iteration of the narrowing loop: consult the objective at the front
      of the order and drop it. */
  function Step(f: seq<seq<real>>, mad: seq<real>, s: SlotState): (t: SlotState)
    requires Live(f, mad, s) && s.features != []
    ensures Live(f, mad, t)
    ensures Subset(t.pool, s.pool) && t.features == s.features[1..]
  {
    SlotState(Consult(f, mad, s.pool, s.features[0]), s.features[1..])
  }

  /** The narrowing loop run to its exit (`while len(features) != 0 and
      np.sum(pool) != 1`).  Its properties are stated by RunExits. */
  function Run(f: seq<seq<real>>, mad: seq<real>, s: SlotState): SlotState
    requires Live(f, mad, s)
    decreases |s.features|
  {
    if Done(s) then s else Run(f, mad, Step(f, mad, s))
  }

  /** The loop ends in a state satisfying its exit condition, with a non-empty
      pool inside the pool it started from, having consumed objectives from the
      front of the order only: one per iteration, so it runs at most
      |s.features| iterations. */
  lemma {:induction false} RunExits(f: seq<seq<real>>, mad: seq<real>, s: SlotState)
    requires Live(f, mad, s)
    ensures Live(f, mad, Run(f, mad, s)) && Done(Run(f, mad, s))
    ensures Subset(Run(f, mad, s).pool, s.pool)
    ensures |Run(f, mad, s).features| <= |s.features|
    ensures Run(f, mad, s).features == s.features[|s.features| - |Run(f, mad, s).features|..]
    decreases |s.features|
  {
    if !Done(s) {
      var t := Step(f, mad, s);
      RunExits(f, mad, t);
      assert s.features[1..][|t.features| - |Run(f, mad, t).features|..]
          == s.features[|s.features| - |Run(f, mad, t).features|..];
    }
  }

  /** The pool a slot ends with when it consults the objectives in `order`. */
  function FinalPool(f: seq<seq<real>>, mad: seq<real>, order: seq<nat>): (pool: seq<bool>)
    requires IsMatrix(f) && |mad| == Width(f) && IsOrder(order, Width(f))
    ensures |pool| == |f| && true in pool
  {
    RunExits(f, mad, Initial(|f|, order));
    Run(f, mad, Initial(|f|, order)).pool
  }

  /** The final pick among the members of the pool (`np.random.choice` over
      `np.nonzero(pool)[0]`): the random draw is the input `pick`. */
  function Choose(pool: seq<bool>, pick: nat): (i: nat)
    requires true in pool
    ensures i < |pool| && pool[i]
  {
    var members := Survivors(pool);
    members[pick % |members|]
  }

  /** The index a non-elite slot selects. */
  function SelectSlot(f: seq<seq<real>>, mad: seq<real>, order: seq<nat>, pick: nat): (i: nat)
    requires IsMatrix(f) && |mad| == Width(f) && IsOrder(order, Width(f))
    ensures i < |f| && FinalPool(f, mad, order)[i]
  {
    Choose(FinalPool(f, mad, order), pick)
  }

  /** The body of the per-slot loop for objective `current`: the pool's best
      score on it, the filtered pool, and the rollback to the old pool when the
      filter leaves nobody. */
  method ConsultObjective(f: seq<seq<real>>, mad: seq<real>, pool: seq<bool>, current: nat)
    returns (next: seq<bool>)
    requires IsMatrix(f) && |mad| == Width(f) && current < Width(f)
    requires |pool| == |f| && true in pool
    ensures next == Consult(f, mad, pool, current)
  {
    var col := Column(f, current);
    var best := PoolMax(col, pool);
    var oldPool := pool;
    next := Filter(pool, col, best - mad[current]);
    if Count(next) == 0 {
      next := oldPool;
    }
  }

  /** The per-slot while loop: starting from the full population, consult the
      objectives of `order` one at a time until they run out or one candidate
      remains. */
  method NarrowPool(f: seq<seq<real>>, mad: seq<real>, order: seq<nat>)
    returns (pool: seq<bool>, features: seq<nat>)
    requires IsMatrix(f) && |mad| == Width(f)
    requires forall k :: 0 <= k < |order| ==> order[k] < Width(f)
    ensures SlotState(pool, features) == Run(f, mad, Initial(|f|, order))
    ensures |pool| == |f| && true in pool
    ensures |features| == 0 || Count(pool) == 1
    ensures |features| <= |order| && features == order[|order| - |features|..]
  {
    ghost var goal := Run(f, mad, Initial(|f|, order));
    features := order;
    pool := Full(|f|);
    while |features| != 0 && Count(pool) != 1
      invariant Live(f, mad, SlotState(pool, features))
      invariant Run(f, mad, SlotState(pool, features)) == goal
      decreases |features|
    {
      assert Run(f, mad, SlotState(pool, features)) == Run(f, mad, Step(f, mad, SlotState(pool, features)));
      var current := features[0];
      features := features[1..];
      pool := ConsultObjective(f, mad, pool, current);
    }
    assert Run(f, mad, SlotState(pool, features)) == SlotState(pool, features);
    RunExits(f, mad, Initial(|f|, order));
  }

  /** The body of the slot loop: narrow the pool along `order`, then pick a
      member with the draw `pick`.  The result is the slot's selection. */
  method SelectOne(f: seq<seq<real>>, mad: seq<real>, order: seq<nat>, pick: nat) returns (i: nat)
    requires IsMatrix(f) && |mad| == Width(f) && IsOrder(order, Width(f))
    ensures i == SelectSlot(f, mad, order, pick)
  {
    var pool, remaining := NarrowPool(f, mad, order);
    i := Choose(pool, pick);
  }

  /** The whole selection as a value: slot 0 keeps the zero fill under elitism,
      every other slot is selected independently by its own order and pick; every
      entry is a valid index and a member of its slot's final pool. */
  function Selection(f: seq<seq<real>>, mad: seq<real>, elitism: bool, count: nat,
                     orders: seq<seq<nat>>, picks: seq<nat>): (r: seq<nat>)
    requires IsMatrix(f) && |mad| == Width(f)
    requires |orders| == |picks| == count
    requires forall s :: 0 <= s < count && (s > 0 || !elitism) ==> IsOrder(orders[s], Width(f))
    ensures |r| == count
    ensures forall s :: 0 <= s < count ==> r[s] < |f|
    ensures elitism && count > 0 ==> r[0] == 0
    ensures forall s :: 0 <= s < count && (s > 0 || !elitism) ==> FinalPool(f, mad, orders[s])[r[s]]
  {
    seq(count, s requires 0 <= s < count =>
      if elitism && s == 0 then 0 else SelectSlot(f, mad, orders[s], picks[s]))
  }

  /** Lexicase selection over `fitnesses`: the output array starts zero-filled,
      and the loop writes slots 1.. under elitism and slots 0.. otherwise, each
      with its own narrowing loop, objective order and final pick. */
  method LexicaseSelection(fitnesses: seq<seq<real>>, epsilon: bool, deviation: seq<real>,
                           elitism: bool, numToSelect: Option<nat>,
                           orders: seq<seq<nat>>, picks: seq<nat>)
    returns (selected: seq<nat>)
    requires IsMatrix(fitnesses)
    requires epsilon ==> |deviation| == Width(fitnesses)
    requires |orders| == |picks| == SelectionCount(numToSelect, |fitnesses|)
    requires forall s :: 0 <= s < |orders| && (s > 0 || !elitism) ==> IsOrder(orders[s], Width(fitnesses))
    ensures |selected| == SelectionCount(numToSelect, |fitnesses|)
    ensures selected == Selection(fitnesses, Tolerances(fitnesses, epsilon, deviation), elitism,
                                  |selected|, orders, picks)
  {
    var count := SelectionCount(numToSelect, |fitnesses|);
    var mad := Tolerances(fitnesses, epsilon, deviation);
    ghost var expected := Selection(fitnesses, mad, elitism, count, orders, picks);
    var out := new nat[count](_ => 0);
    var start := if elitism then 1 else 0;
    var itr := start;
    while itr < count
      invariant start <= itr && (itr <= count || itr == start)
      invariant forall s :: 0 <= s < count && s < itr ==> out[s] == expected[s]
      invariant forall s :: itr <= s < count ==> out[s] == 0
    {
      assert itr > 0 || !elitism;
      var chosen := SelectOne(fitnesses, mad, orders[itr], picks[itr]);
      ghost var before := out[..];
      out[itr] := chosen;
      assert out[..] == before[itr := expected[itr]];
      itr := itr + 1;
    }
    selected := out[..];
  }
}
