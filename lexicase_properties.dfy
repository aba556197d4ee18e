/** What the lexicase narrowing protocol guarantees: the rollback is dead code
    under exact arithmetic, exact filtering keeps exactly the tied maximisers,
    relaxation never removes more than exact filtering, and the consequences for
    a single objective and for an individual that dominates on every objective. */
module LexicaseProperties {
  import opened Fitness
  import opened Pools
  import opened Lexicase

  /** Individual i is in the pool and scores at least as well on objective j as
      every other member of the pool. */
  predicate IsPoolMaximiser(f: seq<seq<real>>, pool: seq<bool>, j: nat, i: nat)
    requires IsMatrix(f) && j < Width(f) && |pool| == |f| && i < |f|
  {
    pool[i] && forall k :: 0 <= k < |f| && pool[k] ==> f[k][j] <= f[i][j]
  }

  /** With a non-negative tolerance the pool's own maximiser on the objective
      passes the filter, so the filtered pool is never empty and the rollback
      branch is never taken: consulting the objective commits the filter. */
  lemma RollbackUnreachable(f: seq<seq<real>>, mad: seq<real>, pool: seq<bool>, j: nat)
    requires IsMatrix(f) && |mad| == Width(f) && j < Width(f)
    requires |pool| == |f| && true in pool
    requires mad[j] >= 0.0
    ensures forall i :: 0 <= i < |f| && IsPoolMaximiser(f, pool, j, i) ==> Narrowed(f, mad, pool, j)[i]
    ensures Count(Narrowed(f, mad, pool, j)) > 0
    ensures Consult(f, mad, pool, j) == Narrowed(f, mad, pool, j)
  {
    var col := Column(f, j);
    var best := PoolMax(col, pool);
    var i :| 0 <= i < |pool| && pool[i] && col[i] == best;
    assert Narrowed(f, mad, pool, j)[i];
  }

  /** With zero tolerance on objective j, consulting it keeps exactly the members
      of the pool that achieve the pool's maximum on j. */
  lemma ExactConsultKeepsTiedMaximisers(f: seq<seq<real>>, mad: seq<real>, pool: seq<bool>, j: nat)
    requires IsMatrix(f) && |mad| == Width(f) && j < Width(f)
    requires |pool| == |f| && true in pool
    requires mad[j] == 0.0
    ensures forall i :: 0 <= i < |f| ==>
      (Consult(f, mad, pool, j)[i] <==> IsPoolMaximiser(f, pool, j, i))
  {
    RollbackUnreachable(f, mad, pool, j);
    var col := Column(f, j);
    var best := PoolMax(col, pool);
    forall i | 0 <= i < |f|
      ensures Consult(f, mad, pool, j)[i] <==> IsPoolMaximiser(f, pool, j, i)
    {
      if IsPoolMaximiser(f, pool, j, i) {
        var w :| 0 <= w < |pool| && pool[w] && col[w] == best;
        assert col[w] <= col[i];
      }
    }
  }

  /** Relaxation never narrows more than exact matching: from the same pool, every
      member kept by exact filtering on objective j is also kept when objective j
      is given a non-negative tolerance. */
  lemma RelaxationKeepsExactSurvivors(f: seq<seq<real>>, exact: seq<real>, mad: seq<real>,
                                      pool: seq<bool>, j: nat)
    requires IsMatrix(f) && |exact| == |mad| == Width(f) && j < Width(f)
    requires |pool| == |f| && true in pool
    requires exact[j] == 0.0 && mad[j] >= 0.0
    ensures Subset(Consult(f, exact, pool, j), Consult(f, mad, pool, j))
  {
    RollbackUnreachable(f, exact, pool, j);
    RollbackUnreachable(f, mad, pool, j);
  }

  /** With a single objective, a slot that does not stop at once consults that
      objective once and stops. */
  lemma SingleObjectiveRunsOnce(f: seq<seq<real>>, mad: seq<real>, order: seq<nat>)
    requires IsMatrix(f) && Width(f) == 1 && |mad| == 1
    requires IsOrder(order, 1) && !Done(Initial(|f|, order))
    ensures FinalPool(f, mad, order) == Consult(f, mad, Full(|f|), 0)
  {
    var s := Initial(|f|, order);
    assert order[0] == 0;
    var t := Step(f, mad, s);
    assert |t.features| == 0;
    assert Run(f, mad, s) == Run(f, mad, t) == t;
  }

  /** With a single objective and no tolerance, every member of a slot's final
      pool has the best score on that objective in the whole population. */
  lemma SingleObjectiveFinalPool(f: seq<seq<real>>, mad: seq<real>, order: seq<nat>, i: nat)
    requires IsMatrix(f) && Width(f) == 1 && |mad| == 1 && mad[0] == 0.0
    requires IsOrder(order, 1) && i < |f| && FinalPool(f, mad, order)[i]
    ensures IsPoolMaximiser(f, Full(|f|), 0, i)
  {
    var s := Initial(|f|, order);
    if !Done(s) {
      SingleObjectiveRunsOnce(f, mad, order);
      ExactConsultKeepsTiedMaximisers(f, mad, s.pool, 0);
    } else {
      SingleMember(s.pool, 0);
      assert Run(f, mad, s) == s;
    }
  }

  /** With a single objective and no tolerance, every slot selects an individual
      with the best score on that objective in the whole population. */
  lemma SingleObjectiveSelectsMaximiser(f: seq<seq<real>>, mad: seq<real>, order: seq<nat>, pick: nat)
    requires IsMatrix(f) && Width(f) == 1 && |mad| == 1 && mad[0] == 0.0
    requires IsOrder(order, 1)
    ensures forall k :: 0 <= k < |f| ==> f[k][0] <= f[SelectSlot(f, mad, order, pick)][0]
  {
    var i := SelectSlot(f, mad, order, pick);
    SingleObjectiveFinalPool(f, mad, order, i);
    assert forall k :: 0 <= k < |f| ==> Full(|f|)[k];
  }

  /** With no tolerance, an individual strictly better than every other one on
      every objective is what a slot selects, whatever the objective order and the
      final pick. */
  lemma DominantIsSelected(f: seq<seq<real>>, mad: seq<real>, d: nat, order: seq<nat>, pick: nat)
    requires IsMatrix(f) && Width(f) >= 1 && |mad| == Width(f)
    requires forall j :: 0 <= j < |mad| ==> mad[j] == 0.0
    requires d < |f|
    requires forall i, j :: 0 <= i < |f| && i != d && 0 <= j < Width(f) ==> f[i][j] < f[d][j]
    requires IsOrder(order, Width(f))
    ensures SelectSlot(f, mad, order, pick) == d
  {
    var s := Initial(|f|, order);
    if Done(s) {
      SingleMember(s.pool, d);
    } else {
      var j := order[0];
      var t := Step(f, mad, s);
      ExactConsultKeepsTiedMaximisers(f, mad, s.pool, j);
      assert IsPoolMaximiser(f, s.pool, j, d);
      forall i | 0 <= i < |f| && t.pool[i]
        ensures i == d
      {
        assert IsPoolMaximiser(f, s.pool, j, i);
        assert f[d][j] <= f[i][j];
      }
      OnlyMember(t.pool, d);
      assert Run(f, mad, s) == t;
    }
  }

  /** An individual that dominates on every objective fills every slot that runs
      the protocol when epsilon relaxation is off. */
  lemma DominantFillsEverySlot(f: seq<seq<real>>, d: nat, elitism: bool, count: nat,
                               orders: seq<seq<nat>>, picks: seq<nat>)
    requires IsMatrix(f) && Width(f) >= 1
    requires d < |f|
    requires forall i, j :: 0 <= i < |f| && i != d && 0 <= j < Width(f) ==> f[i][j] < f[d][j]
    requires |orders| == |picks| == count
    requires forall s :: 0 <= s < count && (s > 0 || !elitism) ==> IsOrder(orders[s], Width(f))
    ensures forall s :: 0 <= s < count && (s > 0 || !elitism) ==>
      Selection(f, Zeros(Width(f)), elitism, count, orders, picks)[s] == d
  {
    var mad := Zeros(Width(f));
    forall s | 0 <= s < count && (s > 0 || !elitism)
      ensures Selection(f, mad, elitism, count, orders, picks)[s] == d
    {
      DominantIsSelected(f, mad, d, orders[s], picks[s]);
    }
  }

  /** Under epsilon relaxation the deviations are medians of absolute values,
      hence non-negative; either way every tolerance is then non-negative, which
      is the hypothesis under which the rollback is dead code. */
  lemma TolerancesAreNonNegative(f: seq<seq<real>>, epsilon: bool, deviation: seq<real>)
    requires IsMatrix(f) && (epsilon ==> |deviation| == Width(f))
    requires epsilon ==> forall j :: 0 <= j < |deviation| ==> deviation[j] >= 0.0
    ensures forall j :: 0 <= j < Width(f) ==> Tolerances(f, epsilon, deviation)[j] >= 0.0
  {
  }

  /** Elitism does not select the best individual: in a population of two with
      one objective, individual 1 has the larger aggregate fitness, yet the
      elitist slot 0 holds individual 0. */
  lemma ElitistSlotIgnoresFitness(f: seq<seq<real>>, orders: seq<seq<nat>>, picks: seq<nat>)
    requires f == [[0.0], [1.0]] && orders == [[0], [0]] && picks == [0, 0]
    ensures f[1][0] > f[0][0]
    ensures Selection(f, Zeros(1), true, 2, orders, picks)[0] == 0
  {
  }

  /** The final pick can land on any member of the pool: for every member there
      is a draw that selects it, so modelling the draw as an input loses none of
      `np.random.choice`'s outcomes. */
  lemma EveryMemberCanBeChosen(pool: seq<bool>, i: nat)
    requires i < |pool| && pool[i]
    ensures exists pick: nat :: Choose(pool, pick) == i
  {
    var members := Survivors(pool);
    assert i in members;
    var k :| 0 <= k < |members| && members[k] == i;
    SmallRemainder(k, |members|);
    assert Choose(pool, k) == i;
  }

  /** A draw below the number of members picks that member directly. */
  lemma SmallRemainder(k: nat, n: nat)
    requires k < n
    ensures k % n == k
  {
  }
}
