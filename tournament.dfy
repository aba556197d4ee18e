/** Tournament selection: every output slot is won by the fittest member of its
    own tournament, a sample of distinct individuals; the first such member in
    the tournament's order wins ties.  The tournaments are inputs (the random
    sampling is not modelled) and each individual has one fitness score. */
module Tournament {
  import opened Fitness

  /** Every entry of `t` indexes a population of n. */
  predicate Within(t: seq<nat>, n: nat) {
    forall k :: 0 <= k < |t| ==> t[k] < n
  }

  /** No individual appears twice in `t`. */
  predicate Distinct(t: seq<nat>) {
    forall a, b :: 0 <= a < b < |t| ==> t[a] != t[b]
  }

  /** `t` is a tournament of `size` distinct individuals out of a population
      of n. */
  predicate IsTournament(t: seq<nat>, size: nat, n: nat) {
    |t| == size && Within(t, n) && Distinct(t)
  }

  /** The position of the first largest score (`np.argmax`): no score is larger
      and every earlier score is strictly smaller. */
  function ArgMax(s: seq<real>): (k: nat)
    requires |s| >= 1
    ensures k < |s|
    ensures forall i :: 0 <= i < |s| ==> s[i] <= s[k]
    ensures forall i :: 0 <= i < k ==> s[i] < s[k]
  {
    if |s| == 1 then 0
    else
      var k := ArgMax(s[..|s| - 1]);
      if s[|s| - 1] > s[k] then |s| - 1 else k
  }

  /** The fitness of each member of a tournament (`fitnesses[tournament]`). */
  function Scores(fitness: seq<real>, t: seq<nat>): (scores: seq<real>)
    requires Within(t, |fitness|)
    ensures |scores| == |t| && forall k :: 0 <= k < |t| ==> scores[k] == fitness[t[k]]
  {
    seq(|t|, k requires 0 <= k < |t| => fitness[t[k]])
  }

  /** The winner of a tournament: a member with the highest fitness in it, and
      of those the one at the earliest position. */
  function Winner(fitness: seq<real>, t: seq<nat>): (w: nat)
    requires |t| >= 1 && Within(t, |fitness|)
    ensures w < |fitness|
    ensures forall k :: 0 <= k < |t| ==> fitness[t[k]] <= fitness[w]
    ensures exists p :: 0 <= p < |t| && t[p] == w && forall q :: 0 <= q < p ==> fitness[t[q]] < fitness[w]
  {
    var p := ArgMax(Scores(fitness, t));
    t[p]
  }

  /** The winner is pinned down by its characterisation: the member at the
      first position holding the tournament's best fitness is the winner. */
  lemma FirstBestIsWinner(fitness: seq<real>, t: seq<nat>, p: nat)
    requires Within(t, |fitness|) && p < |t|
    requires forall k :: 0 <= k < |t| ==> fitness[t[k]] <= fitness[t[p]]
    requires forall q :: 0 <= q < p ==> fitness[t[q]] < fitness[t[p]]
    ensures Winner(fitness, t) == t[p]
  {
    var scores := Scores(fitness, t);
    var a := ArgMax(scores);
    assert scores[a] <= scores[p] && scores[p] <= scores[a];
  }

  /** The tournament size, 7 when the caller gives none. */
  function SizeOrDefault(tournamentSize: Option<nat>): nat {
    match tournamentSize
    case None => 7
    case Some(k) => k
  }

  /** Tournament selection over a population with one fitness score per
      individual: the output array starts zero-filled and slot `itr` receives the
      winner of tournament `itr`. */
  method TournamentSelection(fitness: seq<real>, tournamentSize: Option<nat>, numToSelect: Option<nat>,
                             tournaments: seq<seq<nat>>)
    returns (selected: seq<nat>)
    requires |tournaments| == SelectionCount(numToSelect, |fitness|)
    requires |tournaments| > 0 ==> SizeOrDefault(tournamentSize) >= 1
    requires forall s :: 0 <= s < |tournaments| ==>
      |tournaments[s]| == SizeOrDefault(tournamentSize) && Within(tournaments[s], |fitness|) && Distinct(tournaments[s])
    ensures |selected| == |tournaments|
    ensures forall s :: 0 <= s < |tournaments| ==> selected[s] == Winner(fitness, tournaments[s])
  {
    var count := SelectionCount(numToSelect, |fitness|);
    var out := new nat[count](_ => 0);
    for itr := 0 to count
      invariant forall s :: 0 <= s < count ==>
        out[s] == if s < itr then Winner(fitness, tournaments[s]) else 0
    {
      var tournament := tournaments[itr];
      ghost var before := out[..];
      out[itr] := tournament[ArgMax(Scores(fitness, tournament))];
      assert out[..] == before[itr := Winner(fitness, tournament)];
    }
    selected := out[..];
  }

  /** The individuals of a tournament. */
  function Members(t: seq<nat>): set<nat> {
    set k | 0 <= k < |t| :: t[k]
  }

  /** The population [0, n) as a set, which has n elements. */
  function Population(n: nat): (p: set<nat>)
    ensures forall i :: i in p <==> 0 <= i < n
    ensures |p| == n
  {
    if n == 0 then {} else Population(n - 1) + {n - 1}
  }

  /** A subset is no larger than its superset. */
  lemma SubsetSize(a: set<nat>, b: set<nat>)
    requires a <= b
    ensures |a| <= |b|
  {
    assert b == a + (b - a);
    assert a * (b - a) == {};
  }

  lemma {:induction false} DistinctMembers(t: seq<nat>)
    requires Distinct(t)
    ensures |Members(t)| == |t|
  {
    if |t| > 0 {
      var u := t[..|t| - 1];
      DistinctMembers(u);
      assert Members(t) == Members(u) + {t[|t| - 1]};
    }
  }

  /** A tournament of distinct individuals is no larger than the population
      (`np.random.choice` without replacement needs tournament_size <= N). */
  lemma TournamentFitsPopulation(t: seq<nat>, size: nat, n: nat)
    requires IsTournament(t, size, n)
    ensures size <= n
  {
    DistinctMembers(t);
    SubsetSize(Members(t), Population(n));
  }

  /** A tournament as large as the population contains every individual. */
  lemma FullTournamentCoversPopulation(t: seq<nat>, n: nat)
    requires IsTournament(t, n, n)
    ensures forall i :: 0 <= i < n ==> i in t
  {
    DistinctMembers(t);
    forall i | 0 <= i < n
      ensures i in t
    {
      if i !in t {
        var rest := Population(n) - {i};
        assert Members(t) <= rest;
        assert Population(n) == rest + {i};
        SubsetSize(Members(t), rest);
        assert false;
      }
    }
  }

  /** When the tournament holds the whole population, its winner has the
      highest fitness of all. */
  lemma FullTournamentSelectsGlobalMaximiser(fitness: seq<real>, t: seq<nat>)
    requires |fitness| >= 1 && IsTournament(t, |fitness|, |fitness|)
    ensures forall i :: 0 <= i < |fitness| ==> fitness[i] <= fitness[Winner(fitness, t)]
  {
    FullTournamentCoversPopulation(t, |fitness|);
    forall i | 0 <= i < |fitness|
      ensures fitness[i] <= fitness[Winner(fitness, t)]
    {
      assert i in t;
      var k :| 0 <= k < |t| && t[k] == i;
    }
  }
}
