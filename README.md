# Lexicase and tournament selection, modelled in Dafny

This project models two parent-selection routines of an evolutionary
computation library. Both take a fitness matrix and return the indices of the
selected individuals.

- `lexicase_selection` (`src/lexicase.py`). Every output slot starts with a
  pool holding the whole population and consults the objectives in a shuffled
  order. On each objective it keeps the pool members that score at least the
  pool's best minus a tolerance (`mad[j]`). The tolerance is zero unless
  epsilon relaxation is on. If a filter would empty the pool, the pool rolls
  back to its previous value. The loop stops when the objectives run out or one
  individual remains, and then one member of the pool is drawn at random.
  Under elitism the slot loop starts at 1.
- `tournament_selection` (`src/baselines.py`). Every output slot samples a
  tournament of distinct individuals and takes the member with the highest
  fitness. Ties go to the earliest position in the tournament, as with
  `np.argmax`.

Both routines are imperative and are modelled that way:

- `Lexicase.LexicaseSelection` and `Tournament.TournamentSelection` fill a
  zero-initialised array slot by slot with a loop.
- `Lexicase.NarrowPool` is the per-slot `while` loop. It reassigns the
  remaining objectives and the pool mask and rolls back through `oldPool`.

Each method is proved against a specification function: `Lexicase.Run`/`FinalPool`/`Selection`
and `Tournament.Winner`. The lemmas state what the protocol guarantees about
those functions. `Lexicase.Narrowed` is the filter before any rollback
(`src/lexicase.py:52-61`), and `Lexicase.Run` is the whole `while` loop
(`src/lexicase.py:46-65`) as a recursive function. Neither carries a contract
of its own: `Consult` and the lemmas about it state what the filter does, and
`RunExits` states what the loop does.

The orders and draws are indexed by slot. Under elitism slot 0 runs no shuffle
and no draw, so `orders[0]` need not be a permutation and `picks[0]` is
ignored.

Modelling choices:

- Scores are `real` and the arithmetic is exact.
- A pool is a `seq<bool>` mask over the N individuals.
- The randomness is supplied as inputs:
  - one objective order per slot, a permutation of `[0, M)`, stands for `np.random.shuffle`;
  - one draw `pick` per slot picks `Survivors(pool)[pick % |Survivors(pool)|]`, which stands for `np.random.choice(np.nonzero(pool)[0])`. `LexicaseProperties.EveryMemberCanBeChosen` shows that every member of the pool is reachable this way;
  - one tournament per slot stands for `np.random.choice(N, tournament_size, replace=False)`.
- `num_to_select=None` is `Option<nat>`. `SelectionCount` turns it into the number of rows N.
- The population must be non-empty (N ≥ 1). With N = 0 a slot that runs fails in the source: `np.max` of the empty pool raises when there is an objective, and `np.random.choice` of no members raises when there is none. With N = 0 it can also happen that no slot runs, and then the source returns `num_to_select` zeros: an empty array for `num_to_select` None or 0, and `[0]` under elitism with `num_to_select` 1, where 0 indexes no individual. The model covers none of these cases.
- `tournament_size=None` stands for the default size 7 (`SizeOrDefault`).
- Zero objectives are allowed. The narrowing loop is then skipped, and every member of the full pool may be picked.

**Elitism: the code and its docstring disagree.** The docstring of
`lexicase_selection` (`src/lexicase.py:15-17`) says that elitism makes sure the
individual with the best aggregate fitness is selected. The code computes no
such individual. The slot loop starts at `int(elitism)` (`src/lexicase.py:36-40`),
so with elitism `selected[0]` keeps the 0 from `np.zeros` (`src/lexicase.py:34`).
The model follows the code: `Lexicase.Selection` states `r[0] == 0` under
elitism, whatever the fitnesses are, and
`LexicaseProperties.ElitistSlotIgnoresFitness` exhibits a population of two in
which individual 1 is strictly fitter and slot 0 still holds individual 0.

## Model

| member | source | states |
|---|---|---|
| Lexicase.LexicaseSelection | src/lexicase.py:22-71 | The result has `num_to_select` entries, N by default. It equals `Selection`: the array is zero-filled, the loop runs from `int(elitism)`, and every slot it writes runs its own narrowing loop and final pick. |
| Lexicase.Selection | src/lexicase.py:34-40 | Every selected index lies in `[0, N)`. Under elitism slot 0 holds 0. Every other slot holds a member of the final pool produced by that slot's objective order. |
| Lexicase.Tolerances | src/lexicase.py:25-32 | The tolerance vector has one entry per objective. It is all zeros when epsilon is off and the supplied deviations when epsilon is on. |
| LexicaseProperties.TolerancesAreNonNegative | src/lexicase.py:29-32 | When the deviations are non-negative, as medians of absolute values are, every tolerance is non-negative. This is the hypothesis under which the rollback is dead code. |
| LexicaseProperties.ElitistSlotIgnoresFitness | src/lexicase.py:34-40 | In a population of two with one objective where individual 1 is strictly fitter, the elitist slot 0 holds individual 0. The docstring at lines 15-17 promises the best aggregate individual instead. |
| Lexicase.NarrowPool | src/lexicase.py:41-50 | The while loop, started from the full pool and the whole order, ends in the state `Run` computes. On exit the objectives are exhausted or exactly one member remains. The pool is a non-empty mask over the population, and the remaining objectives are a suffix of the order. |
| Lexicase.SelectOne | src/lexicase.py:41-69 | One pass of the slot loop body, the narrowing loop followed by the final pick, yields exactly `SelectSlot` for that slot's order and draw. |
| Lexicase.ConsultObjective | src/lexicase.py:49-65 | One iteration of the loop body (take the max over the pool, filter, roll back if empty) yields exactly `Consult` of the pool and objective. |
| Lexicase.Consult | src/lexicase.py:52-65 | Consulting an objective gives a non-empty subset of the previous pool. The result is either the filtered pool or, after a rollback, the previous pool. |
| Lexicase.Step | src/lexicase.py:49-65 | An iteration drops the head objective and keeps the pool non-empty and inside the previous pool. The pool only shrinks. |
| Lexicase.RunExits | src/lexicase.py:46-65 | Every run of the loop ends in a state meeting the exit condition: no objectives left or a single member. Its pool is a non-empty subset of the starting pool. The objectives left are a suffix of the starting ones, so the loop consults at most M objectives. |
| Lexicase.FinalPool | src/lexicase.py:44-65 | The pool a slot ends with is a non-empty mask over the N individuals. |
| Lexicase.Choose | src/lexicase.py:67-69 | The final pick returns an index in `[0, N)` that is a member of the pool. |
| Lexicase.SelectSlot | src/lexicase.py:41-69 | A slot's selected index is in range and is a member of that slot's final pool. |
| LexicaseProperties.RollbackUnreachable | src/lexicase.py:52-65 | With `mad[j] ≥ 0` the pool's maximiser on j passes the filter. The filtered pool is then non-empty, so the rollback is never taken and consulting j commits the filter. |
| LexicaseProperties.ExactConsultKeepsTiedMaximisers | src/lexicase.py:52-61 | With `mad[j] = 0`, an individual survives consulting j exactly when it is in the pool and achieves the pool's maximum on j. Both directions are proved. |
| LexicaseProperties.RelaxationKeepsExactSurvivors | src/lexicase.py:58-61 | From the same pool, every individual kept with zero tolerance on j is also kept with a non-negative tolerance on j. |
| LexicaseProperties.SingleObjectiveRunsOnce | src/lexicase.py:46-65 | With one objective, a slot whose full pool has more than one member consults that objective once, and its final pool is the result. |
| LexicaseProperties.SingleObjectiveFinalPool | src/lexicase.py:44-65 | With one objective and epsilon off, every member of a slot's final pool has the best score on that objective in the whole population. |
| LexicaseProperties.SingleObjectiveSelectsMaximiser | src/lexicase.py:52-69 | With one objective and epsilon off, the selected individual is a global maximiser of that objective. |
| LexicaseProperties.DominantIsSelected | src/lexicase.py:52-69 | With epsilon off, an individual strictly better than all others on every objective is selected, whatever the order and the pick. |
| LexicaseProperties.DominantFillsEverySlot | src/lexicase.py:32-69 | With epsilon off, such a dominant individual fills every slot the loop writes. That is every slot except slot 0 under elitism. |
| LexicaseProperties.EveryMemberCanBeChosen | src/lexicase.py:67-69 | For every member of the pool there is a draw that selects it, so the chooser input loses no outcome of the random pick. |
| Pools.Count | src/lexicase.py:47 | The number of members is at most N, and it is zero exactly when the mask has no member. |
| Pools.Survivors | src/lexicase.py:68 | The list of members has `Count` entries. Each entry is a member, and every member appears. |
| Pools.SurvivorsAscending | src/lexicase.py:68 | The members are listed in strictly ascending order, as `np.nonzero` returns them. |
| Pools.PoolMax | src/lexicase.py:52-54 | `best` is the score of some pool member and no member scores more. |
| Pools.SingleMember | src/lexicase.py:47 | A pool with a count of one lists exactly its one member, and every member equals it. |
| Pools.OnlyMember | src/lexicase.py:47 | A pool whose members all equal one member d has a count of one. |
| Tournament.TournamentSelection | src/baselines.py:18-31 | The result has `num_to_select` entries, N by default. Slot `itr` holds the winner of tournament `itr` and depends on no other tournament. |
| Tournament.Winner | src/baselines.py:29 | The winner is a member of the tournament and no member has higher fitness. Every member at an earlier position has strictly lower fitness, which gives argmax's first-occurrence tie-break. |
| Tournament.FirstBestIsWinner | src/baselines.py:29 | The member at the first position holding the tournament's best fitness is the winner. The winner is therefore fully determined by that characterisation. |
| Tournament.ArgMax | src/baselines.py:29 | The position returned holds a largest score, and every earlier position holds a strictly smaller one. |
| Tournament.TournamentFitsPopulation | src/baselines.py:25-27 | A tournament of distinct indices in `[0, N)` has at most N members, so sampling without replacement needs `tournament_size ≤ N`. |
| Tournament.FullTournamentCoversPopulation | src/baselines.py:25-27 | A tournament of N distinct indices in `[0, N)` contains every individual. |
| Tournament.FullTournamentSelectsGlobalMaximiser | src/baselines.py:25-29 | When the tournament holds the whole population, its winner has the highest fitness of all. |

## Left out

- The MAD computation (`src/lexicase.py:27-30`, `np.median` by row and by column) is not modelled. Under epsilon relaxation the deviations are an input. The methods accept any tolerances, and the lemmas that need `mad[j] ≥ 0` or `mad[j] = 0` take it as a hypothesis.
- The random draws `np.random.shuffle` and `np.random.choice` are not modelled as randomness. They are replaced by the order, pick and tournament inputs described above, so the model has no probabilities.
- Floating point, NaN and infinities are not modelled: scores are exact reals. With `mad[j] ≥ 0`, rounding alone cannot push `best - mad[j]` above `best`, so floats would not change the result of `RollbackUnreachable`. A NaN can: a NaN score, a NaN tolerance, or `inf - inf` makes `>=` false and can empty the filter, so that the rollback runs. The methods model the rollback branch for any tolerances.
- The result is a Dafny `seq<nat>` rather than a numpy integer array.
- Lexicase.LexicaseSelection and Tournament.TournamentSelection take `num_to_select` as `Option<nat>`, so a negative count cannot be passed. The source raises on one in `np.zeros` (`src/lexicase.py:34`, `src/baselines.py:21`); the model does not produce that failure.
- Lexicase.LexicaseSelection requires a non-empty population. With N = 0 and no slot run, the source returns `num_to_select` zeros (`src/lexicase.py:34`, `71`): empty for `num_to_select` None or 0, but `[0]` under elitism with `num_to_select` 1, an index into an empty population. It fails when some slot does run: `np.max` raises at `src/lexicase.py:52` if there is an objective, and `np.random.choice` raises at `src/lexicase.py:67-69` if there is none. The model covers neither N = 0 case.
- Tournament.TournamentSelection requires a size of at least 1 whenever a slot runs. With `tournament_size = 0` the source raises in `np.argmax` of an empty array (`src/baselines.py:29`); the model does not produce that failure.
- Tournament.TournamentSelection models one score per individual. With a multi-column fitness array, `np.argmax` at `src/baselines.py:29` returns a flattened index; that case is not modelled.
- The model has no counterpart for the failure `np.random.choice` raises when `tournament_size` exceeds N. Instead the tournaments are inputs of the right size, and `TournamentFitsPopulation` shows that such inputs exist only when `tournament_size ≤ N`.
- `fitness_proportionate_selection` (`src/baselines.py:34-55`) is not modelled. It is floating-point normalisation fed to numpy's weighted sampling.
- `error_to_fitness` (`src/utils.py`) is not part of this model.
- The source validates no input (empty shapes, NaN). The model states the conditions it needs as preconditions.
