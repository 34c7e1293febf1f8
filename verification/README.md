# A verified model of the chuffed solver core

chuffed is a lazy-clause-generation constraint solver. This project models
the parts of it that are plain logic over integers, literals and sequences,
and proves what each part promises. The parts are:

- the finite-domain integer variable (`IntVar`) with its narrowing
  operations and event bookkeeping;
- the lazily materialised threshold-literal list of `IntVarLL`: a sorted
  doubly linked list kept in an index arena with a free list;
- the propagation scaffolding of `Propagator`: the queue, reasons,
  `TL_SET` and `setDom`;
- Boolean views and the branching groups;
- the constraint primitives and decompositions: `bool_rel`, the
  `int_rel` family, element, `bool_arg_max`, `lex`, the symmetry breakers,
  `regular` and the cardinality BDD;
- the hash-consed MDD table with its algebra, the op cache and the MDD
  globals;
- Dijkstra labelling.

Each modelled source file has a module named after it, one `.dfy` file per
module, directly in this directory. Two files are split: `MDD.cpp` into
`MddNodes` (the node table and `insert`), `MddApply` (`mdd_and`/`mdd_or`
and `mdd_leq`), `MddBuild` (the constructors) and `MddOps` (`mdd_not`,
`mdd_exist` and the folds); `element.cpp` into `Element` (the clause
decompositions) and `ElemBounds` (the bounds propagators). `Base` holds what they share: options,
the outcome type `Res`, literals, three-valued Booleans, event classes and
C++ truncating division.

Modelling conventions:

- **Outcomes.** An operation of the solver that can fail (return `false`,
  `TL_FAIL()`) yields `Fail`. One that stops the program (`NEVER`,
  `NOT_SUPPORTED`, `CHUFFED_ERROR`, a read past the end of an array, a
  failing `assert` on state the operation itself builds) yields `Fatal`.
  A successful one yields `Ok`. An `assert` on what the callers must
  supply (argument shapes and ranges, the `NotR` guard before a
  narrowing) is a precondition instead; those are listed under
  "## Left out".
- **The SAT engine.** It is not modelled. New SAT variables are numbered
  from a counter. Clauses, enqueued literals and posted propagators are
  values the operations return, or logs they append to. Their meaning is
  stated over Boolean assignments (`Asg`) and integer assignments.
- **Views.** An integer view (`IntView`: a variable, possibly negated
  and offset) that a propagator narrows is modelled by the domain it
  shows, as an `IntVar` over the view's own values. Narrowing a bound of
  the view is the variable's `setMin` or `setMax`, so the bound moves on
  to the next value still present. For a negated view the lower bound is
  the variable's upper bound, and the same removed values are skipped.
- **Randomness.** A random choice is an arbitrary parameter, and the
  contracts hold for every value.
- **Scores.** Branch scores are `real`.

## Model

| member | source | states |
|---|---|---|
| Base.CDiv | chuffed/vars/int-var.cpp:306-309 | The split points use C++ division, which truncates toward zero: the remainder is below the divisor in magnitude and has the sign of the dividend, so `(max - min - 1) / 2` is 0, not -1, on a fixed variable |
| Propagation.Register | chuffed/core/propagator.h:46-48 | A new propagator gets id equal to the number registered before it, is appended after all earlier ones, and starts unsatisfied and not queued |
| Propagation.PushInQueue | chuffed/core/propagator.h:51-57 | The first push appends the id to the queue of its priority and sets `in_queue`; every other propagator and queue is unchanged; when already queued, nothing changes |
| Propagation.PushInQueueIdempotent | chuffed/core/propagator.h:51-57 | Pushing twice is the same as pushing once |
| Propagation.DefaultWakeup | chuffed/core/propagator.h:59-61 | The default wakeup is `pushInQueue`: a propagator not yet queued is appended to the queue of its own priority and marked queued. Every other propagator and every other queue is unchanged. An already queued propagator leaves the engine as it was |
| Propagation.DefaultClearPropState | chuffed/core/propagator.h:65-67 | The default clear resets only `in_queue`; satisfaction, priority, id and the queues are kept |
| Propagation.DefaultCheckSatisfied | chuffed/core/propagator.h:74-76 | The default check answers 0 and leaves the propagator unchanged |
| Propagation.ReasonNew | chuffed/core/propagator.h:108-130 | The reason has one more slot than the literals given, slot 0 free and literal `i` at slot `i+1`; it is appended to the last reason bucket and the other buckets are kept |
| Propagation.TLSet | chuffed/core/propagator.h:132-135 | Without the guard nothing changes. It fails exactly when no domain value satisfies the operation. It stops the program exactly for a `remVal` on an unfixed table-less variable during model construction. Otherwise, unless the operation is a `remVal` on a variable without a value table (which changes nothing once construction is over), the new domain is exactly the old values that satisfy the operation |
| Propagation.SetDom | chuffed/core/propagator.h:137-146 | The domain change is that of `TL_SET`. The operation is invoked exactly when the guard holds. The reason passed is the given one in lazy mode and the null reason otherwise |
| IntVars.NewIntVar | chuffed/vars/int-var.cpp:35-60 | The new variable's id is the number of earlier variables, which are kept. Its domain is exactly `[lo, hi]`. Its initial changes are C, L and U, plus F exactly when `lo = hi` |
| IntVars.InitVals | chuffed/vars/int-var.cpp:144-177 | The dense table keeps the domain exactly. Creating it stops the program exactly when the bounds touch the unbounded limits |
| IntVars.UpdateMin | chuffed/vars/int-var.cpp:332-341 | `min` moves up to the least value still in the table; the domain is unchanged; C and L are recorded exactly when `min` moved |
| IntVars.UpdateMax | chuffed/vars/int-var.cpp:343-352 | `max` moves down to the greatest value still in the table; the domain is unchanged; C and U are recorded exactly when `max` moved |
| IntVars.SetMin | chuffed/vars/int-var.cpp:361-386 | Fails exactly when no value is at least `v` (`v > max`). Otherwise the domain becomes exactly the old values `>= v`, `max` is kept, and C, L (and F when now fixed) are recorded |
| IntVars.SetMax | chuffed/vars/int-var.cpp:388-413 | Fails exactly when `v < min`. Otherwise the domain becomes exactly the old values `<= v`, `min` is kept, and C, U (and F when fixed) are recorded |
| IntVars.SetVal | chuffed/vars/int-var.cpp:415-433 | Fails exactly when `v` is not in the domain. Otherwise the domain is `{v}`, C and F are recorded, and L or U is recorded exactly when that bound moved |
| IntVars.RemVal | chuffed/vars/int-var.cpp:435-469 | Fails exactly on a fixed variable. Without a table it is a no-op once construction is finished, and fatal before. With a table the domain loses exactly `v` and C is recorded |
| IntVars.AllowSet | chuffed/vars/int-var.cpp:472-503 | The domain becomes exactly the old values that occur in the sorted `v`. It fails exactly when none does. It is fatal exactly when the table cannot be created |
| IntVars.RemovalFailed | chuffed/vars/int-var.cpp:489-500 | A removal inside `allowSet` fails only when the removed value was the last one left, so no value of the domain is in `v` |
| IntVars.InsertSorted | chuffed/vars/int-var.cpp:114-123 | Insertion into a strictly increasing list stays strictly increasing and holds exactly the old elements and the new one |
| IntVars.SortDedupEnds | chuffed/vars/int-var.cpp:114-129 | After sort-then-compact, `v[0]` is the least and `v.last()` the greatest of the input values, as independently computed by a linear scan |
| IntVars.SortDedup | chuffed/vars/int-var.cpp:114-123 | Sort-then-compact yields a strictly increasing list with exactly the input's elements, and it is non-empty when the input is |
| IntVars.SpecialiseToSL | chuffed/vars/int-var.cpp:105-142 | EL and SL variables are unchanged and LL is refused. A plain variable whose values span at least `n log2 n` becomes SL: its `min` becomes the larger of the old `min` and the least listed value, its `max` the smaller of the old `max` and the greatest listed value, and nothing else changes. Otherwise it becomes EL with exactly the old values that occur in the list, failing when none does |
| IntVars.Unsatisfied | chuffed/vars/int-var.cpp:204-214 | The kept watches are exactly those whose propagator is unsatisfied |
| IntVars.SimplifyWatches | chuffed/vars/int-var.cpp:204-214 | The in-place compaction leaves exactly the unsatisfied watches, in their original order, and returns their count |
| IntVars.WakePropagators | chuffed/vars/int-var.cpp:187-202 | A wakeup is issued for watch `(p, pos)` exactly when that watch is interested in the events, unsatisfied, and not the running propagator. Every wakeup carries the variable's changes. The last watch is woken first. The changes are then cleared and the variable leaves the queue |
| IntVars.DomValues | chuffed/vars/int-var.cpp:313-318 | The domain as a strictly increasing list holding exactly the values in the domain |
| IntVars.Branch | chuffed/vars/int-var.cpp:262-326 | A saved solution value still in the domain gives `(value, =)`. Otherwise `PV_MIN` gives `(min, =)`, `PV_MAX` gives `(max, =)`, `PV_SPLIT_MIN` gives `(min + (max-min-1)/2, <=)` and `PV_SPLIT_MAX` gives `(min + (max-min)/2, >)`, both with C truncating division, which puts the split at the lower half of the range. Every decision splits an unfixed domain. A saved solution value and `PV_MEDIAN` give an equality on a domain value. The median has exactly `(n-1)/2` domain values below it. The median on a variable without a table is fatal |
| LazyVars.NewLazyVar | chuffed/vars/int-var-ll.cpp:22-51 | The list is exactly the two sentinels `min-1` and `max`, linked 0-1, with `li = 0`, `hi = 1` and an empty free list. It satisfies the list invariant. Both sentinel literals are false on the whole domain. One SAT variable is used, and a fixed variable enqueues its value literal |
| LazyVars.SentinelsMean | chuffed/vars/int-var-ll.cpp:22-30 | The sentinels' thresholds are `min-1` and `max`, and their literals are false for every value in the domain |
| LazyVars.GetLitNode | chuffed/vars/int-var-ll.cpp:81-94 | Pops the top of the free list when it is non-empty and otherwise appends a fresh slot. The index returned is neither linked nor still free. The list, its thresholds and the invariant are unchanged |
| LazyVars.InsertKeepsShape | chuffed/vars/int-var-ll.cpp:138-153 | Splicing an unused node with a fresh variable and a threshold strictly between its neighbours keeps values strictly increasing, `prev`/`next` inverse, variables distinct and the free list disjoint. It adds exactly that threshold |
| LazyVars.Monotone | chuffed/vars/int-var-ll.cpp:119-157 | Along the list a smaller threshold always comes earlier |
| LazyVars.GapNotInVals | chuffed/vars/int-var-ll.cpp:128-137 | A value strictly between two consecutive thresholds is no threshold of the list |
| LazyVars.WalkUp | chuffed/vars/int-var-ll.cpp:128-132 | The walk from `li` stops at the first node whose threshold is at least `v-1` |
| LazyVars.GetGELit | chuffed/vars/int-var-ll.cpp:119-157 | Above `max` it returns the false sentinel and changes nothing. Otherwise the thresholds become the old ones plus `v-1`, reusing an existing node without allocating, or splicing exactly one node with a fresh variable. The returned literal means `x >= v` on the whole domain, and the list invariant is kept |
| LazyVars.GetGELitIn | chuffed/vars/int-var-ll.cpp:128-157 | For `v` inside the bounds: the node for `v-1` is reused when present and spliced in otherwise, and the literal means `x >= v` |
| LazyVars.SpliceGELit | chuffed/vars/int-var-ll.cpp:138-157 | When `v-1` is missing, exactly that threshold is added, the literal is the fresh variable, and it means `x >= v` |
| LazyVars.GetGELitTwice | chuffed/vars/int-var-ll.cpp:133-135 | Asking for the same threshold again returns the identical literal and changes neither the list nor the SAT variable count |
| LazyVars.GetLELit | chuffed/vars/int-var-ll.cpp:159-164 | `getLELit(v)` is the negation of `getGELit(v+1)`, with the constant sentinel literals outside the bounds, and means `x <= v` on the domain |
| LazyVars.GetLit | chuffed/vars/int-var-ll.cpp:166-186 | Values outside the bounds give constant literals by relation parity. Inside the bounds GE and LE give literals that mean the relation, and EQ and NE are fatal |
| LazyVars.ChannelMin | chuffed/vars/int-var-ll.cpp:189-198 | `li` moves to the node of `v-1`, and every node strictly between the old `li` and it is enqueued true, in list order, with the bound literal as reason |
| LazyVars.ChannelMax | chuffed/vars/int-var-ll.cpp:201-210 | `hi` moves to the node of `v`, and every node strictly between it and the old `hi` is enqueued false, walking down |
| LazyVars.ChannelledHold | chuffed/vars/int-var-ll.cpp:189-210 | Every literal channelling enqueues is true of every value within the new bound |
| LazyVars.UpdateFixedLL | chuffed/vars/int-var-ll.cpp:212-218 | A variable that became fixed records F and enqueues its value literal with the two bound literals as reason; otherwise nothing changes |
| LazyVars.SetMin | chuffed/vars/int-var-ll.cpp:220-239 | First materialises the `>= v` literal. It fails exactly when `v > max`, and then only the channel enqueue is logged. Otherwise `min = v`, `li` moves, the nodes in between are enqueued and the thresholds gain `v-1` |
| LazyVars.SetMax | chuffed/vars/int-var-ll.cpp:241-260 | The mirror image: fails exactly when `v < min`; otherwise `max = v`, `hi` moves, and the thresholds gain `v` |
| LazyVars.SetVal | chuffed/vars/int-var-ll.cpp:262-276 | Fails exactly when `v` is outside the bounds. Otherwise both bounds become `v`, F is recorded and no threshold is lost. Without channelling it is fatal |
| LazyVars.RemVal | chuffed/vars/int-var-ll.cpp:278-284 | A no-op that succeeds, fatal only without channelling or during model construction |
| LazyVars.Unlink | chuffed/vars/int-var-ll.cpp:105-116 | Unlinking drops exactly one node from the list and pushes its index on the free list |
| LazyVars.UnlinkKeepsShape | chuffed/vars/int-var-ll.cpp:105-116 | Unlinking an inner node keeps the list invariant and removes exactly its threshold |
| LazyVars.FreeLazyVar | chuffed/vars/int-var-ll.cpp:96-117 | A value inside `[min, max)`, with no node, or on a sentinel is fatal (the unlink writes `ld[-1]`). Otherwise exactly that threshold leaves the list and its index is pushed on the free list. The invariant is kept exactly when the value is neither `min-1` nor `max`; for those `li` or `hi` is left pointing at the freed node |
| LazyVars.UnlinkDangles | chuffed/vars/int-var-ll.cpp:96-117 | Unlinking the node `li` or `hi` points to leaves that index on the free list and off the list, so the bound invariant no longer holds |
| LazyVars.Branch | chuffed/vars/int-var-ll.cpp:53-79 | `PV_MIN` gives `(min, <=)` and `PV_MAX` gives `(max-1, >)`. A saved solution value gives a decision it satisfies. Splits stay inside `[min, max)`. Every decision splits an unfixed domain. `PV_MEDIAN` is fatal |
| BoolViews.LitIndex | chuffed/vars/bool-view.cpp:11-19 | The watch list of a literal is `2v + s`: half of it is the variable and its parity is the sign |
| BoolViews.Attach | chuffed/vars/bool-view.cpp:11-19 | The propagator is added to the literal's list when it wants L or F, and to the negation's list when it wants U or F. No other list changes |
| BoolViews.AttachFixedBoth | chuffed/vars/bool-view.cpp:11-19 | A propagator watching F lands on both lists |
| BoolViews.GetScore | chuffed/vars/bool-view.cpp:24-65 | The min and max selectors give the least or greatest value the view still admits, negated for the MIN variants. Size and regret give 0 when fixed and `-1` or `1` otherwise. Degree and activity pass through. The unsupported selectors are fatal |
| Branching.Finished | chuffed/branching/branching.cpp:16-27 | The answer is true exactly when `fin` was set or every child is finished, and `fin` is set to the answer |
| Branching.FinishedSticks | chuffed/branching/branching.cpp:16-19 | Once finished, the group stays finished whatever the children report, and nothing changes |
| Branching.Mean | chuffed/branching/branching.cpp:29-35 | The score times the number of children is the sum of their scores |
| Branching.MeanAboveSome | chuffed/branching/branching.cpp:29-35 | Some child scores at most the mean |
| Branching.MeanBelowSome | chuffed/branching/branching.cpp:29-35 | Some child scores at least the mean |
| Branching.BestMoves | chuffed/branching/branching.cpp:80-100 | The tie list is increasing and holds exactly the unfinished children of maximal score |
| Branching.Branch | chuffed/branching/branching.cpp:37-109 | An unfinished current child is delegated to without re-selecting. Input order picks the first unfinished child. Scored selection picks a child of maximal score, the first unless random. The result is null exactly when no child is unfinished. `cur` changes only when the group is not terminal |
| Branching.ScoredDoneOnlyWhenFinished | chuffed/branching/branching.cpp:80-108 | No child is eligible for scored selection exactly when all children are finished |
| Branching.Unfinished | chuffed/branching/branching.cpp:47-59 | Increasing, and holds exactly the unfinished children |
| Branching.CreateBranch | chuffed/branching/branching.cpp:116-143 | Each `VAL_*` maps every child's preference to its `PV_*`, and the default keeps them. The new group is terminal and unfinished. An unknown value selection is fatal |
| Branching.ToPreferred | chuffed/branching/branching.cpp:122-140 | Each value selection maps to exactly its own preferred value, both ways |
| Branching.PriorityBranch | chuffed/branching/branching.cpp:147-240 | Finished-ness is read from the annotations and scores from `x`. The chosen annotation is unfinished and of maximal score. The result is null exactly when no annotation is eligible |
| BoolPrims.Flags | chuffed/primitives/bool.cpp:20-30 | The full assignments a (subset, partial assignment) pair excludes are exactly those that differ on the subset |
| BoolPrims.Pairs | chuffed/primitives/bool.cpp:15-19 | Pairs come in non-decreasing subset size from 1 to 3, each subset's size is its bit count, and every full assignment appears as a size-3 pair |
| BoolPrims.ClauseMeaning | chuffed/primitives/bool.cpp:47-62 | The clause built for a pair holds exactly when the assignment agrees with the pair somewhere on the subset, i.e. is not excluded |
| BoolPrims.BoolRel | chuffed/primitives/bool.cpp:10-67 | Soundness and completeness: the acted pairs hold of an assignment exactly when the truth table allows it. Pairs are acted on in size order. Size-1 pairs fix their variable. Failure means no assignment agreeing with the fixed values is allowed |
| BoolPrims.PostedSound | chuffed/primitives/bool.cpp:20-44 | Every allowed assignment satisfies every acted pair |
| BoolPrims.PostedComplete | chuffed/primitives/bool.cpp:15-65 | An assignment satisfying all acted pairs is allowed by the table |
| BoolPrims.BoolClause | chuffed/primitives/bool.cpp:72-81 | One clause of x followed by the negated y, holding exactly when some x is true or some y is false |
| BoolPrims.ArrayBoolOr | chuffed/primitives/bool.cpp:94-111 | `|x|+|y|+1` clauses: `(~x_i \/ z)`, `(y_i \/ z)`, and `(~z \/ x... \/ ~y...)` |
| BoolPrims.ArrayBoolOrMeaning | chuffed/primitives/bool.cpp:94-111 | The clauses hold exactly when `z <-> (some x true or some y false)` |
| BoolPrims.ArrayBoolOrOf | chuffed/primitives/bool.cpp:113-116 | The one-array form holds exactly when `z <-> some x true` |
| BoolPrims.ArrayBoolAnd | chuffed/primitives/bool.cpp:119 | `array_bool_and(x, y, z)` is `array_bool_or(y, x, ~z)` and holds exactly when `z <-> (all x true and all y false)` |
| BoolPrims.ArrayBoolAndOf | chuffed/primitives/bool.cpp:121-124 | The one-array form holds exactly when `z <-> all x true` |
| Binary.Plus | chuffed/primitives/binary.cpp:215-261 | The offset view `w + k` denotes the value of `w` plus `k` |
| Binary.NegPlus | chuffed/primitives/binary.cpp:215-261 | The view `-w + k` denotes minus the value of `w` plus `k` |
| Binary.BinLinear | chuffed/primitives/binary.cpp:215-261 | The posted `BinGE`s hold exactly when `x + y t c`; `!=` is not supported |
| Binary.IntRel | chuffed/primitives/binary.cpp:280-336 | The posted propagators hold exactly when `x t y + c` |
| Binary.IntRelConst | chuffed/primitives/binary.cpp:342-365 | The domain becomes exactly the values satisfying the relation against `c`, failing when none does; `!=` is deferred unchanged |
| Binary.IntRelReif | chuffed/primitives/binary.cpp:371-400 | The posted propagators hold exactly when `r <-> (x t y + c)` |
| Binary.IntRelHalfReif | chuffed/primitives/binary.cpp:410-434 | The posted propagators hold exactly when `r -> (x t y + c)` |
| Binary.IntRelReifRealMeans | chuffed/primitives/binary.cpp:443-478 | Through the constant or through threshold literals, what is posted holds exactly when `r <-> (x t c)`. The lazy plain-variable case aborts. A true `r` with `!=` is a removal |
| Binary.IntRelHalfReifRealMeans | chuffed/primitives/binary.cpp:480-528 | What is posted holds exactly when `r -> (x t c)`; a false `r` posts nothing |
| Binary.BinGEPropagate | chuffed/primitives/binary.cpp:41-75 | Fails exactly when r is true and `x.max < y.min`. A false r changes nothing. `x.max < y.min` forces r false. With r true, x loses exactly its values below the old `y.min` and y its values above the old `x.max`, so each bound moves on to the next value still present. Satisfied exactly when r is true and the new `x.min >= y.max` |
| Binary.BinGESound | chuffed/primitives/binary.cpp:41-75 | No pair of domain values with `x >= y` is lost |
| Binary.BinGESkips | chuffed/primitives/binary.cpp:58-72 | For x in `{0, 5}` and y in `3..4`, unreified, x becomes `5` and the propagator is marked satisfied: the raised bound skips the removed values |
| Binary.BinGEEntailed | chuffed/primitives/binary.cpp:70-72 | When marked satisfied, every remaining pair has `x >= y` |
| Binary.BinGEWakeup | chuffed/primitives/binary.cpp:35-39 | Enqueues unless reified with r false |
| Binary.BinGECheckSatisfied | chuffed/primitives/binary.cpp:77-89 | Answers 1 exactly when satisfied or r false, else 3. Marks satisfied also when `x.min >= y.max` |
| Binary.BinNEPropagate | chuffed/primitives/binary.cpp:118-147 | A fixed side removes its value from the other side. Both fixed and equal fails when r is true and forces r false otherwise. Domains only shrink, and a false r changes nothing |
| Binary.BinNESound | chuffed/primitives/binary.cpp:118-147 | No pair of distinct values is lost |
| Binary.BinNECheckSatisfied | chuffed/primitives/binary.cpp:156-168 | Satisfied when r is false or the bound intervals are disjoint |
| Binary.BinNECheckEntailed | chuffed/primitives/binary.cpp:156-168 | Disjoint bound intervals entail `x != y` |
| Element.SpecialiseToEL | chuffed/primitives/element.cpp:22 | Turns a plain variable into EL, keeps SL and EL, and refuses LL |
| Element.IndicesWithHolds | chuffed/primitives/element.cpp:27-39 | The `[x = i]` literals for entries equal to `p` hold exactly when `x` is such an index |
| Element.ArrayBoolElement | chuffed/primitives/element.cpp:21-40 | Per-index clauses plus `ps1 = y \/ {x = i : !a[i]}` and `ps2 = ~y \/ {x = i : a[i]}` |
| Element.ArrayBoolElementMeans | chuffed/primitives/element.cpp:21-40 | The clauses hold exactly when x is a valid index and `y = a[x - offset]` |
| Element.Supported | chuffed/primitives/element.cpp:51-60 | `z` holds exactly the `a[i]` whose index is in x's domain and whose value is in y's domain |
| Element.NarrowIndex | chuffed/primitives/element.cpp:48-49 | The intended narrowing, with the upper bound `offset+|a|-1` in signed arithmetic (the corrected member of the element.cpp:49 finding): x's domain becomes exactly its values in `[offset, offset+|a|-1]`, failing when none is |
| Element.IndexBound | chuffed/primitives/element.cpp:49 | The unsigned bound `a.size() - 1 + offset` taken modulo 2^32: equal to `|a|-1+offset` when that lies in `[0, 2^32)`, and 2^32 more when it is negative |
| Element.NarrowIndexAsWritten | chuffed/primitives/element.cpp:48-49 | Narrowing with the wrapped upper bound: fails exactly when no value of x lies in `[offset, IndexBound]`, otherwise keeps exactly those values; it never stops the program |
| Element.NarrowIndexAgrees | chuffed/primitives/element.cpp:48-49 | When `|a|-1+offset` does not wrap, the as-written narrowing equals the intended one |
| Element.NarrowIndexWraps | chuffed/primitives/element.cpp:48-59 | For `a = [7]`, `offset = -5`, x in `[-5, 0]`, the as-written narrowing keeps x whole, so the scan reads past `a`; the intended one leaves only `-5` |
| Element.XsHolds | chuffed/primitives/element.cpp:85-87 | The support clause's index literals hold exactly when x is an in-domain index holding `w` |
| Element.SupportClauses | chuffed/primitives/element.cpp:72-96 | One clause per distinct in-domain value of y, in first-occurrence order, each `(y != w) \/ {x = i : a[i] = w, i in dom x}` |
| Element.ElementClauses | chuffed/primitives/element.cpp:65-96 | For in-domain x and y the clauses hold exactly when `y = a[x - offset]` |
| Element.ElementMeans | chuffed/primitives/element.cpp:65-96 | The index clauses and support clauses together hold exactly when `y = a[x - offset]` |
| Element.Prepare | chuffed/primitives/element.cpp:48-60 | With the signed bound of the element.cpp:49 finding, narrows x to valid indices and collects `z`, which is empty exactly when no index supports a value of y |
| Element.PrepareAsWritten | chuffed/primitives/element.cpp:48-60 | With the wrapped bound: fails exactly when no value of x lies in `[offset, IndexBound]`, stops the program exactly when a kept value indexes past `a`, and otherwise collects `z` as the intended step does |
| Element.PostElement | chuffed/primitives/element.cpp:62-96 | After specialising, the posted clauses hold exactly when `y = a[x - offset]`; x keeps its domain |
| Element.ArrayIntElement | chuffed/primitives/element.cpp:47-100 | The corrected member of the element.cpp:49 and element.cpp:62 findings. Fails exactly when no index supports a value of y. Otherwise x is narrowed to valid indices and the clauses hold exactly when `y = a[x - offset]` |
| Element.ArrayIntElementAsWritten | chuffed/primitives/element.cpp:47-100 | As written: fails exactly when no value of x lies in `[offset, IndexBound]`; stops the program whenever a kept value indexes past `a`, and, when the bound does not wrap up past 2^32, whenever a plain y has no supported value while some index is valid |
| ElemBounds.LeastMinIs | chuffed/primitives/element.cpp:493-509 | The least `a[i].min` over the remaining indices is at most each of them and attained, or `INT64_MAX` when no index remains |
| ElemBounds.GreatestMaxIs | chuffed/primitives/element.cpp:527-543 | The greatest `a[i].max` over the remaining indices, or `INT_MIN` when none remains |
| ElemBounds.MinSupport | chuffed/primitives/element.cpp:493-510 | The scan returns an attained minimum and its index. It stops early only at a min `<=` the old y.min, and otherwise returns exactly the least min |
| ElemBounds.MaxSupport | chuffed/primitives/element.cpp:527-544 | The mirror scan for the greatest max |
| ElemBounds.MinStep | chuffed/primitives/element.cpp:293-332 | With b true, y loses exactly its values below the least remaining min, so y.min moves to the next value y still has; it fails when that min passes y.max. With b unset, an impossible bound sets b false. The support index is recorded |
| ElemBounds.MaxStep | chuffed/primitives/element.cpp:334-373 | The mirror rule: with b true, y loses exactly its values above the greatest remaining max |
| ElemBounds.FixedNarrow | chuffed/primitives/element.cpp:468-479 | With x fixed to f, the four `setDom`s leave y within the bounds of `a[f]` and `a[f]` within the new bounds of y, each bound moving on to the next value its view still has. Common values are kept in both, disjoint bounds fail, and a failure means there is no common value |
| ElemBounds.FixedNarrowIntervals | chuffed/primitives/element.cpp:468-479 | For views without holes it fails exactly when the bounds are disjoint, and otherwise both views become the common interval |
| ElemBounds.FixedNarrowHoles | chuffed/primitives/element.cpp:471-474 | For y in `{0, 10}` and `a[f]` in `{5, 20}` the bounds meet, yet the narrowing fails: y rises to 10, `a[f]` to 20, and lowering `a[f]` to 10 fails |
| ElemBounds.RemoveIncompatible | chuffed/primitives/element.cpp:481-491 | Every index whose `a[i]` bounds are disjoint from y's is removed. It fails only when every index was incompatible |
| ElemBounds.SupportSteps | chuffed/primitives/element.cpp:493-562 | With b true, y loses exactly its values below the least remaining min when the min support was lost, and above the greatest remaining max when the max support was lost. The lost supports are found again, it fails when no index remains, and no value of y that a remaining index supports is lost |
| ElemBounds.IntElemBoundsPropagate | chuffed/primitives/element.cpp:466-562 | With x fixed to an index of `a`, y and `a[f]` narrow as `FixedNarrow` says (so disjoint bounds fail), and it is satisfied exactly when both are fixed. An index fixed past the end is read anyway, which is fatal. Otherwise the unfixed rules apply, and an x with no index value fails once a support is sought. No solution is ever lost |
| ElemBounds.IntElemBoundsWakeup | chuffed/primitives/element.cpp:432-464 | x fixing records the index, clears both flags and enqueues. A negative fixed value looks like the unset `-1` and goes on through the unfixed rules. Once fixed, only y or `a[f]` enqueue. Otherwise a support that lost its bound sets its flag |
| ElemBounds.WakeupKeepsSupport | chuffed/primitives/element.cpp:432-464 | After a wakeup, a support whose bound is no longer attained is always flagged |
| ElemBounds.ElemClearPropState | chuffed/primitives/element.cpp:564-568 | Resets `in_queue` and both no-support flags and nothing else |
| ElemBounds.IntElemBoundsCheckSatisfied | chuffed/primitives/element.cpp:570-578 | Answers 1 exactly when satisfied, else 3. Marks satisfied when x, y and `a[x]` are fixed. With x and y fixed and x outside the array, the read of `a[x]` is fatal |
| ElemBounds.Scan | chuffed/primitives/element.cpp:263-291 | Stops at the first in-domain index compatible with y, never reading past the array. It passes `x.max` exactly when `x.max < |a|` and no in-domain index is compatible |
| ElemBounds.IntElemBoundsImpPropagate | chuffed/primitives/element.cpp:216-385 | Uses the corrected walk `i < |a|` of the element.cpp:268 finding. A false b means satisfied and no change. A fixed out-of-range x forces b false. With b true it propagates like the plain element, through `FixedNarrow` for a fixed x. With b unset, an incompatible fixed or unfixed x sets b false. No solution of `b -> y = a[x]` is lost |
| ElemBounds.IntElemBoundsImpWakeup | chuffed/primitives/element.cpp:177-214 | b false is ignored. x fixing sets `is_fixed`, records the index, clears the flags and enqueues. The remaining events are those of the plain version |
| ElemBounds.IntElemBoundsImpCheckSatisfied | chuffed/primitives/element.cpp:393-402 | Satisfied when b is false or everything is fixed. An out-of-range fixed x is a read past the array |
| ArgMax.BoolArgMaxRegister | chuffed/globals/bool_arg_max.cpp:20 | The propagator is registered with priority 1 |
| ArgMax.FixFalse | chuffed/globals/bool_arg_max.cpp:33-46 | Sets exactly `x[lo..hi)` false, failing exactly when one of them is true |
| ArgMax.OpenEntries | chuffed/globals/bool_arg_max.cpp:33-59 | Entries before `y.min - offset` become false, and a fixed y makes `x[y - offset]` true. It is fatal exactly when `y.min` is below `offset`, or when `y.min` is past the end of `x` (or fixed at the end) and no existing entry before it was true. No solution is lost to a failure |
| ArgMax.PastEnd | chuffed/globals/bool_arg_max.cpp:65-79 | The walk reads past the end of `x` exactly when y has a value there and no value of y inside `x` has a true entry |
| ArgMax.Scan | chuffed/globals/bool_arg_max.cpp:61-79 | For a walk that stays inside `x`: `l` is the first value of y whose x is not false, `u` is the first value whose x is true, or `y.max`, and the values to remove are exactly those up to `u` whose x is false |
| ArgMax.RemoveFalse | chuffed/globals/bool_arg_max.cpp:80-90 | With a table, y loses exactly the values whose x is false; without one it is unchanged |
| ArgMax.Clamp | chuffed/globals/bool_arg_max.cpp:91-113 | The new domain is exactly the old values within `[lo, hi]`, failing when there are none |
| ArgMax.NarrowY | chuffed/globals/bool_arg_max.cpp:61-113 | Fatal when the walk reads past the end of `x`, and otherwise only for a removal that needs a table. On success y.min rises to the first value whose x is not false and y.max falls to the first value whose x is true, both inside `x`. No solution is lost |
| ArgMax.BoolArgMaxPropagate | chuffed/globals/bool_arg_max.cpp:27-142 | A `y.min` below `offset` is fatal, and a walk past the end of `x` never succeeds. A fatal outcome needs y to reach outside `x` or a removal without a table. Otherwise the propagation only narrows, leaves every x before y.min false and `x[y]` true when y is fixed, and loses no assignment where y is the first true x |
| Lex.LexMeans | chuffed/globals/lex.cpp:16-35 | For non-empty x, some b and r satisfy the posted constraints exactly when `x <=lex y`, or `x <lex y` when strict |
| Lex.ChainSound | chuffed/globals/lex.cpp:28-34 | Constraints satisfied from position `i` on imply the lexicographic order of the suffixes |
| Lex.ChainComplete | chuffed/globals/lex.cpp:16-35 | Lexicographically ordered vectors admit a witness b and r |
| Lex.LexPostChecked | chuffed/globals/lex.cpp:16-35 | Posts the decomposition for every length; the empty strict case fails |
| Lex.LexCheckedMeans | chuffed/globals/lex.cpp:10-35 | The checked decomposition admits exactly the lexicographically ordered vectors, for every length |
| SymBreak.VarSymBreak | chuffed/globals/sym-break.cpp:11-15 | One `<=` per consecutive pair |
| SymBreak.VarSymBreakMeans | chuffed/globals/sym-break.cpp:11-15 | The chain holds exactly when x is non-decreasing |
| SymBreak.BinLTInfPropagate | chuffed/globals/sym-break.cpp:30-43 | If `y.max < k` then x's domain loses the values above `y.max - 1`. y always loses the values below `min(x.min+1, k)`. Failure is exactly an empty result |
| SymBreak.BinLTInfExact | chuffed/globals/sym-break.cpp:17-43 | No pair with `(x = k and y = k) or x < y` is removed, and every removed value has no such partner |
| SymBreak.ValSymBreak | chuffed/globals/sym-break.cpp:46-61 | Creates `u-l+1` variables and specialises every x; LL variables are fatal |
| SymBreak.ValSymBreakMeans | chuffed/globals/sym-break.cpp:46-61 | Some y satisfies the posted constraints exactly when the first occurrences of the values `l..u` in x are ordered |
| Regular.RegularTables | chuffed/globals/regular.cpp:28-60 | `start`, `middle` and `end` hold exactly the live transitions out of `q0`, every live transition, and the transitions into accepting states |
| Regular.RegularSound | chuffed/globals/regular.cpp:62-80 | For at least two symbols, a word the tables admit is accepted by the DFA |
| Regular.RegularComplete | chuffed/globals/regular.cpp:62-80 | An accepted word is admitted, with the states of its run as y |
| Regular.RegularMeans | chuffed/globals/regular.cpp:28-82 | For at least two symbols, the posted tables admit exactly the accepted words |
| Regular.RegularPost | chuffed/globals/regular.cpp:28-82 | Agrees with the source for two or more symbols. One symbol is checked by a single table, and the empty word fails exactly when `q0` is not accepting |
| Regular.RegularPostMeans | chuffed/globals/regular.cpp:28-82 | For every length, the posted constraints admit exactly the accepted words |
| LinBool.KeyInjective | chuffed/globals/linear-bool-decomp.cpp:166-168 | The memo key `vv(k+1)+cc` is below `(k+1)n` and determines `(vv, cc)` |
| LinBool.CombineGood | chuffed/globals/linear-bool-decomp.cpp:171-203 | Combining a node keeps the memo consistent, records exactly its key, and gives a literal true exactly when the rest of the sum stays within the bound |
| LinBool.InnerGood | chuffed/globals/linear-bool-decomp.cpp:155-204 | Every node `(vv, cc)` means "at most `k - cc` of `x[vv..]` are true", with the terminals at the bottom |
| LinBool.BoolLinearLeqMeans | chuffed/globals/linear-bool-decomp.cpp:120-204 | The clauses are satisfiable by the fresh literals exactly when at most k of x are true |
| LinBool.BoolLinearLeqStdMeans | chuffed/globals/linear-bool-decomp.cpp:206-288 | Satisfiable exactly when the count is at most k and its terminal holds |
| LinBool.BoolLinearDecompMeans | chuffed/globals/linear-bool-decomp.cpp:21-79 | For LE, LT, GE and GT the decomposition holds exactly when the count of true x satisfies the relation against k; EQ and NE are fatal |
| LinBool.Normalise | chuffed/globals/linear-bool-decomp.cpp:22-45 | Only EQ and NE are rejected |
| LinBool.CountNegations | chuffed/globals/linear-bool-decomp.cpp:36-45 | The count of true negations is `n` minus the count of true literals |
| LinBool.ClampKv | chuffed/globals/linear-bool-decomp.cpp:87-96 | When kv has a value in `[0, n]`, its domain becomes exactly its values in `[0, n]`. When it lies wholly below 0 or above n, the failing `setMin`/`setMax` is ignored and kv is unchanged. Values in `[0, n]` are never lost |
| LinBool.BoolLinearDecompVar | chuffed/globals/linear-bool-decomp.cpp:81-118 | Only LE is supported, and kv is clamped to `[0, n]` |
| LinBool.BoolLinearDecompVarMeans | chuffed/globals/linear-bool-decomp.cpp:81-118 | With terminal `ii` meaning `kv >= ii`, the clauses hold exactly when the count is at most the value of kv |
| OpCaches.NewCache | chuffed/mdd/opcache.cpp:10-29 | A new cache is empty and satisfies the cache invariant |
| OpCaches.Hash | chuffed/mdd/opcache.cpp:31-46 | The slot is below `tablesz` |
| OpCaches.Check | chuffed/mdd/opcache.cpp:49-60 | A result other than `UINT_MAX` is stored under exactly the key asked for, in an allocated entry |
| OpCaches.Insert | chuffed/mdd/opcache.cpp:62-80 | The invariant is kept and `members` grows by at most one, never past `tablesz` |
| OpCaches.InsertThenCheck | chuffed/mdd/opcache.cpp:49-80 | Right after inserting a key, checking it returns the stored result |
| OpCaches.InsertKeepsOthers | chuffed/mdd/opcache.cpp:49-80 | An insert never makes another key return a different result; at most it evicts it |
| OpCaches.InsertAll | chuffed/mdd/opcache.cpp:62-80 | Any sequence of inserts keeps the invariant and a non-decreasing `members` |
| MddNodes.Follow | chuffed/mdd/MDD.cpp:314-319 | A value follows the last edge whose value is at most it, otherwise `low` |
| MddNodes.CollapseFollow | chuffed/mdd/MDD.cpp:78-92 | Dropping leading edges to `low` and merging equal neighbours leaves every value's destination unchanged |
| MddNodes.Store | chuffed/mdd/MDD.cpp:103-122 | An identical stored node is returned unchanged; otherwise the node is appended with id `nodes.size()` |
| MddNodes.Insert | chuffed/mdd/MDD.cpp:60-123 | Returns `low` when nothing is kept and not expanding. Otherwise it returns a node holding exactly the collapsed edges, shared with an identical node or appended |
| MddNodes.InsertMeans | chuffed/mdd/MDD.cpp:60-123 | The node inserted denotes what following its edges denotes |
| MddNodes.InsertAsWritten | chuffed/mdd/MDD.cpp:94-99 | Agrees with `Insert` except with no edge and no expand, where it reads past the stack |
| MddApply.MergeFollow | chuffed/mdd/MDD.cpp:300-345 | Walking two sorted edge lists together gives, at each value, the pair of destinations the two lists give |
| MddApply.Apply | chuffed/mdd/MDD.cpp:275-448 | `mdd_and`/`mdd_or` with FALSE absorbing for and and TRUE for or: the result is the pointwise conjunction or disjunction |
| MddApply.Leq | chuffed/mdd/MDD.cpp:506-573 | Terminal cases: FALSE <= anything, anything <= TRUE, TRUE <= non-TRUE fails, non-FALSE <= FALSE fails |
| MddApply.LeqImplies | chuffed/mdd/MDD.cpp:506-573 | A true `mdd_leq(a, b)` means a implies b at every point |
| MddApply.LeqRefl | chuffed/mdd/MDD.cpp:506-573 | Every diagram is `<=` itself |
| MddBuild.VarEq | chuffed/mdd/MDD.cpp:141-153 | `vareq` is true exactly when the variable equals `val` |
| MddBuild.VarLt | chuffed/mdd/MDD.cpp:155-164 | `varlt` is true exactly when the variable is below `val` |
| MddBuild.VarGt | chuffed/mdd/MDD.cpp:166-174 | `vargt` is true exactly when the variable is above `val` |
| MddBuild.Tuple | chuffed/mdd/MDD.cpp:125-137 | `tuple(tpl)` is true exactly of the assignments that agree with `tpl` |
| MddBuild.Case | chuffed/mdd/MDD.cpp:176-187 | `mdd_case` is true exactly when some case's value equals the variable and its diagram holds; no case gives FALSE |
| MddBuild.Expand | chuffed/mdd/MDD.cpp:237-273 | Expansion keeps the function and gives a diagram that tests every variable from `variable` on, in order |
| MddBuild.ExpandedTrueHasNoEdges | chuffed/mdd/MDD.cpp:237-273 | Expanding TRUE over one variable stores a node with no edges, and rebuilding it reaches the no-edge case `insert` mishandles |
| MddOps.Unary | chuffed/mdd/MDD.cpp:450-504 | `mdd_not` gives the pointwise complement and `mdd_exist` (folding from `low`) projects out the variable; neither touches nodes above the variable |
| MddOps.OrAll | chuffed/mdd/MDD.cpp:468-471 | Folding `mdd_or` over a list gives the disjunction of the start and every element |
| MddOps.ExistAbove | chuffed/mdd/MDD.cpp:450-458 | Projecting out a variable a diagram does not test changes nothing |
| MddOps.FoldMeansAll | chuffed/mdd/MDD.cpp:465-472 | Projecting out the tested variable is the disjunction of `low` and every child |
| MddOps.ExistAsWrittenDropsLow | chuffed/mdd/MDD.cpp:465-472 | Folding from FALSE loses the low child: over `x0 < 5` it gives FALSE although `x0 = 0` satisfies the diagram |
| MddGlobals.AddMddProp | chuffed/globals/mddglobals.cpp:45-68 | `doms[i] = x[i].max + 1`, so each domain lies below its size, and every x becomes EL or SL with its domain kept; LL is fatal |
| MddGlobals.AddMdd | chuffed/globals/mddglobals.cpp:29-32 | Nothing is posted exactly when the diagram is TRUE |
| MddGlobals.MddTable | chuffed/globals/mddglobals.cpp:107-128 | The OR of the tuple diagrams, complemented when negative, is true exactly of the assignments the table accepts, or rejects when negative |
| MddGlobals.MddTableConstraint | chuffed/globals/mddglobals.cpp:80-104 | The diagram over `|x|` variables holds exactly of the table's rows |
| MddGlobals.StateNode | chuffed/globals/mddglobals.cpp:141-155 | The node for state `i+1` at level `j` is true exactly when reading the rest of the word from that state accepts |
| MddGlobals.CasesMean | chuffed/globals/mddglobals.cpp:143-152 | The cases built over the live transitions hold exactly when the next symbol leads to a state that accepts the rest |
| MddGlobals.FdRegular | chuffed/globals/mddglobals.cpp:130-160 | The diagram is true exactly of the words the DFA accepts from `q0` |
| MddGlobals.AcceptsAgree | chuffed/globals/mddglobals.cpp:130-160 | The level-by-level acceptance agrees with the DFA run used by `regular` |
| MddGlobals.MddRegular | chuffed/globals/mddglobals.cpp:73-78 | The posted diagram holds exactly of the accepted words; LL variables are fatal |
| MddGlobals.WdfaTransitions | chuffed/globals/mddglobals.cpp:166-178 | `q*s` transitions in row-major order, each pairing the weight and destination of its state and symbol |
| Dijkstra.Start | chuffed/support/dijkstra.cpp:39-44 | `pred[source] = source` and `cost[source] = duration(source)`; every other node has pred and cost `-1`, and the queue holds only the source |
| Dijkstra.Relax | chuffed/support/dijkstra.cpp:70-99 | Skipped edges change nothing. A label changes exactly when it is unset or strictly improved, and then it records `curr` as pred, marks `curr` as having children and queues the node |
| Dijkstra.RoundKeeps | chuffed/support/dijkstra.cpp:52-99 | One pop-and-scan round keeps the run invariant |
| Dijkstra.ReachesSource | chuffed/support/dijkstra.cpp:89-99 | Following predecessors from any labelled node reaches the source |
| Dijkstra.Run | chuffed/support/dijkstra.cpp:33-101 | Visits are distinct and at most `nb_nodes`. Ignored nodes stay unlabelled. Every label is `cost[pred] + weight + duration` over a usable edge out of a visited predecessor with children. The run ends with an empty queue or every node visited |

## Left out

- The SAT engine (`addClause`, `enqueue`, `newVar`, trails, levels,
  conflict analysis) is not modelled; its effects are returned values and
  logs.
- `MDDTable::bound`, `operator^`, `mdd_iff` and the printers are stubs or
  output only. `DijkstraMandatory::run`, `IntElemDomain`, impact
  branching, `shift.cpp` and `template.cpp` are not part of this model.
- The `wdfa_to_layergraph` and `evgraph_to_wmdd` steps of
  `wmdd_cost_regular` are not part of this model; only its transition
  table is.
- Headers not part of this model supply `min_limit`/`max_limit`,
  `mylog2`, the `LitRel` codes, the `BoolRelType` tables and the event bit
  values. They are parameters or datatypes here.
- The compile-time disabled branches (`INT_DOMAIN_LIST`,
  `INT_BRANCH_HOLES`, `SPLIT_CACHE`) are left out.
- Scores from the MIP engine (`VAR_ACTIVITY` on real activities,
  `VAR_REDUCED_COST`) and the MIP side constraints posted by `binary.cpp`
  use floating point and are not modelled.
- Int widths: values are unbounded integers. The 32-bit overflow of
  `vv * (k + 1) + cc` and of offset views is not modelled. The unsigned
  wraps of `lex.cpp` and `element.cpp:49` are.
- Caller asserts are preconditions, not `Fatal` results:
  `IntVars.NewIntVar` (int-var.cpp:37, bounds within the limits), the
  `NotR` guards of `SetMin`/`SetMax`/`SetVal`/`RemVal` (int-var.cpp:362,
  389, 416, 436), `MddBuild.VarEq` (MDD.cpp:141, `variable < nvars`),
  `MddBuild.Expand` (MDD.cpp:248), `MddGlobals.MddTable` (mddglobals.cpp:107,
  one domain per column), `Dijkstra.GraphOk` (dijkstra.cpp:72, each edge
  leaves its node) and `Branching.PriorityBranch` (branching.cpp:217 reads
  `x[i]` for every annotation, so there are at least as many scores).
- MddBuild.VarLt: `VarLt` and `VarGt` also require `variable < nvars`,
  which the source does not assert for them, because a node on a variable
  past `nvars` lies outside the table shape the model keeps. `Case`
  requires it only when there is a case, as only then is `mdd_vareq`
  reached.
- OpCaches.Hash: the hash function is a parameter reduced modulo
  `tablesz`, not the source's bit mixing.
- MddApply.Apply: the op cache is not consulted; results are recomputed,
  which by `OpCaches.Check` gives the same node as a cache hit.
- MddApply.Leq: only the direction "true implies pointwise implication"
  is proved; the converse needs reduced diagrams, which the table does not
  enforce.
- MddGlobals.MddRegular: the DFA's well-formedness (what `regular_check`
  tests) is a precondition.
- Dijkstra.Run: the priority queue order is a choice function `pick`, so
  shortest-path optimality is not claimed. A label equal to `-1` after
  an update is reported as fatal and not characterised further.
- Branching.Unfinished: states membership and order, not the length
  equality with the finished count.
- IntVars.SpecialiseToSL: requires the clamped bounds to form a valid
  domain. When the values lie wholly outside the bounds, or a clamped end
  point is a value the table already removed, the code goes on with
  crossed bounds or an end point outside the domain. What happens next
  depends on the `initVals` allocation for a negative size and on the
  `IntVarSL` constructor, which is not part of this model. The same
  constructor builds the sparse list, so the SL result records only the
  clamped bounds and the kind, and its domain is not stated to be the
  listed values.
- LazyVars.FreeLazyVar: the walk from `li` or `hi` to the node is
  abstracted by locating the node directly.
- LazyVars.NewLazyVar: a lazy variable with a value table is not modelled.
  NewLazyVar, SentinelsShape, the list invariant `Shape` (through
  `BoundsOk`) and so every member that requires it (GetGELit, GetLELit,
  GetLit, ChannelMin, ChannelMax, SetMin, SetMax, SetVal, FreeLazyVar) and
  MoveBoundsKeepsShape require `vals` to be absent. With a table the
  bound moves step over removed values through `prevDomVal`/`nextDomVal`,
  which `int-var.h` defines; that header is not part of this model.
  LazyVars.Branch and BranchSplits only require a valid domain.
- BoolPrims.BoolRel: the views are distinct variables. When two views
  share a variable the source's `TL_FAIL` on a contradictory pair of
  units (`bool.cpp:52-54`) is not modelled; the model returns both units.
- Dijkstra.Run: the `on_visiting_node` and `on_ignore_edge` hooks are not
  modelled, and the other hooks are pure parameters, so they are taken to
  answer the same way throughout a run.
- Branching.Mean: the mean is a real number, not a `double`. Rounding may
  make ties in the best-move selection come out differently, and the NaN
  mean of an empty group is not modelled.
- Regular.RegularPost: the DFA's well-formedness (`RegularCheck`: a
  `q * s` transition table with targets in `0..q`, `q0` and the accepting
  states in `1..q`) is a precondition of this and every other Regular
  member. The source asserts it, and a failing assert would be fatal;
  that path is not modelled.
- LinBool.BoolLinearDecompMeans: states the release build; the `assert`s in
  `bool_linear_leq` are not modelled as fatal. The `SparseSet` capacity for
  `k < -1` is not modelled.

## Findings

| source | as written | input that shows it | evidently intended | confidence | as-written member | corrected member |
|---|---|---|---|---|---|---|
| chuffed/primitives/element.cpp:62 | `specialiseToSL(z)` is called even when `z` is empty, and it reads `v[0]` and `v.last()` of the empty list | `x` in `{0}`, `a = [5]`, `y` in `{0}`: no index supports a value of y | fail the model at once when no value of y is supported | not executed | Element.ArrayIntElementAsWritten, Element.ArrayIntElementEmptyRead | Element.ArrayIntElement |
| chuffed/primitives/element.cpp:268 | the scan runs `while (i <= a.size())` and reads `a[a.size()]` when x admits that value | `x` in `{0, 1}`, `a = [[5, 5]]`, `y` in `[0, 0]` | stop at `i < a.size()` | not executed | ElemBounds.ScanAsWritten, ElemBounds.ScanReadsPastEnd | ElemBounds.Scan |
| chuffed/primitives/element.cpp:49 | `a.size() - 1 + offset` is unsigned and wraps when `offset < 1 - |a|`, so x keeps its upper values and the loop at lines 52-59 reads past `a` | `a = [7]`, `offset = -5`, `x` in `[-5, 0]` | bound x by `offset + |a| - 1` in signed arithmetic | not executed | Element.NarrowIndexAsWritten, Element.PrepareAsWritten, Element.ArrayIntElementAsWritten, Element.NarrowIndexWraps | Element.NarrowIndex, Element.ArrayIntElement |
| chuffed/globals/lex.cpp:28 | for empty vectors with `strict`, the unsigned bound `x.size() - 1 + 1` wraps to 0, nothing is posted, and the constraint is trivially true | `x = y = []`, strict | empty vectors are never strictly ordered, so the model fails | not executed | Lex.LexPost, Lex.LexEmptyStrictAdmits | Lex.LexPostChecked |
| chuffed/globals/sym-break.cpp:12 | for empty `x` the bound `x.size() - 1` wraps around and `x[0]` is read | `x = []` | post nothing | not executed | SymBreak.VarSymBreakAsWritten, SymBreak.VarSymBreakEmptyReads | SymBreak.VarSymBreak |
| chuffed/globals/regular.cpp:67-80 | with one variable no state variable is created, yet `y[0]` and `y.last()` are read | `|x| = 1` | check the single symbol against the accepting transitions out of `q0` | not executed | Regular.RegularAsWritten, Regular.RegularSingleReads | Regular.RegularPost |
| chuffed/mdd/MDD.cpp:95-99 | with no edges pushed and no `expand`, `insert` returns `stack[start].dest`, past the end of the stack | a node on variable 0 with low TRUE and no edges, as `expand(0, TRUE)` creates | return `low` | not executed | MddNodes.InsertAsWritten, MddBuild.ExpandedTrueHasNoEdges | MddNodes.Insert |
| chuffed/mdd/MDD.cpp:465-472 | `mdd_exist` on the quantified variable folds the edge destinations from FALSE and ignores `low` | `x0 < 5` (low TRUE, edge at 5 to FALSE): the result is FALSE | fold from `low` | not executed | MddOps.ExistAsWrittenDropsLow | MddOps.Unary |
