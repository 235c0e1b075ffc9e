# Verified models of the autobench algorithms

This project models the self-contained algorithms of autobench in Dafny and proves what they promise. Floating point numbers are real numbers. Clocks, VM creation, VM health and thread schedules are arbitrary. Judges, terrain, reaction, distance field, shader and the conversions `int()` and the HTTP status parser are arbitrary functions passed as parameters.

`dafny verify dfyconfig.toml` checks everything.

| file | what it models |
|---|---|
| `WordSubstitution.dfy`, `WordPositions.dfy` | the word-boundary substitution, its inverse, and its description by positions |
| `RenameVerifier.dfy`, `RenameReach.dfy` | the rename verifier with its Python-AST backend: in-place tree rewriting, drift, residual count, verdict; what it reaches, by node classes and paths |
| `RateWindow.dfy`, `BudgetGuard.dfy` | the sliding-window request guard, the dollar guard and their composite |
| `MaskedDiffusion.dfy`, `CompositionOracle.dfy` | the masked Allen-Cahn solver and the scene score, for any grid size and step count |
| `PredictionContract.dfy`, `PredictionPlaces.dfy`, `JointOutcomes.dfy` | live refutation, clipping and compaction of predictions; which entries they pick; when all deltas can come true together |
| `Diversity.dfy` | skill-aware cosine similarity and the diversity penalty |
| `Votes.dfy`, `JudgePool.dfy` | vote aggregation and the threaded judge pool |
| `HttpReader.dfy`, `HttpMessages.dfy`, `VmPool.dfy` | the HTTP response reader, the heads it understands, and the micro-VM pool |
| `Metrics.dfy`, `SessionIds.dfy`, `SphereMarch.dfy`, `PingPong.dfy` | Pareto frontier and running means, identifiers, ray marching, ping-pong buffers |
| `Options.dfy`, `Sequences.dfy`, `Counts.dfy`, `Clocks.dfy`, `RealFacts.dfy`, `IntFacts.dfy` | optional values, sequences taken at their end, dictionaries of counts, a non-decreasing clock, arithmetic facts |

## Where the code differs from its own documentation

The models follow the code. Each of these is a lemma with the exact condition or a concrete input.

- `audit/refactor_verifier.py:240-241` says that two files differing only by the rename have identical dumps. This fails when an identifier that the renamer does not reach mentions the old name (`FullRenameRestoresExactly`): keyword arguments, exception handler and match capture names, type parameters and the module of an import-from have no visitor, and the annotation of an argument is not descended into. So a parameter that is renamed together with its keyword arguments is rejected (`RenamedKeywordIsRejected`), one whose keyword arguments were forgotten is accepted (`ForgottenKeywordIsAccepted`), and no accepted rename changes any such identifier (`AcceptedKeepsUnreached`). If the old name is used in an argument annotation as a whole identifier, the residual count does look at it, so that no after tree is accepted, renamed or not (`AnnotatedUseIsNeverAccepted`). It also fails when the new name can be read across a renamed place (`OverlapBreaksTheInverse`) and when renamed places touch and merge (`MergingBreaksTheInverse`). Rewriting back can also merge places, so that an accepted text never contained the old name as a word (`TouchingWordsMerge`); this needs a new name with a separator at both ends (`WordsOfBothTexts`).
- Doing nothing at all is accepted if and only if the new name occurs at no visited identifier and the old name is no indexed identifier (`UntouchedIsAcceptedExactly`); for example an import left under its old name, because the residual count ignores import aliases (`UnrenamedImportIsAccepted`).
- `audit/ahe.py:375-376` says that a prediction is refuted if and only if one of its deltas has become unachievable. With baseline zero both halves can fail: a rise is refuted although the remaining cases can still supply it, and a fall, which can never happen, is not refuted while as many cases remain (`RefutesExactly`, `LiveRefutationExactly`). A later case may lift the first kind of refutation (`RefutationLiftedExactly`). Deltas that are achievable one by one need not be achievable together (`FailsOnlyTogetherExactly`).
- `audit/budget_guard.py:365-369` promises the time until a slot is free. After the cap was overrun without checks it can be too short, also when it is zero because the oldest entry expired between the two clock readings (`WakeUpExactly`, `OverrunWakesTooEarly`). A cap below one request still admits one (`EffectiveMax`).
- `composition_oracle/__init__.py:155` describes a dry neighbour as zero; the code uses the cell's own value, which is what makes the mass balance hold. The dry-land share (`composition_oracle/__init__.py:17`) is always one, so scores start at 0.3, not 0 (`EveryValidSceneScores`).
- `metrics.py:100-106` compares costs the other way round than the frontier function (`PointDominatesAgreesExactly`).
- `engines/sdf_tracer.py:89-90` paints a surface hit whenever the range was not reached. A march that used up its 96 steps need not be near any surface (`HitOrBackground`, `ConstantFieldIsHitExactly`).
- `audit/session_state.py:33` calls identifiers monotonic. Within one millisecond they sort by their random part (`UlidsSortByTimeThenRandom`).

## Model

| member | source | states |
|---|---|---|
| WordSubstitution.InverseExactly | audit/refactor_verifier.py:254-263 | substituting forth and back restores a text if and only if the new name can be read in the renamed text only where the rename wrote it and no two renamed places merge, for all names and all preceding characters |
| WordSubstitution.RenameInverse | audit/refactor_verifier.py:250-263 | the same for the substitution as called, on every string and for any two different names |
| WordSubstitution.SpellingsDetermine | audit/refactor_verifier.py:254-263 | if two names differ in their first or last character, a text and its renamed form determine where the name was replaced |
| WordSubstitution.NeverMerges | audit/refactor_verifier.py:254-263 | only a name with separators at both ends that is replaced by a name without can merge |
| WordSubstitution.FreshNameIsRestorableExactly | audit/refactor_verifier.py:254-263 | for a text in which the new name is not already a word, and a new name that cannot overlap itself, the condition holds if and only if nothing merges, which is always so when both names, or neither, have separators at both ends; excluded is only a new name with separators at both ends for an old one without |
| WordSubstitution.NestedNamesRestoreExactly | audit/refactor_verifier.py:254-263 | for an old name without underscores and a new one with separators at both ends: all texts are restored, or all in which the new name is not already a word, if and only if the new name contains the old one as a word |
| WordSubstitution.NameThenOldIsNotRestored | audit/refactor_verifier.py:254-263 | if it does not, the new name followed by the old one is such a text and is not restored |
| WordSubstitution.PlainInverseExactly | audit/refactor_verifier.py:254-263 | for names without underscores the inverse holds if and only if the new name was not a word of the text |
| WordSubstitution.UnchangedExactly | audit/refactor_verifier.py:254-263 | a substitution by a different name leaves a text alone if and only if the sought name is not a word of it |
| WordSubstitution.OverlapBreaksTheInverse | audit/refactor_verifier.py:254-263 | a fresh new name for which the inverse law fails |
| WordSubstitution.MergingBreaksTheInverse | audit/refactor_verifier.py:254-263 | two touching places that merge, for which the inverse law fails |
| WordSubstitution.AcceptedIsWordRename | audit/refactor_verifier.py:254-263 | if rewriting back gives the before text, the after text is the before text with some occurrences of old turned to new and every other character kept; each is a whole word of the after text, and a whole word of the before text unless they touch, which takes a new name with separators at both ends and an old name without |
| WordSubstitution.WordsOfBothTexts | audit/refactor_verifier.py:254-263 | exactly when whole words of the after text are whole words of the before text |
| WordSubstitution.TouchingWordsMerge | audit/refactor_verifier.py:254-263 | an accepted pair whose before text does not contain the old name as a word |
| WordSubstitution.WholeNameBecomesNew | audit/refactor_verifier.py:254-263 | the old name itself can only have stayed or become the new name |
| WordPositions.AlnumExactly | audit/refactor_verifier.py:250-254 | the characters that words are made of are the 62 ASCII letters and digits; all others, the underscore too, separate words |
| WordPositions.HasWordExactly | audit/refactor_verifier.py:250-254 | a text has a word if and only if the word stands at some position with no letter or digit at either side |
| WordPositions.LeftmostIsReplaced | audit/refactor_verifier.py:250-263 | the leftmost match is replaced, and the rest is treated as text after the replaced word |
| WordPositions.NoMatchNoChange | audit/refactor_verifier.py:250-263 | without a match nothing changes |
| RenameVerifier.AstNode.constructor | audit/refactor_verifier.py:246 | a parsed tree is built bottom-up from separate subtrees |
| RenameVerifier.AstNode.Substitute | audit/refactor_verifier.py:265-308 | assigning the identifier fields changes nothing else |
| RenameVerifier.AstNode.Visit | audit/refactor_verifier.py:265-308 | the in-place visit turns the tree into exactly the specified rewriting of the old tree |
| RenameVerifier.AstNode.VisitChildren | audit/refactor_verifier.py:270-288 | visiting the children one after the other rewrites each of them and nothing else |
| RenameVerifier.SelfRewriteIsIdentity | audit/refactor_verifier.py:250-252 | with equal names the dump is that of the unchanged tree |
| RenameVerifier.CountUses | audit/refactor_verifier.py:212-221 | the breadth-first walk counts every whole-identifier use in the indexed classes, annotations included |
| RenameVerifier.IdentifierIndex | audit/refactor_verifier.py:199-224 | lists, in path order, exactly the parseable files with a use, and the sum of the counts |
| RenameVerifier.FallbackAstDrift | audit/refactor_verifier.py:313-346 | lists, in path order, exactly the files that drift: one-sided, unreadable, or with different dumps |
| RenameVerifier.AcceptsExactly | audit/refactor_verifier.py:430-442 | acceptance means that the drift list and the list of residual files are both empty |
| RenameVerifier.Verify | audit/refactor_verifier.py:390-450 | RT if and only if the tests failed; RV if and only if they did not and neither drift nor a residual use exists; the reported files are the drift list if it is not empty, else for RD the residual files, else none |
| RenameVerifier.RewriteBackMeansOnlyRenamed | audit/refactor_verifier.py:265-310 | equal dumps mean the same shape and payloads, untouched annotations, and word renames at the visited identifiers |
| RenameVerifier.NoResidualMeansOldBecameNew | audit/refactor_verifier.py:213-221 | together with a zero residual count every visited use of the old name became the new name |
| RenameVerifier.AcceptedRenameIsSound | audit/refactor_verifier.py:390-442 | soundness of RV over whole repositories: same files, each either the same unparseable text or a pair of trees differing by the declared rename only, with no residual use |
| RenameVerifier.RewriteFixesExactly | audit/refactor_verifier.py:265-310 | rewriting leaves a tree alone if and only if the sought name is no word of a visited identifier |
| RenameVerifier.UntouchedIsAcceptedExactly | audit/refactor_verifier.py:390-442 | a repository in which nothing was renamed is accepted if and only if its files are readable, the new name is at no visited identifier and the old name is no indexed identifier |
| RenameVerifier.UnrenamedImportIsAccepted | audit/refactor_verifier.py:213-221 | an instance: an import alias left under its old name passes |
| RenameVerifier.RewriteInverse | audit/refactor_verifier.py:265-310 | renaming a tree at the visited places and rewriting it back is the identity if and only if every visited identifier meets the inverse condition, for any two different names |
| RenameVerifier.RenamedRepoDriftsExactly | audit/refactor_verifier.py:330-345 | exactly when a file of a renamed repository drifts |
| RenameVerifier.RenamedRepoIsDriftFreeExactly | audit/refactor_verifier.py:313-346 | the drift list of a renamed repository is empty if and only if all files are readable and clean |
| RenameVerifier.FreshRenameHasNoDrift | audit/refactor_verifier.py:313-346 | completeness: renaming to a fresh name that cannot overlap itself gives the empty drift list, if both names, or neither, have separators at both ends |
| RenameVerifier.RewriteKeepsUseExactly | audit/refactor_verifier.py:212-221 | a rename at the visited places leaves a residual use if and only if a visited identifier becomes the old name or the old name is used where the renamer does not go |
| RenameVerifier.RenamedRepoAcceptedExactly | audit/refactor_verifier.py:390-442 | completeness of the verdict: a repository renamed at the visited places is accepted if and only if its files are readable, the visited identifiers are clean and no residual use is left |
| RenameVerifier.FullRenameFixesExactly | audit/refactor_verifier.py:265-310 | a rename at all identifiers, with or without a visitor, leaves a tree alone if and only if no identifier mentions the old name |
| RenameVerifier.FullRenameRestoresExactly | audit/refactor_verifier.py:265-310 | rewriting a tree that was renamed at all identifiers gives the before tree if and only if the visited identifiers are clean and no identifier out of the renamer's reach (of a class without visitor, or in an argument annotation) mentions the old name |
| RenameVerifier.FullRenameLeavesUsesExactly | audit/refactor_verifier.py:212-221 | a rename everywhere leaves a residual use if and only if it turns some indexed identifier into the old name |
| RenameVerifier.FullRenameAcceptedExactly | audit/refactor_verifier.py:390-442 | a rename of a repository at all identifiers is accepted if and only if its files are readable, the visited identifiers are clean, no identifier out of reach mentions the old name, and no indexed identifier becomes the old name |
| RenameVerifier.IdentifierBecomesExactly | audit/refactor_verifier.py:254-263 | a clean identifier becomes the old name if and only if it is the old name rewritten back and that can be undone; the new name is then a word of the old one |
| RenameVerifier.BecomingNeedsNewInOld | audit/refactor_verifier.py:212-221 | for a new name that is no word of the old one, no identifier of a clean tree becomes the old name |
| RenameVerifier.AnnotatedUseIsNeverAccepted | audit/refactor_verifier.py:290-292 | if an argument annotation uses the old name, no after tree at all is accepted |
| RenameVerifier.AcceptedKeepsUnreached | audit/refactor_verifier.py:265-310 | whatever was done, an accepted after tree has exactly the identifiers of the before tree wherever the renamer does not reach |
| RenameVerifier.RenamedKeywordIsRejected | audit/refactor_verifier.py:265-310 | an instance: a renamed keyword argument is rejected |
| RenameVerifier.ForgottenKeywordIsAccepted | audit/refactor_verifier.py:265-310 | an instance: a renamed parameter with a forgotten keyword argument is accepted |
| RenameReach.RewriteReachesExactly | audit/refactor_verifier.py:265-302 | for every tree and path: the identifiers there become their renames if and only if the node is a Name, FunctionDef, AsyncFunctionDef, ClassDef, Attribute, arg, alias, Global or Nonlocal with no Name, arg, alias, Global or Nonlocal above it; everything else stays |
| RenameReach.UsesExactly | audit/refactor_verifier.py:200-226 | a use is counted if and only if some path leads to a Name, function, class, Attribute or arg whose identifier is the name |
| RenameReach.OrdinaryRenameIsAccepted | audit/refactor_verifier.py:285-302 | for any nesting of names, attributes, calls, functions and classes, an honest rename to a plain name that occurs nowhere is accepted |
| RateWindow.EveryWindowIsCapped | audit/budget_guard.py:340-395 | in any run whose requests each follow a positive check, every window of the configured length, sampled or not, holds at most the cap |
| RateWindow.UngatedOverfills | audit/budget_guard.py:340-345 | one unchecked request overfills a full window |
| RateWindow.RecordRefines | audit/budget_guard.py:340-345 | appending to the pruned deque and pruning again is the same as appending to the full history and keeping the live part |
| RateWindow.WakeUpExactly | audit/budget_guard.py:365-377 | after the announced delay a slot is free if and only if fewer than the cap are live, or the entry that has to expire is as old as the oldest, or has expired already |
| RateWindow.WakeUpOfLogExactly | audit/budget_guard.py:365-377 | the same for the history of any client, gated or not, over the two clock readings |
| RateWindow.OverrunWakesTooEarly | audit/budget_guard.py:365-377 | an overrun window for which the delay is too short |
| RateWindow.WakeUpIsExactWhenGated | audit/budget_guard.py:365-395 | in a gated run a later check says yes exactly from the announced moment on, and the window never exceeds the cap |
| BudgetGuard.EffectiveMax | audit/budget_guard.py:322-327 | the effective cap is the largest whole number not above max_requests less the margin, but at least 1; without a margin it is max_requests, with a full margin 1 |
| BudgetGuard.UsualCap | audit/budget_guard.py:297-299 | the default of 15000 requests and a margin of 0.05 gives 14250 |
| BudgetGuard.DueExactly | audit/budget_guard.py:412-423 | the thresholds due are those of 50, 80 and 100 per cent of the cap that the count has reached |
| BudgetGuard.RateBudgetGuard.constructor | audit/budget_guard.py:309-327 | a new guard is empty with the cap reduced by the margin |
| BudgetGuard.RateBudgetGuard.Prune | audit/budget_guard.py:333-338 | popping from the front keeps exactly the entries later than the cutoff read from the clock |
| BudgetGuard.RateBudgetGuard.CurrentCount | audit/budget_guard.py:351-354 | counts the requests of the whole history in the window ending now |
| BudgetGuard.RateBudgetGuard.RecordRequest | audit/budget_guard.py:340-345 | the history grows by one request, the deque stays its live part, the thresholds reached are marked, and only true announcements are emitted |
| BudgetGuard.RateBudgetGuard.FractionUsed | audit/budget_guard.py:360-363 | the share of the cap used by the requests of the history in the window |
| BudgetGuard.RateBudgetGuard.TimeUntilAvailable | audit/budget_guard.py:365-377 | the delay computed over two clock readings; after it a slot is free under exactly that condition, and for a gated client a later check says yes from that moment on and not before |
| BudgetGuard.RateBudgetGuard.Check | audit/budget_guard.py:379-395 | says yes if and only if fewer than the cap of all recorded requests are in the window ending now |
| BudgetGuard.RateBudgetGuard.EmitRate | audit/budget_guard.py:425-443 | one event is emitted whose count, fraction and delay are true of the recorded requests at successive clock readings; requests are untouched by the extra prunings |
| BudgetGuard.RateBudgetGuard.Consider | audit/budget_guard.py:414-423 | a threshold is announced if and only if it is reached and not yet announced, with true figures |
| BudgetGuard.RateBudgetGuard.MaybeEmitThreshold | audit/budget_guard.py:412-423 | exactly the thresholds reached are added to the fired ones, each announced at most once over the guard's life; every event emitted is an announcement with figures true of the log at successive readings |
| BudgetGuard.RateBudgetGuard.HaltNow | audit/budget_guard.py:401-406 | the halt event is emitted the first time only, with figures true of the log at successive readings |
| BudgetGuard.RateBudgetGuard.GatedClientIsCapped | audit/budget_guard.py:379-395 | in every reachable state of a gated guard all windows are within the cap |
| BudgetGuard.CostBudgetGuard.RecordCost | audit/budget_guard.py:129-134 | the cost is the total of the non-negative charges; others are ignored |
| BudgetGuard.CostBudgetGuard.Check | audit/budget_guard.py:162-182 | dollars first, then wall time; a cap of zero or less disables the dollar check |
| BudgetGuard.CompositeBudgetGuard.RecordRequest | audit/budget_guard.py:467-470 | both guards record; a request after a positive check keeps the run gated |
| BudgetGuard.CompositeBudgetGuard.Check | audit/budget_guard.py:476-488 | the rate guard is asked first and wins; if it agrees, the answer is yes if and only if neither the dollar cap nor the wall time is reached; a yes implies a positive check of the rate guard |
| MaskedDiffusion.LaplacianIsFluxBalance | composition_oracle/__init__.py:156-160 | the masked stencil is the balance of four fluxes that vanish at the rim of the water |
| MaskedDiffusion.MassBalance | composition_oracle/__init__.py:152-166 | one step changes the total of every body of water by dt times its summed reaction |
| MaskedDiffusion.MassBalanceOfRun | composition_oracle/__init__.py:151-167 | the same over any number of accepted steps |
| MaskedDiffusion.MassBalanceOfAllWater | composition_oracle/__init__.py:151-167 | in particular the total over all wet cells changes by exactly what the reaction supplied to them |
| MaskedDiffusion.MaximumPrinciple | composition_oracle/__init__.py:156-163 | a step keeps wet values in their range moved by dt times the reaction's extremes |
| MaskedDiffusion.RunStaysInRange | composition_oracle/__init__.py:149-167 | after s accepted steps wet values lie in the initial range widened by 0.9 s, and dry cells are zero |
| MaskedDiffusion.StepInNumbers | composition_oracle/__init__.py:152-163 | a wet cell keeps 28 percent of its value and takes 18 percent of what the stencil reads on each side and 0.018 of the reaction |
| MaskedDiffusion.LevelWaterRises | composition_oracle/__init__.py:151-167 | over a constant reaction between -50 and 50 level water moves by 0.018 of it in every step, for any number of steps |
| MaskedDiffusion.StrongReactionStops | composition_oracle/__init__.py:162 | over any other constant the run stops if there is water |
| CompositionOracle.ReadTerrain | composition_oracle/__init__.py:118-126 | fills the height grid and finds the extremes, or fails if and only if a sample is not finite |
| CompositionOracle.Normalise | composition_oracle/__init__.py:130 | every height is shifted and scaled |
| CompositionOracle.FillScene | composition_oracle/__init__.py:135-142 | mask, temperatures and unseeded field of every cell |
| CompositionOracle.PlantSeed | composition_oracle/__init__.py:144-147 | exactly the wet cells of the five by five block around the centre are raised |
| CompositionOracle.SetScene | composition_oracle/__init__.py:130-147 | heights, field, temperatures and mask are those of the specified scene |
| CompositionOracle.StartExactly | composition_oracle/__init__.py:132-147 | at the start land is at 0, water at 0.05, and water in the five by five block around the centre at 0.65 |
| CompositionOracle.TemperatureExactly | composition_oracle/__init__.py:135-141 | a cell is at 0.25 if its squared distance from the centre is below (0.3 n) squared, else at 0.75 |
| CompositionOracle.SweepRow | composition_oracle/__init__.py:152-165 | one row of the new buffer from the old grid, or a stop if and only if a reaction diverged in it |
| CompositionOracle.SweepAll | composition_oracle/__init__.py:152-165 | the whole new buffer is one simultaneous step |
| CompositionOracle.Evolve | composition_oracle/__init__.py:151-167 | the two-buffer loop computes the iterated step, or reports divergence if and only if that run stops |
| CompositionOracle.Score | composition_oracle/__init__.py:170-198 | the counting loops give the specified shares and weighted score of any grids |
| CompositionOracle.EvolveAndScore | composition_oracle/__init__.py:149-204 | the outcome is 0.5, 0.3 and 0.2 of the shares of frozen cold water, untouched cold land and liquid warm water in the final field of the iterated step, counted as sets of cells; or a diverged reaction |
| CompositionOracle.ScoreBounds | composition_oracle/__init__.py:175-198 | with dry land at zero its share is 1, the score is in [0.3, 1], and it is 1 if and only if there is cold water, all of it froze and no warm water did |
| CompositionOracle.ScoreOfIsScore | composition_oracle/__init__.py:170-198 | the counters are cardinalities of sets of cells, written with the program's numbers, and the score is their weighted shares |
| CompositionOracle.ExtremeScores | composition_oracle/__init__.py:193-198 | with both kinds of water: 0.3 if and only if no cold water froze and all warm water did, 1 if and only if all cold water froze and no warm water did; all frozen gives 0.8, none frozen 0.5 |
| CompositionOracle.ExtremesOccurExactly | composition_oracle/__init__.py:118-126 | the extremes found are heights of the terrain if and only if some height does not exceed the starting value of 1e9, or is not below -1e9 |
| CompositionOracle.SceneHasWaterAndLand | composition_oracle/__init__.py:118-139 | heights of a terrain that is not rejected are normalised into [0, 1]; it has a wet cell at height 0 if and only if some sample is at most 1e9, and a dry cell at height 1 if and only if some sample is at least -1e9 |
| CompositionOracle.EveryValidSceneScores | composition_oracle/__init__.py:109-198 | every accepted terrain and reaction score in [0.3, 1] with the dry-land share at 1 |
| CompositionOracle.RefusalsExactly | composition_oracle/__init__.py:118-129 | a terrain is refused as not finite if and only if a sample is missing, and as flat if and only if all are there and spread less than 0.01 |
| CompositionOracle.SimulateTerrain | composition_oracle/__init__.py:127-204 | the program from the normalisation on: the outcome and the final field over the normalised heights |
| CompositionOracle.Simulate | composition_oracle/__init__.py:109-204 | refusals are exact; otherwise there are heights normalised from the samples and the final field over them, the fitness is 0.5, 0.3 and 0.2 of shares of sets of cells told by height below 0.4, squared distance from the centre below (0.3 n) squared, and field above or below 0.5, and it is in [0.3, 1] |
| PredictionContract.BoundsInClosedForm | audit/ahe.py:391-475 | the rate is 0 or 1, the deviation vanishes, and both bounds are whole numbers in closed form |
| PredictionContract.AchievableExactly | audit/ahe.py:361-363 | a delta can still be met if and only if the best outcome of the remaining cases meets it |
| PredictionContract.RefutesExactly | audit/ahe.py:526-556 | for every delta: the refutation is wrong if and only if it is a rise from baseline zero that the remaining cases can still supply; an unachievable delta is missed if and only if it is a fall from baseline zero by no more than the remaining cases would allow; otherwise refuted and unachievable coincide |
| PredictionContract.LiveRefutationExactly | audit/ahe.py:375-376 | a prediction is refuted exactly when a delta has become unachievable, if and only if one of its deltas is recognised as hopeless or it contains both kinds of misjudgement or neither |
| PredictionContract.FinalRefutationExactly | audit/ahe.py:415-416 | with no case left, refuted if and only if the actual delta falls short |
| PredictionContract.RefutationLiftedExactly | audit/ahe.py:526-556 | exactly when the next case lifts a refutation |
| PredictionContract.RefutationIsPermanent | audit/ahe.py:526-556 | a refutation of a fall, or with a baseline, survives every continuation |
| PredictionContract.RefuteLive | audit/ahe.py:478-566 | refuted if and only if some entry is; the reasons list those entries in order; unparseable and zero deltas are skipped; agrees with achievability under the same exact condition |
| PredictionPlaces.ReasonsExactly | audit/ahe.py:524-556 | the reasons are the entries that are refuted, each once and in order |
| PredictionContract.RefutedPredictionFails | audit/ahe.py:478-566 | no outcome meets all deltas of a refuted prediction whose rises have a baseline |
| JointOutcomes.JointlyAchievableExactly | audit/ahe.py:478-503 | one outcome of the remaining cases meets all deltas of distinct verdicts if and only if every fall holds already and the shortfalls of all rises together are at most the remaining cases |
| JointOutcomes.NoneFailsExactly | audit/ahe.py:361-363 | every delta is achievable by itself if and only if every fall holds and no single shortfall exceeds the remaining cases |
| JointOutcomes.FailsOnlyTogetherExactly | audit/ahe.py:478-503 | exactly when every delta is achievable by itself and no outcome meets all |
| JointOutcomes.CompetingRisesAreNotRefuted | audit/ahe.py:526-556 | two rises that each need all remaining cases are not refuted, yet cannot both come true |
| PredictionContract.ClipDelta | audit/ahe.py:638-655 | the clipped delta is the nearest point of the feasible interval and unchanged if and only if it was feasible |
| PredictionContract.ClipPrediction | audit/ahe.py:584-667 | clips every parseable delta in order, drops the others, keeps all other fields; the reasons are the entries that were not feasible, none if and only if nothing changed |
| PredictionPlaces.ClipExactly | audit/ahe.py:629-655 | what clipping keeps are the parseable entries, each once, in order, under their own verdicts and with the nearest feasible delta |
| PredictionPlaces.InfeasibleExactly | audit/ahe.py:629-655 | the reasons for clipping are the entries that were not feasible, each once and in order |
| PredictionContract.ClippedIsFeasible | audit/ahe.py:606-613 | every delta of a clipped prediction is feasible |
| PredictionContract.ClippingTwiceIsClippingOnce | audit/ahe.py:606-613 | clipping is idempotent |
| PredictionContract.FeasibleMeansAttainable | audit/ahe.py:606-613 | feasible if and only if some outcome of all cases produces the delta |
| PredictionContract.ClippedMeetsRefutation | audit/ahe.py:478-667 | before the first case a clipped prediction is refuted if and only if it predicts a rise from baseline zero |
| PredictionContract.RankedIsSorted | audit/ahe.py:749 | the ranking is a permutation with falling confidence |
| PredictionContract.RankedIsStable | audit/ahe.py:749 | the ranking keeps the input order of predictions with equal confidence and fingerprint |
| PredictionContract.CompactionFacts | audit/ahe.py:735-761 | kept and dropped partition the input; kept fingerprints are distinct, cover all, and have the highest confidence of their group; each kept one is the first in input order among the best of its group |
| PredictionContract.Compact | audit/ahe.py:735-761 | the same for the loop over mutable predictions, ties included: dropped ones become inactive duplicates, the others are untouched |
| Diversity.CauchySchwarz | evaluation/diversity.py:224-233 | the Cauchy-Schwarz inequality in any dimension |
| Diversity.CosineInRange | evaluation/diversity.py:224-233 | the cosine lies in [-1, 1] |
| Diversity.CosineExactly | evaluation/diversity.py:224-233 | the cosine times both norms is the dot product; it is zero if a norm is below 1e-12 |
| Diversity.CosineIsOneExactly | evaluation/diversity.py:224-233 | the cosine is 1 if and only if neither vector is negligible and they are positive multiples of each other |
| Diversity.GapExpands | evaluation/diversity.py:224-233 | the squared distance of two scaled vectors in terms of the dot products |
| Diversity.CosineSymmetric | evaluation/diversity.py:224-233 | the cosine is symmetric |
| Diversity.SelfCosine | evaluation/diversity.py:224-233 | a vector has cosine 1 with itself unless it is negligible |
| Diversity.OverlapInRange | evaluation/diversity.py:250-253 | the overlap is in [0, 1], is 1 if and only if the fields are equal and 0 if and only if they are disjoint |
| Diversity.SacsInRange | evaluation/diversity.py:236-254 | the similarity is symmetric, in [-1, 1], 0 for disjoint fields, and 1 if and only if the same fields were changed in the same direction by fingerprints that are not negligible |
| Diversity.SacsExactly | evaluation/diversity.py:236-254 | the similarity times the number of fields changed by either is the cosine times the number changed by both; zero without changes |
| Diversity.SacsSelf | evaluation/diversity.py:236-254 | a non-negligible fingerprint is fully similar to itself |
| Diversity.LineageDistanceInRange | evaluation/diversity.py:305-324 | the distance is symmetric and in [0, 1]; between changed lineages it is zero if and only if they changed the same fields in the same direction |
| Diversity.LineageDistanceExactly | evaluation/diversity.py:305-324 | 0 between two empty lineages, 1 between an empty and a changed one, else one minus the similarity if that is positive, and 1 if not |
| Diversity.PenaltyMonotone | evaluation/diversity.py:382-388 | the penalty grows with every similarity |
| Diversity.RecyclingReachesCeiling | evaluation/diversity.py:382-388 | total recycling reaches the ceiling of the penalty |
| Diversity.PenaltyInRange | evaluation/diversity.py:371-388 | the penalty lies between zero and its ceiling |
| Diversity.PenaltyExactly | evaluation/diversity.py:371-388 | zero in warm-up, else beta times the excess of the greatest similarity and 1 - beta times the excess of the mean, each over its own threshold |
| Diversity.PenaltyIsPositiveExactly | evaluation/diversity.py:382-388 | there is a penalty if and only if some single similarity exceeds tau_max with beta above 0, or the mean exceeds tau_mean with beta below 1 |
| Diversity.LargestIsMaximum | evaluation/diversity.py:385 | the largest similarity is an element and bounds all |
| Diversity.DiversityTracker.Record | evaluation/diversity.py:353-363 | the bank is always the last memory_size recorded entries |
| Diversity.DiversityTracker.PenaltyFor | evaluation/diversity.py:365-388 | computes that penalty from the similarities to the bank, zero during warm-up |
| Diversity.DiversityTracker.EveryPenaltyIsInRange | evaluation/diversity.py:371-388 | after any recording the penalty of any candidate is in range |
| Votes.DistributionCounts | evaluator/judging.py:129-131 | the dictionary holds each occurring verdict once with its number of votes |
| Votes.DistributionOrder | evaluator/judging.py:129-131 | its keys stand in the order of first occurrence |
| Votes.DistributionTotal | evaluator/engine.py:832-834 | the counts add up to the number of votes |
| Votes.ConsensusIsFirstMajority | evaluator/judging.py:128-132 | the consensus has the most votes and, among equals, was voted for first |
| Votes.OrderMattersExactlyOnTies | evaluator/judging.py:128-132 | the consensus is the same for all orders of the votes if and only if no other verdict ties |
| Votes.DissentBounds | evaluator/engine.py:835-840 | dissent is 0 if and only if the votes are unanimous and at most 1 - 1/k for k distinct verdicts |
| Votes.DissentIsShareAgainst | evaluator/engine.py:835-840 | dissent is the share of the votes that are not for the consensus |
| Votes.AggregateSummarises | evaluator/judging.py:123-139 | the verdict has most votes and was voted for first among equals; each mean times the number of votes is the total of that very field; no votes give OK, 0, 0.5, 0.5 |
| Votes.MeanScoreBetween | evaluator/judging.py:135 | the mean score lies between bounds of the scores and equals a bound if and only if all votes do |
| Votes.MeanCostBetween | evaluator/judging.py:136 | the same for the cost |
| Votes.MeanTimeBetween | evaluator/judging.py:137 | the same for the time |
| Votes.MeansIgnoreOrder | evaluator/judging.py:135-137 | the means are the same for every order of the votes |
| Votes.OneVoteIsItself | evaluator/judging.py:123-139 | a single vote is summarised by its own fields |
| Votes.CountVerdicts | evaluator/engine.py:832-834 | the counting loop builds that dictionary |
| Votes.AggregateVotes | evaluator/judging.py:123-139 | the loops give consensus and the mean of each field, with the defaults for no votes |
| JudgePool.Evaluate | evaluator/judging.py:141-169 | the sequential evaluation collects the slot votes in order and returns their consensus and the mean of each field |
| JudgePool.SlotVoteExactly | evaluator/judging.py:96-121 | a slot votes if and only if its judge answers with readable numbers, and the vote has the answer's own verdict and numbers, OK for an unknown verdict and a half for a missing number |
| JudgePool.AnonymousExactly | evaluator/engine.py:763-772 | in a pool a reply that is not a dictionary votes OK with zeros, all others vote as they do alone |
| JudgePool.VotesExactly | evaluator/judging.py:157-164 | the votes are those of the slots that vote, once each, in slot order |
| JudgePool.ExecAgrees | evaluator/engine.py:803-824 | in every reachable state threads, lock and dictionary agree |
| JudgePool.MutualExclusion | evaluator/engine.py:804-811 | at most one thread is inside the lock |
| JudgePool.NeverStuck | evaluator/engine.py:803-824 | no reachable state is stuck and every move uses up bounded work |
| JudgePool.ScheduleDoesNotMatter | evaluator/engine.py:803-826 | every interleaving that finishes gives the sequential votes in slot order |
| JudgePool.SummarisePool | evaluator/engine.py:826-840 | distribution, consensus, the mean of each field and dissent from the dictionary |
| JudgePool.ScoreWithPool | evaluator/engine.py:803-840 | a pool run under any scheduler terminates with the summary, distribution and dissent of the sequential votes of the wrapped judges |
| HttpReader.HeaderEndInPrefix | engines/firecracker_vm.py:143-150 | the header end of a stream is seen in a prefix exactly when the prefix is long enough |
| HttpReader.ReadHeader | engines/firecracker_vm.py:142-150 | reads the shortest run of chunks that completes the header |
| HttpReader.ReadTo | engines/firecracker_vm.py:174-179 | reads the shortest run of further chunks that reaches the announced length |
| HttpReader.RecvResponse | engines/firecracker_vm.py:139-179 | loses no byte, never blocks on a complete message, and reads exactly the chunks up to the announced length |
| HttpReader.ChunkingMattersExactlyPastTheEnd | engines/firecracker_vm.py:139-179 | what is read is the same for all chunkings if and only if nothing follows the announced message |
| HttpReader.Receive | engines/firecracker_vm.py:139-208 | one response from the socket to the answer: empty and unterminated streams and bad status lines fail each in its way, a status from 400 on is an error, else status and body come back, the body not shorter than announced unless the stream is |
| HttpMessages.LengthLineExactly | engines/firecracker_vm.py:154-156 | a line is taken for the length field if and only if it starts with content-length and a colon, each letter in either case |
| HttpMessages.LinesOfJoin | engines/firecracker_vm.py:154 | splitting inverts joining with CRLF for lines without CRLF |
| HttpMessages.ContentLengthFound | engines/firecracker_vm.py:152-163 | the length of a head is the number in the first header line that starts with such a spelling |
| HttpMessages.ContentLengthMissing | engines/firecracker_vm.py:152-163 | a head without such a line has no length |
| HttpMessages.HeadIsFound | engines/firecracker_vm.py:142-150 | a head joined from non-empty lines without CRLF ends where the header end is found |
| HttpReader.ReceiveMessage | engines/firecracker_vm.py:139-208 | a message whose length field is its body length comes back with its own status and body from every chunking, also on an open connection |
| HttpMessages.ReceiveLines | engines/firecracker_vm.py:139-208 | the same for every status line and every list of header lines with a length field in any spelling, which includes the three usual ones |
| VmPool.StepKeepsInvariant | engines/firecracker_vm.py:539-607 | every pool event keeps available and held VMs disjoint and duplicate-free, ids and CIDs distinct, every VM whose creation succeeded either tracked or stopped, and the size bound |
| VmPool.EveryRunKeepsInvariant | engines/firecracker_vm.py:539-607 | the same over every run in which clients release only what they hold |
| VmPool.ReleaseExactly | engines/firecracker_vm.py:583-598 | a release keeps the invariant if and only if the VM is held, or is stopped already and its repeated replacement, if it starts, still fits the size |
| VmPool.UnheldReleaseBreaks | engines/firecracker_vm.py:583-598 | what the release of a VM that is not held does: an available one that responds is offered twice, one that does not is stopped and still offered, a stopped one is replaced once more |
| VmPool.DoubleReleaseHandsOutTwice | engines/firecracker_vm.py:583-589 | from every state in which a VM is held: after a double release two clients get it |
| VmPool.FirstVmIsHeld | engines/firecracker_vm.py:561-581 | such a state, with VM 1 on CID 4, is one creation away from the empty pool |
| VmPool.FirecrackerPool.constructor | engines/firecracker_vm.py:517-544 | pre-warming tries pool_size creations, none without KVM; every VM that started is available |
| VmPool.FirecrackerPool.CreateVm | engines/firecracker_vm.py:546-559 | every attempt uses up a number; a VM whose creation succeeded has that number and the CID 3 above it |
| VmPool.FirecrackerPool.TakeLast | engines/firecracker_vm.py:566-569 | the last available VM becomes held |
| VmPool.FirecrackerPool.Attempt | engines/firecracker_vm.py:566-577 | one turn: an available VM is taken, the last one; else a creation is tried if and only if fewer than pool_size are held |
| VmPool.FirecrackerPool.LastDitch | engines/firecracker_vm.py:578-581 | past the deadline one creation is tried whatever the size |
| VmPool.FirecrackerPool.Wait | engines/firecracker_vm.py:564-577 | the loop turns if and only if its first reading is before the deadline; an available VM is then taken at once; it ends without a VM only when the deadline has passed |
| VmPool.FirecrackerPool.Acquire | engines/firecracker_vm.py:561-581 | with KVM: an available VM is handed out as the only event unless the first reading is past the deadline; otherwise there are only failed creations, one in each turn if fewer than pool_size are held, then a successful one or, once the time is out, a last one whatever the size, which alone may fail the call; turns take a tenth of a second; the state is one that allowed events lead to and the VM was held by nobody |
| VmPool.FirecrackerPool.Release | engines/firecracker_vm.py:583-598 | a VM that runs and responds goes to the end of the available ones; any other is stopped and a new one tried in its place; it is held no more in any case; the pool stays in a reachable state if the VM was held |
| VmPool.FirecrackerPool.ShutDown | engines/firecracker_vm.py:600-607 | all VMs, available and held, are stopped and leave the pool |
| Metrics.ComputeParetoFrontier | metrics.py:109-145 | the nested loops return exactly the undominated indices in ascending order |
| Metrics.DominatesExactly | metrics.py:122-145 | a point dominates another one if it is in no respect worse: quality and speed at least as high, cost at most as high |
| Metrics.FrontierMembers | metrics.py:109-145 | membership and order of the frontier |
| Metrics.OmittedIsDominatedByReturned | metrics.py:109-145 | every omitted point is dominated by a returned one |
| Metrics.FrontierIsNotEmpty | metrics.py:122-145 | a non-empty list has a non-empty frontier |
| Metrics.PointDominatesAgreesExactly | metrics.py:100-106 | the point method agrees with the frontier test on negated costs, and exactly when on raw costs |
| Metrics.AutobenchMetrics.Record | metrics.py:31-52 | the running averages are the true means of the whole history, the counts its verdict counts |
| Metrics.AutobenchMetrics.AveragesAreTrue | metrics.py:31-52 | in every state each average is the mean of its own field over all recorded results, each count the multiplicity of its verdict |
| Metrics.AutobenchMetrics.Merge | metrics.py:54-89 | merging is recording the other history, also for merging into itself |
| SessionIds.EncodeDigits | audit/session_state.py:42-50 | the digit loop and the reversal give the base-32 digits, most significant first |
| SessionIds.GenerateUlid | audit/session_state.py:30-50 | the identifier is that encoding of the packed pair and passes the validity pattern |
| SessionIds.DigitOfChar | audit/session_state.py:17-27 | the alphabet has 32 different characters, all in the pattern's class |
| SessionIds.DecodeEncode | audit/session_state.py:42-50 | decoding k digits gives the value modulo 32 to the k |
| SessionIds.InClassExactly | audit/session_state.py:17-27 | the pattern's class is the 32 characters of the alphabet, and each stands for its own digit |
| SessionIds.EncodeDecode | audit/session_state.py:42-50 | encoding the value of any string over the alphabet gives the string back |
| SessionIds.ValidExactly | audit/session_state.py:17-50 | the validity pattern accepts the identifiers of all pairs of a timestamp below 2 to the 50 and 80 random bits, with or without a final line feed, and nothing else |
| SessionIds.PackedPairDecodes | audit/session_state.py:39-50 | any packed pair decodes to its second part, and to its first if and only if that fits the remaining digits |
| SessionIds.UlidRoundTripExactly | audit/session_state.py:39-50 | an identifier decodes to its random part always and to its timestamp if and only if that is below 2 to the 50 |
| SessionIds.EncodeKeepsOrder | audit/session_state.py:42-50 | string order of encodings is the order of the encoded values |
| SessionIds.UlidsSortByTimeThenRandom | audit/session_state.py:33-50 | identifiers sort as pairs of timestamp and random part |
| SphereMarch.StepIsSafe | engines/sdf_tracer.py:82-86 | a march step keeps the field positive on the whole interval it covers and grows the distance by a fixed factor |
| SphereMarch.MarchStaysClear | engines/sdf_tracer.py:80-86 | on a Lipschitz ray that starts outside the field is positive on the whole stretch covered |
| SphereMarch.MarchGrows | engines/sdf_tracer.py:80-86 | as long as the march goes on, the distance after k steps is at least 0.001 times 1.001125 to the k |
| SphereMarch.HitOrBackground | engines/sdf_tracer.py:80-90 | where background is painted there is no surface in range; a painted hit is near a surface, or the steps ran out and the field came below (max_d - 0.001) / 72 on the way |
| SphereMarch.WideFieldIsBackground | engines/sdf_tracer.py:80-90 | over a field of at least 1 the background is painted for every range up to 72 |
| SphereMarch.ConstantFieldIsHitExactly | engines/sdf_tracer.py:80-90 | that bound is sharp: over a positive constant field a hit is painted if and only if the constant is below it or looks near at one of the equal steps within range, which no constant from 0.000002 on does |
| SphereMarch.March | engines/sdf_tracer.py:80-90 | the loop computes the specified march; no surface is jumped over, one in range is always painted, and painted hits are as stated |
| PingPong.RunPingPong | engines/shader_executor.py:591-621 | final state and snapshots are those of the two-buffer iteration; there are floor(n/r) snapshots, the k-th after k r steps |
| PingPong.RefinesIterationExactly | engines/shader_executor.py:591-621 | the loop refines plain iteration up to step n if and only if in no step before the stale content of the output buffer shows |
| PingPong.PartialKernelIteratesExactly | engines/shader_executor.py:591-621 | for a shader that may skip writes: if and only if every index a step leaves unwritten was left unchanged by the step before |
| PingPong.OverwritingKernelIterates | engines/shader_executor.py:570-571 | a shader that overwrites its output refines plain iteration |
| PingPong.UnwrittenIndexKeepsInitial | engines/shader_executor.py:596-605 | an index never written keeps its initial value |
| PingPong.PartialKernelAlternates | engines/shader_executor.py:596-605 | an instance in which a skipped write brings back the state before the last |

## Left out

- Floating point rounding, overflow and NaN propagation: values are reals; only results that the programs test for finiteness (terrain samples, reactions) can be absent.
- The ast-grep and difftastic backends, the tokenizer-based substitution and the test runner: foreign tools; the test outcome is a parameter.
- Parsing and `ast.dump`: files arrive as trees or unparseable text, and a dump is compared as the tree it prints. String constants are not identifiers; an unparseable file must stay as it is. Path sorting is the caller's: results follow the given enumeration.
- FreshNameIsRestorableExactly: for an old name that contains an underscore but not at both ends, and a new name with separators at both ends, only the general exact condition (RenameInverse) is given.
- AstNode.Visit: the transformer's replacement of child lists is not modelled, only the assignment of identifier fields.
- Event publishing, reasons as text, the exception raised by `halt`, dollar-guard thresholds and `halt` of the dollar and composite guards: the thresholds are the same code as in the rate guard.
- The re-entrance of a publisher callback into the guard: publishing has no effect in the model.
- CompositionOracle.Simulate: JSON output and process execution are not part of this model.
- RefuteLive: counts are non-negative, as their histograms are; reason texts are reduced to the verdict.
- Parsing and verifying predictions against finished iterations, and invalidation by scope key: no invariant beyond the bodies.
- The SHA-256 fingerprint and text normalisation: a fingerprint is an uninterpreted string.
- Building fingerprints and lineage means from deltas: vectors and field sets are arbitrary.
- Evaluate: a vote is identified by its slot; the judges' names and reasoning texts are left out, and so is the rejection of an empty pool.
- ScoreWithPool: join timeouts are not modelled; the claim is for runs in which all threads finish. Event emission and the metadata dictionary are left out.
- RecvResponse: a socket timeout while waiting for promised bytes, and how long the drain without a length field waits, are not modelled; the drain reads any number of chunks.
- ReceiveMessage: JSON decoding of the body is left out.
- CreateVm: a creation that fails after its process was spawned leaves that process running, neither tracked nor stopped (`engines/firecracker_vm.py:318-350`); the books speak of VMs whose creation succeeded.
- VM booting, vsock execution, artifact downloads and concurrent use of the pool: creation and health are arbitrary outcomes, calls are sequential; a deletion always stops the VM.
- March: shading after the march and the camera are left out.
- RunPingPong: shader compilation, errors and timing are left out.
