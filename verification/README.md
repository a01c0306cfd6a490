# Verified model of the Go utilities

A Dafny model of the six most intricate parts of the library, with proofs of what they promise. Every part has a
specification that does not follow the code, the code's algorithm in its own form, and theorems that connect the two.

**Self-referencing variables** (`hcl/ext/variables/variables.go`). A `variables` block is read as a system of equations
about the object `var`. `Expressions` has the expression language and its evaluation, `VariableTree` the tree of nodes
with longest-prefix lookup and the collapse of finished maps and lists, `Denotation` and `References` the meaning of a
definition and the graph of references, `VariableResolver` the depth-first evaluator as a class that marks nodes and
stores values, and `Variables` the main result: resolution finds the unique solution, or names what is wrong.

**Calendar schedules** (`timeutil/scheduler.go`). `Calendar` and `Clock` are the proleptic Gregorian calendar and the
time of day in a zone of fixed offset, with `time.Date`'s normalization of days that a month does not have. `Schedule`
has the six fields and the jumps of the search, `ScheduleSearch` the search as a whole, `ScheduleText` and
`ScheduledTicker` the text form, and `Scheduler` the ticker object and the loop that sends ticks.

**Decimal numbers** (`bn/decfixedpoint.go`, `bn/decfloatpoint.go`). `Rounding` shows that rescaling and division follow
one rounding rule. `Decimal`, `DecimalFloat` and `DecimalNumber` are fixed-point and floating-point arithmetic,
`DecimalText` and `DecimalBinary` the two external forms.

**Quorum of endpoints** (`rpcsplitter/resolver.go`, `rpcsplitter/server.go`). `Quorum` has the plurality resolver and the
loop that collects responses, `GasValue` the resolver that takes the lower of two numbers or the median of more.

**Channel multiplexers** (`chanutil/chainutil.go`). `FanOutSteps` and `FanInSteps` are transition systems whose steps are
the atomic actions of the goroutines under a mutex and a wait group; a step that Go would panic on sets `crashed`.
Theorems are about every run. `FanOut` and `FanIn` are the methods over the fields, each proved to be a run of steps.

**Interpolation** (`interpolate/interpolate.go`) and **metric windows** (`log/metrics/log.go`). `Interpolation` says what a
string with variables means, `InterpolationParser` is the parser that moves a position and fills buffers. `MetricWindow`
is the ring of slots with aggregated points, and `MetricHistory` says which points a reading aggregates.

`Numerals`, `Texts`, `Sorting` and `Options` hold what the parts share. To check all modules together, run
`dafny verify dfyconfig.toml` in this directory.

## Where code and documentation differ

The model follows the code.

- `ScheduledTicker.Next` is documented to return the next matching time. From the end of February it can jump past a
  matching day at the start of March: a listed day 30 or 31 is taken in February and overflows. `SkipProne` is the
  exact condition on the schedule, and `NextIsExact` proves both directions. A schedule with no possible date, such as
  31 April alone, makes it search for ever; `SearchHalts` gives the exact condition.
- `DecFloatPointNumber.Div` rounds twice when the larger precision is 238, because the intermediate precision of 256 is
  cut to 255 when it is stored. `RoundsTwice` is the exact condition on the operands.
- `SetPrec` is documented to round when the precision is lowered. Negative values are truncated toward zero, since the
  remainder test never fires for them. `RescalingIsHalfUp` and `RescalingIsOdd` say exactly when this shows.
- `MarshalBinary` drops the sign; `BinaryRoundTrip` says exactly which numbers survive.
- `FanIn.Close` is documented to be safe once all input channels are closed. A value that was read and not yet sent makes
  it panic; `ClosedInputsAreNotEnough` reaches such a state. The call is safe when the wait group is empty.
- A `var` reference whose first key is not defined falls through to the root node, which has no expression; evaluating
  it dereferences a nil expression. The model calls this outcome `Panic`.
- The gas resolver is documented to return the one value it has. Called directly with answers of several types, it
  returns the first answer even when that is not the one number; `OneNumberIsReturned` has the condition. Calls through
  the server only give it numbers, and for these the value returned is the number.
- A variable that is not closed is documented to be kept as a literal. The text after its opening token still loses the
  backslashes that escape something, and `UnclosedIsKept` says exactly when it does not change.
- A metric with a window of some minutes can aggregate points that have left the window, without a bound on how old they
  are: `ReadingIsCounted` has the exact points, `ReadingIsWindow` and `SumIsWindow` the condition under which they are
  those of the window, and `OldPointsStay` a history for every window in which no point is ever dropped.
- A metric aggregated with `Replace` has the value of the lowest slot with a point in the window, by
  `ReplaceReadsLowestSlot`; `ReplaceReadsNewest` has the exact condition under which that is the newest point.

## Model

| member | source | states |
|---|---|---|
| Variables.ResolveVariables | hcl/ext/variables/variables.go:53-78 | registration, resolution and the resulting object: succeeds exactly when the reference graph has no cycle, no reference is undefined and the definitions, read as equations about the `var` object, have a solution; the result is then the only solution. Each failure names its cause, and when nothing else is wrong a circular reference is reported exactly when there is a cycle |
| Variables.SolutionUnique | hcl/ext/variables/variables.go:226-302 | definitions that all have a meaning have at most one solution, so the order of resolution cannot matter |
| Variables.MeaningsSolve | hcl/ext/variables/variables.go:515-576 | the meanings of all variables put together satisfy every definition |
| Variables.ResolvedSolves | hcl/ext/variables/variables.go:515-576 | the object read from a fully resolved tree is the unique solution, and rules out cycles and undefined references |
| Variables.SolutionHoldsDen | hcl/ext/variables/variables.go:452-464 | every solution holds, at the path of each nested definition, the value that definition denotes |
| Variables.CyclicIsUndefined | hcl/ext/variables/variables.go:187-197 | a cycle of references leaves some variable without a meaning |
| Variables.DanglingIsUndefined | hcl/ext/variables/variables.go:452-464 | so does a reference to a variable that is not defined |
| Variables.StuckHasNoSolution | hcl/ext/variables/variables.go:216-224 | a definition that cannot be evaluated although its references can rules out every solution |
| VariableResolver.Resolver.Add | hcl/ext/variables/variables.go:144-162 | registers a definition, and its items when it is a map or list with references, as nodes of the tree |
| VariableResolver.Resolver.ResolveAll | hcl/ext/variables/variables.go:164-173 | on success every top-level node has a value that is its meaning; otherwise the outcome names a defect of the definitions; it terminates on every reference graph |
| VariableResolver.Resolver.ResolveSingle | hcl/ext/variables/variables.go:175-214 | on success the closest node has a value, nothing resolved is lost, and only nodes on the call stack are unfinished; termination by unvisited nodes, then remaining references |
| VariableResolver.Resolver.ResolveWithoutSelfReference | hcl/ext/variables/variables.go:216-224 | evaluates a definition without references; a missing definition means an undefined reference |
| VariableResolver.Resolver.ResolveWithSelfReference | hcl/ext/variables/variables.go:226-302 | resolves the references of a definition, leaf by leaf, and gives the node its meaning |
| VariableResolver.Resolver.ResolveLeaf | hcl/ext/variables/variables.go:226-302 | one callback of the traversal: evaluating with only the referenced variables in scope gives the meaning |
| VariableResolver.Resolver.Filter | hcl/ext/variables/variables.go:262-290 | the filtered environment agrees with the full one on every reference of the expression |
| VariableResolver.ClosesCycle | hcl/ext/variables/variables.go:187-197 | meeting a visited node without a value closes a cycle of references |
| References.EnvironmentMeans | hcl/ext/variables/variables.go:262-302 | evaluation in the filtered environment equals the evaluation that defines the meaning |
| References.CycleHasNoDen | hcl/ext/variables/variables.go:187-197 | a definition on a cycle has no denotation for any amount of unfolding |
| References.DanglingHasNoDen | hcl/ext/variables/variables.go:452-464 | neither has a definition with an undefined reference |
| References.StuckHasNoDen | hcl/ext/variables/variables.go:216-224 | nor one whose evaluation fails |
| Denotation.DenMonotone | hcl/ext/variables/variables.go:226-302 | the denotation of a definition does not depend on how far references are unfolded |
| Denotation.EvalClosest | hcl/ext/variables/variables.go:452-464 | indexing the value of a definition by a path is indexing the closest nested definition by the rest of the path |
| Denotation.ResolvedMeans | hcl/ext/variables/variables.go:452-464 | a value found by longest-prefix lookup in a partly collapsed tree is the meaning of the reference |
| Denotation.OptimizeSound | hcl/ext/variables/variables.go:466-513 | collapsing maps and lists, which drops the child nodes, keeps the meaning of every node |
| Denotation.CollapseSound | hcl/ext/variables/variables.go:466-513 | a node whose children all have values has the object or tuple of these values as its meaning |
| VariableTree.OptimizeEvolves | hcl/ext/variables/variables.go:466-513 | collapsing keeps every definition and value and visits no node; children disappear only below a node that has a value |
| ScheduleSearch.NextIsExact | timeutil/scheduler.go:335-428 | the search returns the least tick after every instant exactly for schedules that are not skip-prone, a condition on the months, days and weekdays listed |
| ScheduleSearch.ReturnsTick | timeutil/scheduler.go:335-360 | whatever the schedule, the result is a later tick, and any tick passed over is on 1 or 2 March of a skip-prone schedule |
| ScheduleSearch.SkipWitness | timeutil/scheduler.go:375-386 | every skip-prone schedule has an instant from which the search passes over a tick |
| ScheduleSearch.SearchHalts | timeutil/scheduler.go:335-360 | the search ends from every instant when some listed month has a listed day, and from none otherwise |
| ScheduleSearch.SafeTickAfter | timeutil/scheduler.go:335-386 | a schedule with such a date has a tick after every instant, one that is never skipped: dates and weekdays recur in the 400-year cycle |
| ScheduleSearch.SearchEnds | timeutil/scheduler.go:335-360 | the distance to a tick that cannot be skipped shrinks with every round |
| Schedule.JumpPassesNoTick | timeutil/scheduler.go:335-360 | one round moves forward and passes no tick, but for one in early March of a skip-prone schedule |
| Schedule.MonthJump | timeutil/scheduler.go:362-373 | the month jump lands at or before every later instant in a listed month |
| Schedule.DayJump | timeutil/scheduler.go:375-386 | the day jump lands at or before every later listed day, but for early March of a skip-prone schedule, where an overflowing day lands past it |
| Schedule.HourJump | timeutil/scheduler.go:388-400 | the hour jump passes no listed hour |
| Schedule.MinuteJump | timeutil/scheduler.go:402-414 | the minute jump passes no listed minute |
| Schedule.SecondJump | timeutil/scheduler.go:416-428 | the second jump passes no whole second with a listed value |
| Schedule.JumpIsWhole | timeutil/scheduler.go:362-428 | every jump lands on a whole second |
| Scheduler.Ticker.Next | timeutil/scheduler.go:335-360 | the loop of field jumps returns what the search returns |
| Scheduler.Ticker.Parse | timeutil/scheduler.go:508-583 | parsing assigns the six fields, and leaves those after a failing part as they were |
| Scheduler.Ticker.Text | timeutil/scheduler.go:318-332 | the text of a ticker, field by field |
| Scheduler.WriteNames | timeutil/scheduler.go:679-756 | a field is written as its names with commas, or as a star when empty |
| Scheduler.Run | timeutil/scheduler.go:121-141 | for every clock, sleep and cancellation: each round that is begun before a cancellation sends exactly one value if the pending tick is less than 15 minutes after the clock, and none otherwise; the values sent and the pending one form a chain of next ticks; the loop stops exactly at a cancelled round; and nothing is sent before its time when the clock is not set back |
| Scheduler.ChainIncreases | timeutil/scheduler.go:121-141 | the values sent are strictly increasing ticks after the start |
| Scheduler.ChainSkipsNoTick | timeutil/scheduler.go:121-141 | unless the schedule is skip-prone every tick up to the last one sent is sent |
| ScheduledTicker.TextRoundTrip | timeutil/scheduler.go:318-332 | parsing the text of a normal-form ticker gives its six fields, whatever they were before |
| ScheduledTicker.ParsedMatches | timeutil/scheduler.go:508-563 | a successful parse leaves normal form, and the ticker matches exactly the instants that the parts of the text admit |
| ScheduledTicker.AcceptedSpec | timeutil/scheduler.go:508-577 | a text is a schedule exactly when it is not empty and has at most six parts, each of them a star or values that can be read for its field |
| ScheduledTicker.RejectedParts | timeutil/scheduler.go:516-540 | otherwise the fields before the first bad part are set, the field of that part is emptied, and the others are unchanged |
| ScheduledTicker.SpecTextIs | timeutil/scheduler.go:318-332 | the order of the fields in a text and the units behind them |
| ScheduledTicker.MonthSpellings | timeutil/scheduler.go:629-657 | the month of every accepted spelling, and no other text is a month |
| ScheduledTicker.WeekdaySpellings | timeutil/scheduler.go:659-677 | the weekday of every accepted spelling, and no other text is a weekday |
| ScheduleText.FieldRoundTrip | timeutil/scheduler.go:565-583 | one written field is read back unchanged and contains no blank |
| ScheduleText.ParsedField | timeutil/scheduler.go:565-583 | one parsed field is sorted, unique and in range, is empty for a star, and admits the values written |
| Texts.JoinSplit | timeutil/scheduler.go:512 | the parts of a text have no separator, and joined again they are the text |
| Calendar.KnownDate | timeutil/scheduler.go:493-505 | weekdays are counted from a known date: 1 January 1970 is a Thursday |
| Calendar.DateDayInMonth | timeutil/scheduler.go:375-386 | a day that the month has is the date that was asked for |
| Rounding.SetPrecRounds | bn/decfixedpoint.go:328-336 | rescaling multiplies exactly or divides by the one rounding rule: half up for values that are not negative, truncation for negative ones |
| Rounding.RescalingIsHalfUp | bn/decfixedpoint.go:317-336 | lowering the precision rounds half up exactly for values that are not negative and for negative ones of which no more than a half is dropped |
| Rounding.RescalingIsOdd | bn/decfixedpoint.go:317-336 | it treats a value and its negative alike exactly when less than a half is dropped |
| Rounding.NegativeIsTruncated | bn/decfixedpoint.go:317-336 | 1.6 becomes 2, and -1.6 becomes -1 |
| Rounding.DivRoundRounds | bn/decfixedpoint.go:317-326 | the rounding division by an even number, which every power of ten above one is, follows that rule |
| Rounding.TruncateThenRoundQuotient | bn/decfixedpoint.go:252-260 | truncating with guard digits and rounding them afterwards is one rounding of the exact quotient |
| Decimal.FixedAddRounds | bn/decfixedpoint.go:199-220 | fixed-point sums and differences are the exact ones rounded once to the precision of the left operand |
| Decimal.FixedMulRounds | bn/decfixedpoint.go:225-235 | so is the fixed-point product |
| Decimal.FixedDivRounds | bn/decfixedpoint.go:242-260 | so is the fixed-point quotient, for operands of either sign |
| Decimal.DivisorVanishes | bn/decfixedpoint.go:252-260 | division at a given precision panics exactly for zero and for divisors that are rounded to zero at that precision |
| Decimal.NormalIsNormal | bn/decfloatpoint.go:278-305 | dropping trailing zeros keeps the value and leaves none |
| Decimal.NormalOfValue | bn/decfloatpoint.go:278-305 | two numbers have the same normal form exactly when they have the same value |
| DecimalFloat.FixedSetPrecRounds | bn/decfixedpoint.go:172-188 | a fixed-point number of another precision is the exact value rounded once |
| DecimalFloat.AdditionLaws | bn/decfloatpoint.go:144-152 | floating-point addition is exact, commutative, associative and in normal form |
| DecimalFloat.SubtractionUndoesAddition | bn/decfloatpoint.go:154-162 | subtracting what was added gives back the normal form |
| DecimalFloat.MultiplicationLaws | bn/decfloatpoint.go:164-177 | multiplication is commutative, and exact, associative and distributive while precisions sum to at most 255 |
| DecimalFloat.ProductAtPrec | bn/decfloatpoint.go:164-177 | a product of higher precision is rounded once to 255 digits |
| DecimalFloat.DivPrecRounds | bn/decfloatpoint.go:207-222 | at every requested precision the quotient is in normal form with no more digits: up to 255 the exact quotient truncated to that many digits, beyond it the exact quotient rounded once to 255; operands with more digits are rounded to the precision first |
| DecimalFloat.FixedDivPrecRounds | bn/decfixedpoint.go:252-260 | a fixed-point quotient at a requested precision keeps the precision of the left operand, to which it is rounded once if that is lower and padded with zeros if it is not |
| DecimalFloat.DivisionRounds | bn/decfloatpoint.go:184-205 | the quotient is the exact one rounded once, except exactly when both roundings at 255 and 254 digits move it |
| DecimalFloat.DivisionRoundsByPrecision | bn/decfloatpoint.go:184-205 | all quotients of a given larger precision are rounded once exactly when it is not 238 |
| DecimalFloat.InverseRounds | bn/decfloatpoint.go:249-263 | the inverse is the exact one rounded once |
| DecimalNumber.DecFloat.AdjustPrec | bn/decfloatpoint.go:278-305 | the loop over the trailing zeros of the numeral brings the number into normal form in place |
| DecimalNumber.DecFloat.Add | bn/decfloatpoint.go:144-152 | a new number with the sum; the operands are unchanged |
| DecimalNumber.DecFloat.Sub | bn/decfloatpoint.go:154-162 | a new number with the difference |
| DecimalNumber.DecFloat.Mul | bn/decfloatpoint.go:164-177 | a new number with the product |
| DecimalNumber.DecFloat.DivPrec | bn/decfloatpoint.go:207-222 | a new number with the quotient at any precision at which the divisor is not zero, as DivPrecRounds describes it |
| DecimalNumber.DecFloat.Div | bn/decfloatpoint.go:184-205 | a new number with the quotient, whose fields are overwritten after the division |
| DecimalText.WriteDec | bn/decfixedpoint.go:121-147 | the branches of the writer produce the numeral |
| DecimalText.TextIsExact | bn/decfixedpoint.go:121-147 | the numeral denotes exactly the number |
| DecimalText.TextIsCanonical | bn/decfixedpoint.go:121-147 | two numbers print the same exactly when they have the same value, whatever their precisions |
| DecimalText.TextShape | bn/decfixedpoint.go:121-147 | the numeral is a minus sign for negative numbers, a whole part without a leading zero, and a point and a fraction without a trailing zero unless there is no fraction |
| DecimalBinary.BinaryRoundTrip | bn/decfixedpoint.go:292-315 | decoding an encoded number gives its absolute value, so exactly the numbers that are not negative survive |
| DecimalBinary.BinaryIsCanonical | bn/decfixedpoint.go:303-315 | accepted bytes are the encoding of what they decode to exactly when the magnitude has no leading zero byte |
| DecimalBinary.BytesExample | bn/decfixedpoint.go:292-300 | -2.58 is encoded as 0, 2, 1, 2 |
| Quorum.ExtractErrors | rpcsplitter/resolver.go:160-169 | splits responses into answers and errors, in order |
| Quorum.Resolve | rpcsplitter/resolver.go:43-74 | the loops over all pairs of answers accept the strict plurality of at least the required size, and reject ties |
| Quorum.WhichDecision | rpcsplitter/resolver.go:43-74 | accepted exactly when some answer is given at least as often as required and more often than every different answer, and then with the first such answer; fewer answers than required are the one error, all other cases the other |
| Quorum.ErrorsInOrder | rpcsplitter/resolver.go:160-169 | the messages in an error are exactly those of the failures, in order of arrival |
| Quorum.AnswersInOrder | rpcsplitter/resolver.go:160-169 | the answers that are compared are exactly the others, in order of arrival |
| Quorum.MajorityWins | rpcsplitter/resolver.go:43-74 | an answer given by a required majority of all endpoints is accepted |
| Quorum.SameVotes | rpcsplitter/resolver.go:43-74 | how often an answer is given does not depend on the order of arrival |
| Quorum.EarlyAgrees | rpcsplitter/resolver.go:43-74 | what is accepted from a prefix of the responses is accepted, up to equivalence, from all of them in any order, if twice the requirement exceeds the number of endpoints |
| Quorum.EarlyReturnIsSafe | rpcsplitter/server.go:573-588 | this agreement holds for all responses exactly under that condition |
| Quorum.Call | rpcsplitter/server.go:563-590 | the event loop returns at the first event after which it resolves and accepts or has all responses, with the decision on what has arrived |
| Quorum.CallReturns | rpcsplitter/server.go:563-590 | the loop has returned once all responses are in |
| Quorum.CallAgreesWithWaiting | rpcsplitter/server.go:563-590 | with a majority requirement a call with at most one timer event returns within n + 1 events, and it accepts exactly when waiting for all responses would, with an equivalent answer |
| GasValue.FilterByNumberType | rpcsplitter/resolver.go:171-178 | keeps the numbers among the answers, in order |
| GasValue.ResolveGas | rpcsplitter/resolver.go:87-119 | the branches on the count of numbers give the decision that GasOverOrdered describes; with exactly one number the first answer of any type is returned |
| GasValue.GasOverOrdered | rpcsplitter/resolver.go:96-118 | over the ordered list of the numbers, the result is the first of two, the middle one of an odd number, and the mean of the two middle ones, rounded down, of an even number from four |
| GasValue.OddMedian | rpcsplitter/resolver.go:109-118 | of an odd number of values the result is one, most of them are at most the result and most are at least the result |
| GasValue.NumbersInOrder | rpcsplitter/resolver.go:171-178 | the numbers that are used are exactly those among the answers, in order of arrival |
| GasValue.OneNumberIsReturned | rpcsplitter/resolver.go:93-95 | with exactly one number it is the result if and only if it is the first answer, as it is when all answers are numbers |
| GasValue.OtherAnswerIsReturned | rpcsplitter/resolver.go:93-95 | an answer of another type in front of the only number is the result |
| GasValue.FaultyMinority | rpcsplitter/resolver.go:87-119 | with three or more numbers and fewer than half faulty the result lies between the smallest and largest honest value; with two it exceeds none |
| GasValue.MedianCounts | rpcsplitter/resolver.go:104-118 | half of an ordered list lies beyond any bound that its median lies beyond |
| GasValue.OrderIrrelevant | rpcsplitter/resolver.go:87-119 | when all answers are numbers the result does not depend on their order |
| FanOutSteps.RunIsSafe | chanutil/chainutil.go:97-172 | in every interleaving no channel is closed twice or sent to when closed, and every output has received one contiguous run of the input |
| FanOutSteps.OneContiguousRun | chanutil/chainutil.go:117-172 | an output that one step registers and a later one removes ends with exactly the values whose broadcast began between the two |
| FanOutSteps.StillOpen | chanutil/chainutil.go:155-163 | a registered output has what was broadcast since its registration, but for a value still pending for it |
| FanOutSteps.CloseIsFinal | chanutil/chainutil.go:138-153 | once a call of `Close` with a channel of the fan-out has finished, the output is closed for good |
| FanOutSteps.WatcherCloses | chanutil/chainutil.go:150-153 | in every run from a state in which a goroutine watches the context of an output: once that goroutine has finished, this output is closed, no longer registered, and never changes again |
| FanOutSteps.CancelledCloses | chanutil/chainutil.go:138-153 | after the context is cancelled, with the mutex free, the next steps of the goroutine lock, close and remove the output, and unlock |
| FanOutSteps.BoundedIsWatched | chanutil/chainutil.go:117-132 | an output with a context gets its goroutine before it is registered |
| FanOutSteps.TakenIsReceived | chanutil/chainutil.go:155-163 | what the contiguous runs are runs of is exactly the sequence of values received from the input channel |
| FanOutSteps.EndClosesAll | chanutil/chainutil.go:164-171 | when the broadcasting goroutine has ended, only an output that a call is just making can be open |
| FanOutSteps.OwnerAdvances | chanutil/chainutil.go:117-172 | the owner of the mutex always has a next step, and its steps until it unlocks are bounded, given that consumers receive |
| FanOutSteps.StalledConsumer | chanutil/chainutil.go:155-163 | when the consumer of an output stops receiving while a value is broadcast, no run releases the mutex again: no pending `Close` returns and no cancelled context closes its output |
| FanOutSteps.StepKeepsInv | chanutil/chainutil.go:117-172 | the invariant behind these results is kept by every step of every goroutine |
| FanOutSteps.ChannelsGrow | chanutil/chainutil.go:117-172 | a step only appends to an open output and leaves a closed one as it is |
| FanOut.FanOut.OutputContext | chanutil/chainutil.go:117-132 | a new output is open and registered, and watched exactly when it has a context; once the input has ended it is closed at once; no other output changes |
| FanOut.FanOut.Close | chanutil/chainutil.go:138-148 | the given output is closed afterwards and not registered; no other output changes, and none gets or loses a value |
| FanOut.FanOut.Broadcast | chanutil/chainutil.go:156-162 | every registered output has the value once more at its end, and no other changes |
| FanOut.FanOut.Shutdown | chanutil/chainutil.go:163-171 | exactly the registered outputs are closed, and none is registered any more |
| FanInSteps.RunMerges | chanutil/chainutil.go:41-91 | in every run the output is an interleaving that keeps the order of each input and loses or repeats nothing; it is closed at most once |
| FanInSteps.InputIsProduced | chanutil/chainutil.go:86-91 | the values of an input are exactly those that were put into its channel, in order |
| FanInSteps.ClosedIsDrained | chanutil/chainutil.go:63-91 | if no input is added after `AutoClose` and `Close` is called only on an empty wait group, nothing panics and a closed output has everything ever put into any input |
| FanInSteps.ClosedCrash | chanutil/chainutil.go:63-91 | a closed fan-in can still panic, in some continuation, exactly when some input may still send a value |
| FanInSteps.CloseTooEarly | chanutil/chainutil.go:63-71 | closing while some input may still send can panic |
| FanInSteps.ClosedInputsAreNotEnough | chanutil/chainutil.go:58-71 | a reachable state in which all input channels are closed and a value is still in flight |
| FanInSteps.LateInputPanics | chanutil/chainutil.go:73-84 | an input added after `AutoClose`, when the others are done, can be cut off and panic |
| FanInSteps.InternalStepsEnd | chanutil/chainutil.go:77-91 | after `AutoClose`, with all input channels closed, every step of a goroutine leaves fewer of them |
| FanInSteps.AutoCloseCompletes | chanutil/chainutil.go:77-91 | and they end with the output closed |
| FanInSteps.StepKeepsInv | chanutil/chainutil.go:41-91 | the invariant is kept by every step, and the only new panic is a send to the closed output |
| FanIn.FanIn.Input | chanutil/chainutil.go:41-51 | adds n open and empty inputs and counts them in the wait group, or panics when the fan-in is closed |
| FanIn.FanIn.Close | chanutil/chainutil.go:63-71 | closes the output the first time only |
| FanIn.FanIn.AutoClose | chanutil/chainutil.go:77-84 | starts the closing goroutine the first time only |
| FanIn.FanIn.FanInRoutine | chanutil/chainutil.go:86-91 | passes on everything in the input, in order, and leaves the wait group if the input is closed |
| Interpolation.ParseUndoesWriting | interpolate/interpolate.go:145-218 | any spelling of parts in normal form, with every needed and any further escapes, parses to exactly these parts |
| Interpolation.ParseUndoesWrite | interpolate/interpolate.go:25-33 | writing parts with escapes and parsing gives them back, including empty names and empty defaults, for both notations |
| Interpolation.ParseNormal | interpolate/interpolate.go:145-158 | no parsed literal is empty and no two are adjacent |
| Interpolation.ParseIsStable | interpolate/interpolate.go:145-218 | writing what was parsed and parsing again changes nothing |
| Interpolation.UnclosedMeansNeverCloses | interpolate/interpolate.go:168-218 | name and default mode pair escapes alike: a variable is unclosed in either exactly when no unescaped closing brace is left |
| Interpolation.UnclosedVariableEndsAll | interpolate/interpolate.go:195-198 | once a variable is not closed everything from there on is one literal, without the escaping backslashes |
| Interpolation.UnclosedIsKept | interpolate/interpolate.go:195-198 | the text of an unclosed variable stays as it is if and only if no backslash after its opening token has a character behind it |
| Interpolation.EscapedIsLiteral | interpolate/interpolate.go:68-79 | an escaped text interpolates to itself under every mapping |
| Interpolation.VariableIsReplaced | interpolate/interpolate.go:68-79 | wherever a variable is written in a text, in any of its spellings, exactly its text is replaced by what the mapping gives for it |
| Interpolation.Notation | interpolate/interpolate.go:101-132 | the notation: dollar or percent sign, braces, and a minus before a default, with names and defaults free of special characters |
| InterpolationParser.Parser.Parse | interpolate/interpolate.go:145-158 | the loop over positions computes the parts the string means |
| InterpolationParser.Parser.ParseBackslash | interpolate/interpolate.go:160-166 | the character after a backslash is kept, and a backslash at the end |
| InterpolationParser.Parser.ParseVariable | interpolate/interpolate.go:168-198 | appends the variable that is closed, or restores the position and keeps the opening token as text |
| InterpolationParser.Parser.ParseDefault | interpolate/interpolate.go:200-218 | reads a default up to the closing brace, which it leaves to be read again |
| InterpolationParser.Parser.NextBytesUntilAnyOf | interpolate/interpolate.go:233-245 | at least one character, and on to the first of the given ones |
| InterpolationParser.Parser.NextToken | interpolate/interpolate.go:249-255 | moves past a token exactly when it is next |
| InterpolationParser.Parser.AppendBuffer | interpolate/interpolate.go:276-281 | appends the literal buffer if it is not empty, and empties it |
| InterpolationParser.Parse | interpolate/interpolate.go:34-38 | the dollar notation |
| InterpolationParser.ParsePercent | interpolate/interpolate.go:52-56 | the percent notation |
| InterpolationParser.Interpolate | interpolate/interpolate.go:68-79 | the result falls into one piece for each part, in order: the text of a literal, or what the mapping gives for a variable |
| InterpolationParser.HasVars | interpolate/interpolate.go:82-89 | true exactly when some part is a variable |
| MetricWindow.MetricAggregated.Add | log/metrics/log.go:495-516 | extends the history and keeps every slot the aggregate of the points that the history leaves in it |
| MetricWindow.MetricAggregated.Get | log/metrics/log.go:518-540 | the aggregate of the points that the history leaves in the live slots, among them every point of the window exactly as often as it was added |
| MetricWindow.ReadingTime | log/metrics/log.go:518-540 | the time of a reading is that of the newest point in the window, and it is unset exactly when there is none |
| MetricWindow.ReadingBounds | log/metrics/log.go:148-169 | a maximum is at least, and a minimum at most, every value in the window, and both were added |
| MetricWindow.ReadingSum | log/metrics/log.go:148-169 | a sum has every point in the window exactly once, and besides them only older points that were added |
| MetricWindow.FoldConcat | log/metrics/log.go:148-169 | every aggregate of a concatenation combines the aggregates of its parts, so folding slots folds their points |
| MetricWindow.ReadingCovers | log/metrics/log.go:495-540 | for every history of points added at times that do not go back, a reading has every point of the window exactly as often as it was added |
| MetricHistory.SlotTracksStaying | log/metrics/log.go:503-515 | a slot aggregates exactly the points accepted into it since it last started again, and it starts again exactly when a point arrives while none of its accepted points is in the window |
| MetricHistory.ReadingIsCounted | log/metrics/log.go:495-540 | an accepted point is in a reading, as often as it was added, if and only if every point added to its slot since and the reading itself found a point of the slot in the window |
| MetricHistory.ReadingIsWindow | log/metrics/log.go:495-540 | a reading has no point from before the window if and only if each such accepted point was followed by a restart of its slot or its slot has no point in the window |
| MetricHistory.SumOfWindow | log/metrics/log.go:518-540 | a sum is then the sum of the window |
| MetricHistory.SumIsWindow | log/metrics/log.go:518-540 | and for positive values it is the sum of the window only then |
| MetricHistory.OldPointsStay | log/metrics/log.go:503-515 | for every window and every number n, n points a window apart are all in the reading, whose sum is n although only the last two are in the window |
| MetricHistory.FoldEnds | log/metrics/log.go:148-169 | `Replace` takes the last of the aggregated points and `Ignore` the first |
| MetricHistory.ReplaceReadsLowestSlot | log/metrics/log.go:526-538 | a `Replace` reading has the value of the last point accepted into the lowest slot that has a point in the window |
| MetricHistory.ReplaceReadsNewest | log/metrics/log.go:526-538 | the point whose value it has is the newest one if and only if the newest accepted point was the last one accepted into its slot and no lower slot has a point in the window |
| MetricHistory.ReplaceHasNewestValue | log/metrics/log.go:526-538 | under the same condition and no other it has the value of the newest point whatever the values are |
| MetricHistory.OlderReplacesNewer | log/metrics/log.go:526-538 | the points of minutes 2 and 3 in a window of 2: the reading has the value of the older |

## Left out

- Variables: nodes are a value tree written at paths inside one object, so aliasing of node pointers is not modelled; diagnostics are one outcome; attributes of a body come in order and their names are distinct.
- Variables: map keys are constants that differ as strings, and an index key is a name or a canonical number; operators, functions and other root objects are parameters of evaluation, strict in their arguments, and `for` expressions with their own scope are not modelled.
- Variables: reading the block from a file, and the hcl decoder, encoder, mapper, writer and include handling.
- Scheduler: named zones and daylight saving, the 64-bit range of years and nanoseconds, and the monotonic clock.
- Scheduler: `ManualTicker`, `IntervalTicker`, and ticks injected with `Tick` and `TickAt`.
- Scheduler.Ticker.Next: requires a date that the schedule admits, because the code does not return otherwise; `SearchHalts` states when it does.
- ScheduledTicker.ParsedMatches: numbers in a text are read by `Atoi` without the 64-bit limit.
- Variables.ResolveVariables: requires distinct names. The code also accepts several `variables` blocks that define the same name; the later definition replaces the expression of the earlier one and keeps its child nodes.
- Decimals: `IntNumber`, `FloatNumber`, conversions through binary floating point, `Cmp` and `Text`; `DecFixedPointNumber.Inv`, which rounds by a divisor of any sign and parity under no single rule.
- Decimals: fixed-point numbers are values, since their methods only return new ones; `UnmarshalBinary` returns the number it would store.
- Quorum.Resolve: requires a comparison that is an equivalence; the real one uses reflection and is not reflexive on answers with nil interface fields, which are excluded.
- Quorum: `blockNumberResolver`, JSON-RPC registration, transport, logging, recovery from panics, cancellation of requests that are still running.
- Fan-out: which of several waiting goroutines gets the mutex is arbitrary; an unbuffered send is one step, taken when a consumer receives; a channel not made by the fan-out is one foreign target.
- FanOut.FanOut.Broadcast: runs its critical section without the steps of waiting callers in between, which FanOutSteps interleaves.
- FanIn.FanIn.FanInRoutine: runs one goroutine until its channel is empty; values that arrive meanwhile and the interleavings with others are in FanInSteps.
- Fan-in: an input channel is a queue without bound that is added once; the misuse panics of `sync.WaitGroup` are left out.
- Interpolation: characters stand for bytes, which the parser only compares with its tokens.
- Metrics: values are real numbers, not IEEE floats; windows beyond the range of a duration and points before 1970, which the code would index negatively, are excluded.
- Metrics: everything in the logger but `metricAggregated`, that is matching of messages, reflection on fields and the HTTP server.
- `supervisor`, `httpserver`, `retry`, `sliceutil`, `maputil`, `errutil`, `env`, `fsutil`, `dump`, `treerender` and the other loggers: easy members, or input and output.
