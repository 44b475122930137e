# Verification model

A Dafny model of the parts of the service platform where a wrong step is hardest to see, with
proofs of what they promise. `dafny verify dfyconfig.toml` checks all of it.

| files | what they model |
|---|---|
| `Layering`, `Signatures`, `Lifecycle`, `Containers`, `ContainerGraph` | the dependency container: loading classes, building them in dependency rounds, registering more; the "used by" relation it leaves |
| `UsedByWalks` | the two depth-first walks that spread a state change over "used by": the destroy walk marks before exploring, the status walk after |
| `DecoratorOrder`, `DecoratorRun`, `DecoratorSafety` | decorators of an endpoint: registration, stable sort, folding into one callable; an interpreter with exceptions and early returns; a monitor that accepts its traces |
| `Steps`, `FileTask` | resumable ingestion steps, retries, refund and cleanup |
| `Ledger`, `IngestCost` | bills with rounded-up items; reservation and refund of a crawl |
| `Utf8`, `MarkdownSlicer` | cutting a document to a number of bytes |
| `Embeddings` | cosine similarity over the reals |
| `WebhookBatch`, `WebhookRetry` | batching as interleaved steps around a reader/writer lock; the retries of one delivery |
| `StreamParsers`, `KeepAlive` | parsers of awaited states; waiting for them within a time budget |
| `Progressions`, `SteppedRanges` | the common values of two stepped ranges; a modulus test against enumerated ranges |
| `EnvSelectors` | scores and what the broker does to them; softmax against its stabilised form |
| `Commons` | what several modules share: an option type, reversed sequences, distributivity |

Code that changes state is a class or a method with loops, proved against a specification
function; the main results are lemmas about those functions. Foreign code (services, permissions,
guards, handlers, step bodies, deliveries, clocks, random draws) is a parameter and may do
anything; the results hold for every choice of it.

Where the code does not do what it is for, the model follows the code, gives an input that
shows it, and proves exactly when the promise holds:

- `app/classes/step.py:54` reads the time stamp before line 59 sets it, so leaving any step
  raises. `Steps` and `FileTask` carry a flag for it: without it nothing is ever recorded or
  charged; with it the step machine keeps its promises.
- `app/data_ingest_tasks.py:124-131`: refund and charge exclude each other as long as no
  compensation asks for a retry after the call refunded or charged, and exactly then;
  `FileTask.ContinuesRightIff` says for which ends of the bodies that is. No code
  under `app` raises the `Retry` of the queue today; the results are for bodies that do.
- `app/data_ingest_tasks.py:121-122` passes `vector_config` a second time beside the keyword
  arguments that hold it, line 157 reads the category of a missing one, and line 51 hands the raw
  dictionary to the compensation. So the set-up, body 0 of the model, raises in every call and
  every compensation, and `FileTask.SetUpAlwaysFails` is what happens; the other results are
  about calls whose set-up succeeds. Line 47 passes `refund_credits` an argument too many, so
  the refund itself works only with costs switched off.
- `app/definition/_cost.py:118` extends the refund list with itself.
- `app/cost/ingest_cost.py:91` uses the html cap for pdf documents; conservation holds exactly
  without pdf documents or with equal caps, and the refund is negative exactly when the
  kilobytes used exceed those caps. Sizes are converted to whole kilobytes before they
  are refunded, so the two refund modes give back the same amount.
- `app/ingestion/crawl_ingestion.py:670` and `711` return bare text where callers unpack two
  values. Kept sentences are joined by blank lines but counted with one byte between them, so
  the size returned is not that of the text: "A. BB" cut to three bytes has two and counts three.
  It is exactly under the conditions of `MarkdownSlicer.SizeIsOfTextIff`.
- `app/classes/embeddings.py:81-90` keeps a supplied norm unchecked; the cosines stay in their
  range exactly when it is, in absolute value, not below the true one.
- `app/utils/helper.py:497` seeds the generator with the clock, so keys of buffered payloads
  repeat; some interleaving loses a payload exactly if two adds draw the same key.
- `app/interface/webhook_adapter.py:54-56` returns a retryable status code instead of retrying.
  The retries are as promised exactly when the first outcome that is no delivery error is not a
  retryable answer; after a retryable answer to the last allowed call the promise would return
  nothing and the code returns the answer.
- `app/classes/url.py:330` takes the step of the excluded range for its end and its end for its
  step. Both kinds of error occur, excluded values that stay and others that go; the result is
  right exactly when the two progressions of excluded values are the same.
- `app/classes/env_selector.py:85-90`: under Redis a light task over the threshold can lose APS to
  the background, whose bonus does not depend on the weight.
- `app/container.py:142` looks metadata up by class while it is stored by name, so that a second
  class of the same name is loaded as well and can close a cycle; a list that loads is
  circular or built, `Containers.Container.Build` says exactly which, and it is never circular when
  the last class of every name asks only for names whose last class comes before it.
- `app/container.py:451` uses an undefined name; the walk is modelled from one start service.
- `app/container.py:443-444` fails on an edge without a link entry where
  `app/callback/status_sub.py:25-26` skips it. The destroy walk finishes exactly when a walk that
  skips such users meets none it has not visited; whether it does can depend on the order in
  which the users of a service are listed.

## Model

| member | source | states |
|---|---|---|
| `Layering.WaitingIffChain` | app/container.py:250-262 | a class still waits after n rounds exactly when a dependency chain of n edges inside the set starts at it |
| `Layering.StuckHasCycle` | app/container.py:258-259 | a round that frees nothing leaves a set with a dependency cycle in it |
| `Layering.CycleWaitsForever` | app/container.py:250-262 | no member of a cycle ever leaves |
| `Layering.DrainsIffAcyclic` | app/container.py:250-262 | the rounds empty the set exactly when the dependencies have no cycle inside it |
| `Layering.RoundIsLongestChain` | app/container.py:250-262 | a class leaves in the round equal to the length of its longest dependency chain inside the set |
| `Layering.RoundsAreMinimal` | app/container.py:250-262 | no layering in which every class follows its dependencies places a class earlier than its round |
| `Layering.HeightIsLongestChain` | app/callback/status_sub.py:11-60 | the height of a service is the length of its longest chain, exactly |
| `Layering.HeightDrops` | app/callback/status_sub.py:11-60 | along a dependency the height strictly drops, which is the measure of the recursive walk |
| `Lifecycle.CallableIff` | app/definition/_service.py:144-163 | over any run of build and destroy calls a service answers exactly when a successful build was not undone since and the last build left no unusable status |
| `Lifecycle.BuiltFlag` | app/definition/_service.py:256-345 | the built flag is set exactly when a successful build was not followed by a completed destroy, and never together with the destroyed flag |
| `Lifecycle.StatusFlag` | app/definition/_service.py:256-332 | over any run of build and destroy calls the status is what the last build call left, for each of the statuses |
| `Lifecycle.CallErrorIs` | app/definition/_service.py:144-163 | which of the three errors a call of the service raises, and exactly when |
| `Lifecycle.StatusCarries` | app/callback/status_sub.py:30-60 | what one step of the status walk does to a service: with `buildFollow` it is destroyed, then built, as the message asks, else as the link asks; asked for neither it stays as it is |
| `Lifecycle.DestroyCarries` | app/container.py:426-445 | what one step of the destroy walk does: destroyed exactly with `destroyFollow`, then built exactly when a rebuild is asked for by both the caller and the link |
| `Signatures.GetSignature` | app/container.py:218-235 | a signature is accepted exactly when no parameter repeats a type or has an unknown one; the error is that of the first refused parameter |
| `Signatures.LoadedMeta` | app/container.py:139-200 | what loading keeps of every class is read off the last class of its name: what it depends on, its parameters and whether it is to be built |
| `Signatures.AsksForEarlierIsAcyclic` | app/container.py:139-200 | names may repeat: without extra dependencies a list in which the last class of every name asks only for names whose last class comes before it is not circular |
| `Signatures.AcceptedIsAcyclic` | app/container.py:139-200 | in a list of differently named classes that loads every class asks for earlier ones, so without extra dependencies it has no dependency cycle |
| `Signatures.SameNameCanBeCircular` | app/container.py:141-142 | counterexample for two classes of one name: metadata is keyed by name but looked up by class, the list loads and is circular |
| `Containers.RoundsHold` | app/container.py:250-262 | n rounds bind each name that has left exactly once |
| `Containers.Container.AddBase` | app/container.py:237-248 | listing succeeds exactly without abstract names and otherwise changes nothing |
| `Containers.Container.Load` | app/container.py:139-200 | loading succeeds exactly when every class asks only for names loaded before it and listed or abstract; on failure a prefix stays loaded |
| `Containers.Container.OrderDependency` | app/container.py:280-285 | the names of the set, each once, by growing number of parameters |
| `Containers.Container.ToParams` | app/container.py:365-380 | parameters resolve exactly when every name is known, concrete and bound, each to its bound service |
| `Containers.Container.TellUsers` | app/container.py:389-392 | exactly the services asked for gain the new service as a user |
| `Containers.Container.InjectRaw` | app/container.py:264-278 | injection succeeds exactly when all parameters are bound before; it makes, wires, announces, builds and binds one fresh service, or changes nothing |
| `Containers.Container.Inject` | app/container.py:264-278 | injecting under a fresh name keeps wiring, order and the inverse "used by" relation |
| `Containers.Container.NextRound` | app/container.py:252-260 | a round takes exactly the waiting names that depend on no waiting name and keeps the rest, both in list order |
| `Containers.Container.BuildContainer` | app/container.py:250-262 | the loop ends, fails exactly when the dependencies of the set are cyclic, and binds names round by round |
| `Containers.BuildStateMeans` | app/container.py:250-262 | after n rounds of the loop the names left are those waiting n rounds, and the binding order is the first n rounds one after the other |
| `Containers.LoadedIsBuildable` | app/container.py:139-200 | a list that loads asks only for names of the list, so that injection in rounds never lacks a parameter |
| `Containers.Container.Build` | app/container.py:139-262 | building succeeds exactly when the list loads and is acyclic; a circular error is raised exactly for loaded cyclic lists; then every name is bound to a service made from its last class: with its parameters, and answering exactly when that class is to be built and its build ended in success |
| `Containers.Container.Register` | app/container.py:488-491 | a further class is bound exactly when it loads and all it asks for is bound, to a service made from it, which answers exactly when it is to be built and was; a failure binds nothing; a fresh name keeps the container valid; where all that is known is bound, as after a build, that stays so and every class that loads is bound |
| `Containers.Service.AddUsedServices` | app/definition/_service.py:233-237 | one user is added under its class and nothing else changes |
| `Containers.Service.Builder` | app/definition/_service.py:256-332 | after the call the service answers exactly when the build succeeded, or ended in one of the two harmless errors and the service was built and not destroyed before |
| `ContainerGraph.UsedByIsAcyclic` | app/container.py:382-392 | in every valid container, built and then extended, "used by" has no cycle |
| `ContainerGraph.StatusWalkEnds` | app/callback/status_sub.py:11-60 | hence the status walk ends from every service of such a container |
| `UsedByWalks.EndsIffAcyclic` | app/callback/status_sub.py:11-60 | the walk that marks after exploring ends exactly when no cycle of linked services is reachable from its start |
| `UsedByWalks.StatusWalkVisits` | app/callback/status_sub.py:11-60 | a finished status walk has processed exactly the services reachable by linked edges, each once, each after a linked predecessor |
| `UsedByWalks.DestroyWalkEnds` | app/container.py:426-445 | on every graph the destroy walk ends after visiting services reachable by linked edges, each once; it finishes only if it visited all of them and none has a user outside; otherwise some visited service has an unvisited user without a link entry |
| `UsedByWalks.DestroyWalkVisits` | app/container.py:426-445 | with all edges linked the destroy walk ends, on cyclic graphs too, and visits exactly the reachable services, each once |
| `UsedByWalks.FinishesIffAllLinked` | app/container.py:443-444 | when users without a link entry lie outside what is reached, the walk finishes exactly if there are none |
| `UsedByWalks.MissingLinkEndsWalk` | app/container.py:443-444 | counterexample: of two services the second uses the first without a link entry; destroying the first ends in a lookup error |
| `UsedByWalks.OrderDecides` | app/container.py:439-445 | with such an edge between services reached otherwise, the order in which users are listed decides whether the walk finishes |
| `UsedByWalks.DestroyWalkIsCut` | app/container.py:439-445 | for every graph and order: the walk finishes exactly when the walk that passes over users without a link entry has nobody to pass over, and its log is a prefix of that walk's log |
| `UsedByWalks.SameWalk` | app/container.py:426-445 | with all edges linked, a status walk that ends follows the same edges in the same order as the destroy walk |
| `UsedByWalks.FuelMonotone` | app/callback/status_sub.py:11-60 | a finished walk does not depend on the depth allowed |
| `UsedByWalks.SpreadOnce` | app/callback/status_sub.py:30-56 | along a log that meets each service once, every target is changed once, as the link that discovered it says |
| `UsedByWalks.StatusWalkEffect` | app/callback/status_sub.py:11-60 | after a finished status walk every reachable service was carried exactly once along a linked edge and no other service changed |
| `UsedByWalks.DestroyWalkEffect` | app/container.py:426-445 | the same for the destroy walk on a fully linked region |
| `UsedByWalks.Propagation.Recursive` | app/callback/status_sub.py:11-60 | the recursive code ends on an acyclic region and does exactly what the mark-after walk says |
| `UsedByWalks.Propagation.Destroy` | app/container.py:426-445 | the recursive code does exactly what the mark-before walk says, a missing link entry ending it |
| `UsedByWalks.SetServiceStatus` | app/callback/status_sub.py:69-110 | the named service is destroyed, then built, as the message asks, and no other changes; when the message is recursive, every service reachable from it, and no other, is changed once over a linked edge, as the message says with `buildFollow` and as the link says without; asked to be destroyed it no longer answers, built with success it does |
| `UsedByWalks.DestroyDep` | app/container.py:421-451 | the named service is destroyed; whether the walk finishes or not, every service on its log is changed once over its edge and no other changes: destroyed with `destroyFollow`, built when caller and link ask for a rebuild; with all edges linked these are all services reachable |
| `DecoratorOrder.SortedDescending` | app/definition/_ressource.py:382-384 | the stable sort keeps all decorators and orders them strictly by falling priority, ties as registered |
| `DecoratorOrder.NestingIsUnique` | app/definition/_ressource.py:371-385 | the nesting order leaves no choice: the layers are determined by what was registered |
| `DecoratorOrder.Registry.Append` | app/definition/_ressource.py:146-155 | one decorator is appended to the list of its function with its priority and touch, no other list changes |
| `DecoratorOrder.Registry.StackCallback` | app/definition/_ressource.py:371-385 | the folded callable has every registered decorator once, in ascending priority plus touch from the outside, ties with the last registered outermost |
| `DecoratorOrder.NestedByKind` | app/definition/_utils_decorator.py:10-16 | which kind this places outside which: limiter and throttle, permission, handler, ping, lock, pipes before, pipes after, guard, interceptor |
| `DecoratorRun.Handled` | app/definition/_ressource.py:197-210 | the except clause of a wrapper changes only exceptions of its own kind, into their response, else an error with their status, else with the default of the decorator, else 500; it leaves all others and every value, and never turns an exception into one from further out |
| `DecoratorRun.Judge` | app/definition/_ressource.py:585-612 | a function that stops a call raises from its own wrapper |
| `DecoratorSafety.CallIsAccepted` | app/definition/_ressource.py:371-385 | for every endpoint and all decorator functions, the trace of a call is accepted by the monitor: wrappers nest and leave in reverse, call inwards only when ready, with the arguments they may pass, and always unless stopped or refusing the arguments, run all their functions, end as the reply that stopped them says, else pass outcomes on |
| `DecoratorSafety.CallIsTruthful` | app/definition/_ressource.py:371-385 | every reply, act and end of the endpoint in a trace is what that function did when given these arguments after what had happened |
| `DecoratorSafety.GuardedTrace` | app/definition/_ressource.py:568-612 | in every trace the monitor accepts the endpoint runs only after every needed function of every gate passed since the gate was entered |
| `DecoratorSafety.TargetIsGuarded` | app/definition/_ressource.py:568-612 | the endpoint runs only after every function of every guard, and of every permission with the security flag on, was asked since its wrapper was entered and replied what lets a call pass |
| `DecoratorSafety.StoppedNeverRuns` | app/definition/_ressource.py:568-612 | where one needed function of a gate stops every call, by what it replies or by an exception, the endpoint never runs |
| `DecoratorSafety.OnlyAskedRun` | app/definition/_ressource.py:568-612 | no other function of a gate ever runs: none of a permission with the security flag off |
| `DecoratorSafety.RefusalEndsGate` | app/definition/_ressource.py:595-599 | a refused call leaves its permission with status 403 and its guard with 401 as the next event |
| `DecoratorSafety.PassesOn` | app/definition/_ressource.py:169-213 | an exception of the endpoint or of a wrapper passes a wrapper that is no function around the call at once, changed only by its except clause; so does a value, unless a pipe or interceptor works on it |
| `DecoratorSafety.PassesOut` | app/definition/_ressource.py:169-213 | any number of such wrappers end one right after the other, each with what the except clauses so far made of the outcome |
| `DecoratorSafety.ReachesFunctionAround` | app/definition/_ressource.py:371-385 | an exception no clause turns into a response arrives at the innermost function around it after exactly the wrappers between; one that is for no clause arrives as it was raised |
| `DecoratorSafety.ExceptionsReachTheHandler` | app/definition/_ressource.py:371-385 | however the decorators were registered: in every call an exception inside a handler function, with no other function around the call in between, arrives at it as the except clauses left it, and it does not come from a permission |
| `DecoratorSafety.NothingInsideTheHandler` | app/definition/_ressource.py:371-385 | without pings, locks and interceptor functions nothing lies between the innermost handler function and what it handles |
| `DecoratorSafety.HandlersSeeNoPermission` | app/definition/_ressource.py:371-385 | however the decorators were registered, no exception that reaches a handler was raised by a permission |
| `DecoratorSafety.GateOf` | app/definition/_ressource.py:544-616 | every permission and guard decorator has its gate among the wrappers |
| `DecoratorSafety.CompiledAscending` | app/definition/_utils_decorator.py:10-16 | the wrappers inside the folded callable have ascending priorities |
| `DecoratorSafety.CompiledInOrder` | app/definition/_ressource.py:371-385 | each decorator has its own wrapper there, set up as registered, followed by one for each function around the call |
| `DecoratorSafety.CompiledSize` | app/definition/_ressource.py:371-385 | and there are no other wrappers |
| `DecoratorSafety.GateAccepted` | app/definition/_ressource.py:646-701 | a permission or guard calls inwards only after all its functions passed, passes the outcome on unchanged, and else ends with the error of the reply that stopped it |
| `DecoratorSafety.InterceptAccepted` | app/definition/_utils_decorator.py:122-149 | an interceptor calls inwards at most once, after its before part, and runs its after part only on a value |
| `DecoratorSafety.PipeInAccepted` | app/definition/_ressource.py:732-770 | a pipe before the call runs all its functions before calling inwards |
| `Steps.Step.Enter` | app/classes/step.py:41-51 | a step is skipped exactly when it is recorded or not above the current step |
| `Steps.Step.Exit` | app/classes/step.py:53-70 | leaving records the step whether it finished, was skipped or raised; only finishing moves the current step |
| `Steps.RunSteps` | app/data_ingest_tasks.py:160-184 | the sequence of step blocks does exactly what the step machine says |
| `Steps.RunKeeps` | app/classes/step.py:41-70 | one run starts bodies in increasing order above what was reached, and the current step is the last that finished |
| `Steps.FinishedIsRecorded` | app/classes/step.py:53-70 | a step finished in a run is in the record afterwards as a success |
| `Steps.JobKeeps` | app/data_ingest_tasks.py:124-127 | over any number of retries and failures bodies start in strictly increasing order, none twice, and the current step never decreases and is the largest that finished |
| `Steps.FreshJobKeeps` | app/data_ingest_tasks.py:105-106 | the same from the record of a new job |
| `Steps.RaisedIsRecorded` | app/classes/step.py:53-70 | a run in which a body started and raised ends there and leaves the step recorded as failed, above the current step |
| `Steps.SkippedAreSuccesses` | app/classes/step.py:55 | a step left before is recorded as a success by the next run, which skips it |
| `Steps.RaisedStepIsForgotten` | app/classes/step.py:41-70 | over every list of later runs: a step that was left is neither started nor finished again and never becomes the current step, and after the first run whose set-up succeeds it counts as a success |
| `Steps.CompensationSkips` | app/data_ingest_tasks.py:49-51 | a run started from "all but the last step done" runs exactly the last body |
| `Steps.AsWrittenNothingIsRecorded` | app/classes/step.py:54 | with the time stamp read before it is set, leaving a step always raises: no record changes and at most the first body starts |
| `FileTask.Wrapper` | app/data_ingest_tasks.py:103-131 | the registered wrapper does exactly what the call specification says: retry saves the record, anything else compensates |
| `FileTask.CallEnds` | app/data_ingest_tasks.py:103-131 | a call of a new job is reported as done exactly when no body raises; else the exception of the first body that raises comes out, unless the refund or the cleanup of the compensation raises its own |
| `FileTask.FailureComesOut` | app/data_ingest_tasks.py:129-131 | when neither does, the call ends in the exception of that body |
| `FileTask.RefundTask` | app/data_ingest_tasks.py:39-51 | refund and cleanup happen exactly as the compensation specification says |
| `FileTask.CompensationRunsCleanupOnly` | app/data_ingest_tasks.py:49-51 | a compensation run executes the cleanup body and no other, charges and refunds nothing, deletes the file exactly when the body succeeds |
| `FileTask.ChargesOnce` | app/data_ingest_tasks.py:173-180 | a run charges tokens at most once |
| `FileTask.OneCall` | app/data_ingest_tasks.py:103-131 | one call refunds or charges, not both, and when its main run asks for a retry it leaves a record that keeps it so |
| `FileTask.RefundExcludesCharge` | app/data_ingest_tasks.py:39-51 | over every job the document refund and the token charge together happen at most once, if no compensation asks for a retry |
| `FileTask.ContinuesRightIff` | app/data_ingest_tasks.py:124-131 | for every call of a new job: however the job goes on, refund and charge together happen at most once, unless its compensation asks for a retry and its main run stopped with another exception before a step counted, the refund working, or in the cleanup body after the tokens were charged; in these cases it does not |
| `FileTask.RetriesSettledIff` | app/data_ingest_tasks.py:124-131 | these ends of the bodies are exactly those of a call that refunds or charges and then asks for a retry out of its compensation |
| `FileTask.RetryInCompensationChargesToo` | app/data_ingest_tasks.py:124-131 | counterexample: the process body fails, the refund works and the cleanup of the compensation asks for a retry; the call refunds, and a charge may follow |
| `FileTask.SetUpAlwaysFails` | app/data_ingest_tasks.py:121-122 | when the set-up raises in every call, as it does today, no step body runs and a job is the refund of its first call |
| `FileTask.AsWrittenCall` | app/classes/step.py:54 | as written every call whose set-up succeeds starts the process body and then refunds the document |
| `FileTask.AsWrittenNeverCharges` | app/classes/step.py:54 | as written no job ever charges tokens or deletes its file |
| `Ledger.Cost.Purchase` | app/definition/_cost.py:71-74 | one item is added with its subtotal rounded up, and the total stays the total of the list |
| `Ledger.Cost.Refund` | app/definition/_cost.py:85-88 | the same on the refund side |
| `Ledger.Cost.ResetBill` | app/definition/_cost.py:76-83 | both lists and totals are empty, the last total only when forced |
| `Ledger.Cost.GenerateBill` | app/definition/_cost.py:90-111 | the total of the bill is the total of its purchases minus that of its refunds |
| `Ledger.Cost.Add` | app/definition/_cost.py:116-121 | as written the refund list is doubled instead of merged; the bill stays balanced exactly when both refund lists have the same total |
| `Ledger.MergeIntoFresh` | app/definition/_cost.py:116-121 | counterexample: merged into a fresh bill, refunds are counted but not listed |
| `Ledger.CeilOfInt` | app/classes/cost_definition.py:20-22 | whole numbers are charged as they are |
| `Ledger.RoundingPerItem` | app/classes/cost_definition.py:20-22 | rounding every amount up costs at least as much as rounding the sum up, and less than one more per amount |
| `IngestCost.ToKb` | app/services/file/file_service.py:109-114 | bytes become whole kilobytes, rounded up |
| `IngestCost.MarkdownCost.Compute` | app/cost/ingest_cost.py:161-172 | every chosen database is charged the caps times the reserved numbers |
| `IngestCost.MarkdownCost.PostRefund` | app/cost/ingest_cost.py:80-126 | sizes are converted in place and every chosen database gets back what each document left of the html cap plus the caps of documents that never came, in both detail modes |
| `IngestCost.MarkdownCost.RefundDocuments` | app/cost/ingest_cost.py:86-110 | the loop converts, counts and refunds each document once, per document or in one sum |
| `IngestCost.NetChargeFormula` | app/cost/ingest_cost.py:80-126 | for every list and reservation: a database pays the kilobytes used, plus the difference between cap charged and cap refunded per pdf document, minus the caps of documents beyond the reservation |
| `IngestCost.Conservation` | app/cost/ingest_cost.py:88-94 | within the reservation, reservation minus refund equals the kilobytes used exactly when no pdf document came or pdf documents are refunded against the cap they were charged with (as written: the two caps are equal) |
| `IngestCost.EachDatabasePays` | app/cost/ingest_cost.py:80-172 | an amount is due once for every database chosen, so that both together pay twice what one pays |
| `IngestCost.CrawlBills` | app/data_ingest_tasks.py:322-324 | the bill of the request and the bill of the job, on ledgers of their own, together come to the net charge per database, and within the reservation to what was used exactly when no database was chosen, no pdf document came or the caps are equal |
| `IngestCost.KilobytesOfBytes` | app/services/file/file_service.py:109-114 | the kilobytes charged exceed the exact size by less than one per document |
| `IngestCost.RefundNonNegative` | app/cost/ingest_cost.py:88-97 | documents within the cap they are refunded against never make the document refund negative |
| `IngestCost.CutDocumentsRefund` | app/data_ingest_tasks.py:575-580 | documents the slicer cut to the cap they are refunded against, with the size it counted, leave a refund that is not negative |
| `IngestCost.RefundNonNegativeIff` | app/cost/ingest_cost.py:86-97 | the refund for the documents is not negative exactly when the kilobytes used do not exceed the caps they are refunded against |
| `IngestCost.PdfRefundCanBeNegative` | app/cost/ingest_cost.py:90-91 | counterexample: as written a 5 megabyte pdf, within its own cap, takes 3072 credits back |
| `IngestCost.ConversionIdempotentIff` | app/cost/ingest_cost.py:88 | converting a size twice is harmless exactly up to one kilobyte |
| `Utf8.RoundTrip` | app/ingestion/crawl_ingestion.py:668-711 | decoding undoes encoding |
| `Utf8.ReadIffEncoded` | app/ingestion/crawl_ingestion.py:711 | for all bytes: the decoder reads a character exactly when they start with its encoding, so overlong and torn forms are refused |
| `Utf8.TruncationKeepsWholeCharacters` | app/ingestion/crawl_ingestion.py:711 | cutting the bytes anywhere and ignoring errors leaves the longest prefix of the text that fits |
| `Utf8.FittingIsLongest` | app/ingestion/crawl_ingestion.py:711 | a prefix fits exactly when it is not longer than that one |
| `MarkdownSlicer.JoinOfParagraphs` | app/ingestion/crawl_ingestion.py:673-714 | joining the paragraphs of a document with blank lines gives the document back |
| `MarkdownSlicer.NoBlankLineInside` | app/ingestion/crawl_ingestion.py:673 | a paragraph contains no blank line |
| `MarkdownSlicer.SizeOfJoin` | app/ingestion/crawl_ingestion.py:677-681 | what the loop counts is the size of the joined paragraphs |
| `MarkdownSlicer.SomeParagraphDoesNotFit` | app/ingestion/crawl_ingestion.py:677-706 | sizes and separators add up to the size of the document, so the sentence branch is reached exactly when the document is over the limit |
| `MarkdownSlicer.FittingParagraphsFit` | app/ingestion/crawl_ingestion.py:684-706 | the paragraphs kept fit and one more would not |
| `MarkdownSlicer.FittingSentencesFit` | app/ingestion/crawl_ingestion.py:688-699 | the sentences kept fit and one more would not |
| `MarkdownSlicer.InkOfSentences` | app/ingestion/crawl_ingestion.py:686 | splitting into sentences loses nothing but white space |
| `MarkdownSlicer.SentencesAreTheSplit` | app/ingestion/crawl_ingestion.py:686 | the sentences of a text are the one way to take it apart at gaps of white space, each gap after a stop and as wide as it can be, with no stop before white space left inside a part |
| `MarkdownSlicer.SliceMarkdown` | app/ingestion/crawl_ingestion.py:652-720 | the method returns what the specification of the slice says, bare text where the code does |
| `MarkdownSlicer.SliceFits` | app/ingestion/crawl_ingestion.py:664-720 | text and counted size never exceed the limit; a document within it is returned as it is |
| `MarkdownSlicer.SliceIsPrefix` | app/ingestion/crawl_ingestion.py:673-720 | apart from white space the slice is a prefix of the document |
| `MarkdownSlicer.ShrinkIs` | app/ingestion/crawl_ingestion.py:716-718 | shrinking leaves the whole text when it fits, else the longest prefix that fits and stops before a space, else, when there is none, the longest prefix that fits |
| `MarkdownSlicer.ShrinkKeepsLongest` | app/ingestion/crawl_ingestion.py:716-718 | shrinking keeps at least every prefix that fits and stops before a space |
| `MarkdownSlicer.CountedAgainstActual` | app/ingestion/crawl_ingestion.py:688-714 | by how many bytes the joined text differs from the size counted for it, and exactly when they agree |
| `MarkdownSlicer.SizeIsOfTextIff` | app/ingestion/crawl_ingestion.py:688-720 | for every document returned with a size: when the joined text fits, the size is that of the text exactly if no sentence was kept, or the document starts with the kept ones and they are two of more or the only one; when it is shrunk, exactly if as many bytes are cut off as were not counted |
| `MarkdownSlicer.CountsAByteTooMany` | app/ingestion/crawl_ingestion.py:688-714 | counterexample: "A. BB" cut to three bytes is "A." with a size of three |
| `MarkdownSlicer.ShrunkSizeMatchesIff` | app/ingestion/crawl_ingestion.py:714-720 | for a letter, a paragraph break and a sentence that is shrunk by one byte or back to its last space: the size is that of the text exactly if the sentence has no space |
| `MarkdownSlicer.SizedIff` | app/ingestion/crawl_ingestion.py:669-711 | a size is returned exactly when the document is over the limit and its first paragraph, or first sentence with the byte after it, fits |
| `Embeddings.EmbeddingWrapper.Create` | app/classes/embeddings.py:75-93 | a supplied norm is kept unchecked, a missing one is computed; the empty vector fails only then |
| `Embeddings.EmbeddingWrapper.Norm` | app/classes/embeddings.py:123-139 | the norm is recomputed and kept, an empty vector fails |
| `Embeddings.EmbeddingWrapper.Cosine` | app/classes/embeddings.py:96-120 | errors in the order of the code, else the dot product over the product of the norms |
| `Embeddings.EmbeddingWrapper.Equals` | app/classes/embeddings.py:141-142 | equal exactly when the cosine reaches the threshold of the left operand |
| `Embeddings.CauchySchwarz` | app/classes/embeddings.py:114-120 | with correct norms the product of the norms bounds the dot product on both sides |
| `Embeddings.CosineInRange` | app/classes/embeddings.py:99-100 | with correct norms the cosine lies between -1 and 1 |
| `Embeddings.StoredNormKeepsRangeIff` | app/classes/embeddings.py:81-90 | for every vector and every stored norm but zero: all cosines with correctly normed vectors lie between -1 and 1 exactly when the stored norm is, in absolute value, not below the true one |
| `Embeddings.WrongNormLeavesRange` | app/classes/embeddings.py:81-90 | counterexample: a wrong stored norm gives a cosine of 4 |
| `Embeddings.CosineSymmetric` | app/classes/embeddings.py:96-120 | the cosine is symmetric, errors apart from the order of the dimensions |
| `Embeddings.ZeroMagnitudeIffAllZero` | app/classes/embeddings.py:117-118 | with correct norms the zero magnitude error is raised exactly for an all-zero operand |
| `Embeddings.CosineOneIffSameDirection` | app/classes/embeddings.py:96-120 | with correct norms the cosine is 1 exactly for vectors that are positive multiples of each other |
| `WebhookBatch.LockedStep` | app/interface/webhook_adapter.py:100-116 | every step keeps the lock discipline: readers share, a writer is alone |
| `WebhookBatch.SnapshotStep` | app/interface/webhook_adapter.py:113-115 | the copied batch still is the whole buffer when the buffer is cleared |
| `WebhookBatch.SeparateStep` | app/interface/webhook_adapter.py:96-120 | no step puts a payload in two places |
| `WebhookBatch.InsertedIsBuffered` | app/interface/webhook_adapter.py:100-103 | a payload just stored is in the buffer and nowhere else |
| `WebhookBatch.Conservation` | app/interface/webhook_adapter.py:96-120 | in every interleaving of any number of adds and flushes each stored payload is in exactly one place: buffer, a batch in flight, delivered, failed or overwritten |
| `WebhookBatch.OnlyFullFlushes` | app/interface/webhook_adapter.py:96-120 | in every interleaving an add starts to flush only if the buffer had reached the maximum when it stored, and finishes without one only if it had not |
| `WebhookBatch.DecidesBySize` | app/interface/webhook_adapter.py:105-116 | what an add does next is decided by the size it saw when it stored; a flush gives up exactly on an empty buffer |
| `WebhookBatch.FullIsAttended` | app/interface/webhook_adapter.py:105-116 | whenever the buffer holds the maximum or more, some task is between its insertion, or the start of its flush, and the clearing |
| `WebhookBatch.Quiescent` | app/interface/webhook_adapter.py:96-120 | when all tasks have finished less than a batch is left and every payload is accounted for |
| `WebhookBatch.OverwrittenIff` | app/interface/webhook_adapter.py:101-102 | a payload is lost to another one exactly when a task stores under a key in use |
| `WebhookBatch.DifferentKeysLoseNothing` | app/interface/webhook_adapter.py:101-102 | as long as no two adds draw the same key no payload is lost to another one, in any interleaving |
| `WebhookBatch.NoLossIffKeysDiffer` | app/interface/webhook_adapter.py:101-102 | for all keys drawn: no interleaving loses a payload to another one exactly if the keys are pairwise different |
| `WebhookBatch.SameKeyLoses` | app/utils/helper.py:496-499 | counterexample: for any two adds that draw the same key, as they do at the same clock reading, an interleaving that loses the first payload |
| `WebhookBatch.SomeTaskCanStep` | app/interface/webhook_adapter.py:96-120 | there is no deadlock: in every state a run can reach with an unfinished task some task can take a step |
| `WebhookBatch.StepTakesOn` | app/interface/webhook_adapter.py:96-120 | every step that changes anything lowers the number of steps left, so the tasks come to an end |
| `WebhookBatch.RunCanFinish` | app/interface/webhook_adapter.py:96-120 | from every state a run can reach all tasks can still finish, in at most the steps left |
| `WebhookRetry.Retry` | app/interface/webhook_adapter.py:48-60 | at most one call more than the allowed attempts; only delivery errors are called again; any other outcome of the last call is the result as it is, and nothing is returned when all were delivery errors |
| `WebhookRetry.KeptIffNotRetryable` | app/interface/webhook_adapter.py:48-60 | for every sequence of outcomes, budget and code set: the code does what is promised exactly when the first outcome that is no delivery error, if one comes within the budget, is not an answer to be retried |
| `WebhookRetry.LastAttempt` | app/interface/webhook_adapter.py:48-60 | on a retryable answer to the last allowed call the code returns the answer where the promise has nothing left to return |
| `WebhookRetry.UnavailableIsNotRetried` | app/interface/webhook_adapter.py:54-56 | counterexample: an answer with 503 is returned at once and never retried |
| `StreamParsers.StreamParser.UpState` | app/classes/stream_data_parser.py:38-60 | one state is ticked off, refused or ignored as the kind of parser says |
| `StreamParsers.SequentialCompletes` | app/classes/stream_data_parser.py:55-60 | complete exactly when the reversed initial list can be read off the states received, others in between or not |
| `StreamParsers.ContinuousCompletes` | app/classes/stream_data_parser.py:38-51 | complete exactly when every awaited state came at least as often as it is awaited |
| `KeepAlive.ReceivedKeepsStates` | app/manager/keep_alive_manager.py:73-84 | for every message sequence the initial states are those collected and those still awaited |
| `KeepAlive.CompleteIff` | app/manager/keep_alive_manager.py:73-84 | which message sequences, damaged messages included, complete each parser, and that all states are then collected |
| `KeepAlive.CollectedIsLast` | app/manager/keep_alive_manager.py:73-84 | for every message sequence the value collected for a state is the data of the last message that brought it while it was awaited |
| `KeepAlive.ErrorIsOfLast` | app/manager/keep_alive_manager.py:73-84 | and the error kept is that of the last message, which error and exactly when |
| `KeepAlive.KeepAliveManager.Next` | app/manager/keep_alive_manager.py:73-90 | one message updates value, parser and error as specified, an accepted one clearing an earlier error |
| `KeepAlive.KeepAliveManager.WaitFor` | app/manager/keep_alive_manager.py:121-160 | budget left plus time waited is the timeout and the budget never negative; no wake-up before the deciding one ends the waiting, and that gives the answer; a timeout means more was waited |
| `KeepAlive.WentOnIff` | app/manager/keep_alive_manager.py:143-160 | waiting went on up to a wake-up exactly when after each one before it there was no error and states were missing |
| `KeepAlive.DriftIsFree` | app/manager/keep_alive_manager.py:143-145 | the time waited falls short of the clock by the gaps between the two readings of each turn |
| `SteppedRanges.TestIsMembership` | app/classes/url.py:334-335 | the modulus test is membership in the enumerated range, for steps of either sign |
| `SteppedRanges.DifferenceIsSetDifference` | app/classes/url.py:332-340 | the result is exactly the set difference, in the order of the main range, each value once |
| `SteppedRanges.Validate` | app/classes/url.py:240-282 | a pair of ranges is accepted exactly when steps and bounds are as the validators demand |
| `SteppedRanges.SubtractSteppedRanges` | app/classes/url.py:327-340 | the code computes the difference with step and end of the excluded range swapped, and the errors of a zero step |
| `SteppedRanges.RightIffTestsAgree` | app/classes/url.py:330 | for all ranges: it is the promised difference exactly when no member of the main range is divided by an end of zero and the swapped test and the right one agree on all of them |
| `Progressions.CommonMeans` | app/classes/url.py:334-335 | the values common to two stepped ranges are the terms of one arithmetic progression, computed from their bounds and steps |
| `Progressions.SameTermsSame` | app/classes/url.py:334-335 | two progressions have the same terms only if number, first value and stride are the same |
| `SteppedRanges.RightIff` | app/classes/url.py:240-282 | for every pair of ranges the validators accept: the result is right exactly when the main step is negative, which leaves an empty range, or the values to be excluded and those excluded with step and end swapped have the same number, first value and stride; with an end that is not positive, when there is nothing to exclude |
| `SteppedRanges.ExcludedFromItself` | app/classes/url.py:240-282 | a range is accepted as its own exclusion exactly when its step is not zero and it does not end before it starts; nothing should then be left |
| `SteppedRanges.DropsOnlyTheFirst` | app/classes/url.py:330 | counterexample: excluding 0, 2 and 4 from 0 to 9 drops only 0 |
| `SteppedRanges.DropsTooMuch` | app/classes/url.py:330 | counterexample: excluding only 0, as 0 to 1 by 5, from 0 to 9 drops 2 and 4 as well |
| `SteppedRanges.EndIsDroppedIff` | app/classes/url.py:344-348 | with an exclusion the end value of the range is lost exactly when the step hits it |
| `EnvSelectors.ComputePValues` | app/classes/env_selector.py:14-25 | the ratio of alive to expected workers, zero without expected ones |
| `EnvSelectors.ComputeScores` | app/classes/env_selector.py:58-102 | every environment gets its base score and what the broker adds to it |
| `EnvSelectors.Differences` | app/classes/env_selector.py:58-102 | by exactly how much each environment leads the next, for every broker, threshold and load |
| `EnvSelectors.RedisNeverLiftsWorker` | app/classes/env_selector.py:85-96 | for every weight that is not negative: what the worker leads under Redis it leads under RabbitMQ, and what leads it under RabbitMQ leads it under Redis |
| `EnvSelectors.ApsKeepsLeadIff` | app/classes/env_selector.py:85-96 | going over to Redis APS keeps all it leads, whatever the workers do, exactly for weights below the threshold or from 0.3125 on |
| `EnvSelectors.MaskedIffAllowed` | app/classes/env_selector.py:107-112 | something is left after masking exactly when the mask has a 1 |
| `EnvSelectors.ShiftKeepsWeights` | app/classes/env_selector.py:130-169 | softmax and the form shifted by any amount have the same weights |
| `EnvSelectors.WeightsAreDistribution` | app/classes/env_selector.py:135-137 | the weights are positive and sum to one |
| `EnvSelectors.BisectInterval` | app/classes/env_selector.py:137 | a draw picks a position exactly when it falls into the interval of its weight |
| `EnvSelectors.SoftmaxIsBoltzmann` | app/classes/env_selector.py:125-169 | for every score list, mask, temperature and draw both choose the same, differing exactly in the error for a mask without a 1 |
| `EnvSelectors.NeverMasked` | app/classes/env_selector.py:107-169 | no selector returns an environment without a 1 in the mask |
| `EnvSelectors.GreedyIsMaximal` | app/classes/env_selector.py:150-151 | the greedy branch returns an allowed environment that no allowed one outscores |
| `EnvSelectors.GreedyChoice` | app/classes/env_selector.py:139-152 | below epsilon the allowed environment at the random index, else the first allowed one with the highest score |
| `EnvSelectors.RandomChoice` | app/classes/env_selector.py:107-123 | the allowed environment at the random index, an error without any |
| `EnvSelectors.DrawsByProbability` | app/classes/env_selector.py:125-137 | the softmax selector returns the allowed environment into whose share of the weights the draw falls |
| `EnvSelectors.HigherScoreHigherProbability` | app/classes/env_selector.py:125-137 | at a positive temperature, of two entries the one with the higher score has the greater weight, exactly |

## Left out

- Abstract class resolution, build conditions and possible dependencies of the container: user code decides them; only the names they add are kept.
- `need`, `reloadDep`, scopes and the injector's automatic binding: the walks and bindings modelled do not reach them.
- Containers.Container.Register: a name that is already bound is replaced by the code; the model says what is bound then, but not that the container stays valid.
- UsedByWalks.Propagation.Recursive: takes a ranked region, which exists on every acyclic one; without one the code does not come to an end. Locks, the thread pool and verification calls are replies.
- UsedByWalks.SetServiceStatus: a recursive message is modelled for services that have a link table, which the decorator of a service class gives them, and on a region without cycles; on a cycle the code does not come to an end, and a class registered without the decorator ends the message with a lookup error that is caught.
- UsedByWalks.Propagation.Destroy: `_destroyer` (app/definition/_service.py:333-351) catches four of the build errors; any other exception of a service's `destroy` leaves it and would end the walk, where the model takes the service as not destroyed and goes on.
- Containers.Container.ToParams: the result is keyed by type, not by the name of the parameter, types do not repeat in an accepted signature; a name that is known but not bound, which the injector would bind on its own, is an error in the model, and `Containers.Container.Register` shows that none arises after a build.
- Lifecycle.CallableIff: the process exit after a failed build inside the container scope, methods marked unavailable one by one, and the reader lock that a status check waits for are not modelled.
- Steps.JobKeeps: stated for the step machine that can read its time stamp; as written `Steps.AsWrittenNothingIsRecorded` holds instead.
- FileTask.RefundExcludesCharge: stated for jobs without a retry out of a compensation, `FileTask.ContinuesRightIff` says exactly what such a retry does; the credit service, the file service and the queue are oracles; the crawl and research tasks have refunds that do nothing yet.
- Steps.Step.Enter: `current_params` is not modelled.
- DecoratorSafety.CallIsAccepted: a handler that calls inwards more often than a limit is cut off with an exception; the limit is arbitrary.
- DecoratorSafety.ExceptionsReachTheHandler: a service ping, a status lock or an interceptor function between the exception and the handler is an arbitrary function around the call and may do anything with it; `DecoratorSafety.ReachesFunctionAround` says how the exception gets there.
- DecoratorSafety.TargetIsGuarded: the arguments given to the functions of a decorator are part of the model but what argument filtering drops from them is not.
- Limiter, throttle, service ping and status lock decorators: each is an arbitrary function around the call; class decorators, roles and HTTP routing are not modelled.
- IngestCost.Conservation: counts above the reservation are covered by `IngestCost.NetChargeFormula`; credits are not deducted, the two bills of `IngestCost.CrawlBills` are where the model stops.
- Ledger.Cost.Purchase: amounts and quantities are reals; the other cost classes only call it.
- MarkdownSlicer.SliceMarkdown: text without surrogates, which is what can be encoded; the limit is a number of bytes given from outside.
- Embeddings.CosineInRange: over the reals, so without rounding; the norm is given as the non-negative root of the sum of squares.
- WebhookBatch.Conservation: cancellation of tasks, the order inside a batch and the priority of waiting writers are not modelled; a batch whose delivery raises counts as failed.
- WebhookRetry.Retry: the synchronous wrapper has the same body.
- KeepAlive.KeepAliveManager.WaitFor: wake-ups are a finite list; without keep-alive the given result is returned at once.
- StreamParsers.StreamParser.UpState: the list the parser shares with its creator is a field of the parser.
- SteppedRanges.RightIff: for ranges the validators accept; `SteppedRanges.RightIffTestsAgree` is for all ranges with steps other than zero.
- EnvSelectors.SoftmaxIsBoltzmann: overflow of the exponential function is not modelled; of it only the sum rule and positivity are used.
- HTTP, WebSocket, gRPC, database, queue and scheduler calls, logging, printing, model validators and templates.
