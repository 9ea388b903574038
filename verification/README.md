# Policy authorization server: a verified model

The server decides HTTP and Envoy authorization requests with policies written in CEL.
Watch events keep a store of policies and exceptions up to date; each load compiles the
stored policies through a cache; each request is evaluated against the compiled policies
in order; the decision is recorded and emitted as an event that ends up in a report.
The project models that path and proves what its parts promise to each other.

| file | models |
|---|---|
| `Api.dfy` | policies, exceptions and the reduced expression language |
| `StoreModel.dfy` | the store as a value: the effect of each watch event, whole event runs, the batch join they must agree with |
| `Store.dfy` | the store on the heap: policy and exception objects that point at each other, updated in place |
| `Decimal.dfy`, `Ordering.dfy` | printing and parsing of integers; the sorted listing of a set of names |
| `CacheKey.dfy`, `KubeSource.dfy` | the cache key, the exception counter, memoised compilation, which can fail or panic, over whole runs |
| `Loads.dfy` | loads as interleaved steps, with watch events between listing, lookup and compilation, that fail or end at any moment |
| `StaticSource.dfy` | the batch join and the all-or-nothing load of the file-based source, and its agreement with the live source |
| `Cel.dfy`, `Compiler.dfy`, `Evaluation.dfy` | typing, compilation with scoped variables, evaluation with lazily evaluated variables |
| `Dispatch.dfy`, `Frontends.dfy` | the early-stopping dispatcher, the HTTP and Envoy front ends |
| `RingBuffer.dfy`, `Reports.dfy` | the ring buffer and the report pipeline as interleaved atomic steps |
| `Mcp.dfy` | decoding of MCP requests and the coercing argument getters |

## How to read it

Code that changes objects in place is a class (`Store.CompositeStore`,
`KubeSource.CompileCache`, `Compiler.VariablesProvider`, `Evaluation.LazyVariables`,
`Dispatch.PolicyMetrics`, `Frontends.Recorder`, `RingBuffer.RingBuffer`,
`Reports.Subscriber`); its methods are proved against functions on values, and the laws
are lemmas about those functions. For the store the value is a `Graph`, whose atoms are
the heap objects, so that "the same object" can be said; `ViewOf` forgets the identities.
What runs on several goroutines is a machine whose steps are the atomic actions, and a run
is any sequence of steps: in `Reports` a queue operation, one counter update, one ring push,
one ring or counter read; in `Loads` the handling of one event, the listing, one key
computation, one compilation, whose effects are those in the contracts of the store's
methods. `CacheKey` and `KubeSource` take a load as one step that no event interrupts, and
`Loads` does not.

Some laws go from what is put in to what comes out, across several of these functions:
`Frontends.DeniedExactly` from the policies to the decision that is recorded (through
`Evaluation.PolicyAnswersExactly`, `Evaluation.PolicySilentExactly` and
`Dispatch.AnswerIsFirst`), `Loads.LoadAnswersEach` from the store to the policies a load
hands out, `Reports.SerialReportsExactly` from the stored results to the reports.

Where a property does not hold of the code as it stands, the code is kept, a lemma gives
an input that breaks the property, and another lemma says exactly when it holds:

- An exception that is delivered while none of its policies is present is not stored, and
  an exception update that drops a policy leaves that policy linked to the old text
  (`StoreModel.EarlyExceptionIsLost`, `StoreModel.DroppedReferenceStaysLinked`). The store
  gives the batch join at every moment of a run if and only if each delivery names again
  the surviving policies that the text it replaces names, and each created policy finds
  stored what was delivered for it (`StoreModel.StoreRefinesBatch`). Both are told from the
  events alone, since what is stored under a key is the last delivery that reached a
  surviving policy, unless the key was deleted since (`StoreModel.StoredExactly`). A guard
  that needs no history, `StoreModel.Accepted`, is sufficient for that, and it is exact for a stronger promise:
  that the store stays right when any policy is removed and created again
  (`StoreModel.StoreStaysFaithful`).
- The cache key is a plain concatenation (`CacheKey.KeyCollides`, `CacheKey.StaleCompile`).
  When two keys are equal is stated exactly in names, versions and counters
  (`CacheKey.KeysEqualExactly`). With honest versions every load of a run is fresh if and
  only if the key tells a looked-up state that compiles from the later ones
  (`CacheKey.CachedLoadsFreshExactly`).
- A load that events interrupt can answer with a policy that is gone
  (`Loads.ReplacedBeforeCompile`). An answer is current if and only if its policy was not
  deleted since the listing (`Loads.InterruptedLoadsExactly`).
- A policy that is deleted between its lookup and its compilation leaves the store's lock
  taken, and nothing happens any more (`Loads.DeletedBeforeCompile`). A step does so if and only if it compiles a policy that is gone
  since its key was computed (`Loads.LockStaysExactly`); on the heap,
  `Store.CompositeStore.SelectExceptions` leaves the lock free if and only if the policy
  is present.
- An exception that does not compile crashes the compilation instead of being reported,
  because the error variable that is tested is not the one that was assigned
  (`Compiler.BadExceptionPanics`). `Compiler.Compile` panics if and only if the policy is
  in order and some exception is not.
- The creation of a report reads the counters before the ring
  (`Reports.CreationCanOvertake`). `Reports.ConsistentExactly` says which configurations
  and paths are safe in every interleaving.
- A repeated variable name can make the variable read itself, and need not
  (`Compiler.RepeatedNameMayKnot`). What compiles can be evaluated over some order of its
  variables if and only if no chain of reads from its rules and exceptions comes to a knot,
  a set of names whose programs each read one of them; a knot that nothing reads is
  harmless (`Compiler.SupportedExactly`, `Evaluation.CompiledRunsExactly`). Over whichever
  order it runs, it means the same (`Evaluation.MeaningIgnoresVariableOrder`). Unique names,
  which the policy schema requires, never knot (`Compiler.UniqueNeverKnots`).
- A repeated variable name that does not knot can still change its type after it was read:
  what was checked as a boolean is null when it runs, and the evaluation fails in a branch
  for values of a wrong type (`Evaluation.RepeatedNameRetypes`). When every name keeps its
  type, as unique names do (`Compiler.UniqueKeepsTypes`), those branches are never taken
  (`Evaluation.CompiledIsWellTyped`).
- The map of exceptions is walked in any order, and the order can decide between a
  no-match and an error (`Evaluation.ExceptionOrderShows`). It cannot if and only if the
  exceptions are not contested, one being all true while another fails, or the match
  conditions do not hold, or errors are ignored (`Evaluation.ExemptionIgnoresOrderExactly`,
  `Evaluation.MeaningIgnoresOrderExactly`).
- A policy that does not compile is left out by the live source, and makes the static
  source hand out nothing at all (`StaticSource.OneBadFileHidesAll`). The static source hands
  out its policies if and only if the live one leaves none out
  (`StaticSource.SourcesLoadAlike`); policy by policy they compile, and panic, alike
  (`StaticSource.SourcesCompileAlike`).
- The static source walks its policies in any order too, and contradicting policies make
  that visible (`StaticSource.PolicyOrderShows`). When it hands out policies that run and do
  not show the order of their exceptions, its answer is the live one in every walk if and
  only if all policies that say something say the same
  (`StaticSource.SourcesAnswerAlikeExactly`).
- The two front ends test result and error in opposite orders; they agree if and only if
  an outcome does not carry both (`Frontends.FrontEndsAgreeExactly`), and no evaluation
  does (`Evaluation.NeverBoth`). The event of an HTTP request tells the recorded decision
  unless the output expression fails after it (`Frontends.HttpEventTellsDecisionExactly`).

The comment above `parseMCPRequest` (pkg/cel/libs/authz/http/types.go:86-91) says that the
id of an envelope survives params that do not decode; the code keeps the method only, and
so does `Mcp.ParseMcpRequest`.

Assumptions about libraries that are not part of this model: the compile cache keeps the
first value computed under a key, computes one only when none is kept, looks policies up in
the order the store lists them and runs one load at a time. A policy whose compilation is an
error is left out of the load and nothing is kept for it, as the comment at
pkg/engine/compiler/compiler.go:45-49 describes the library, and a later load compiles it
again; `Loads` assumes less, as there a load may also end at any moment, and so at the first
failure. A compilation that panics ends the load. A file-based source that returns an error
hands out nothing; what the server does without it is not modelled. The dispatcher
evaluates in order, feeds every output to the resulter and stops after the breaker fires;
the resulter answers with the first output it accepted; a lazy map runs each callback at
most when its value is not yet remembered; JSON decoding sees the same method in both
readings of an envelope.

## Model

| member | source | states |
|---|---|---|
| `StoreModel.StoreRefinesBatch` | pkg/engine/sources/composite_source.go:57-123 | at every prefix of a run the links of all policies are the batch join of the last delivered exceptions, if and only if each delivery names again every surviving policy that the text it replaces names, and each created policy finds stored the delivered exceptions that name it; the condition reads the events only |
| `StoreModel.StoredExactly` | pkg/engine/sources/composite_source.go:114-122 | an exception is stored if and only if some delivery under its key reached a surviving policy and the key was not deleted since, and then with the text of the last such delivery |
| `StoreModel.StoreStaysFaithful` | pkg/engine/sources/composite_source.go:57-123 | they are so now and after any one policy is removed and re-created, at every prefix, if and only if every exception delivery of the run was accepted |
| `StoreModel.AcceptedAgrees` | pkg/engine/sources/composite_source.go:110-122 | deliveries that pass the guard on the store alone keep the batch join throughout |
| `StoreModel.PolexStepExact` | pkg/engine/sources/composite_source.go:110-122 | one delivery keeps store and batch join in step exactly when some named policy is present and no linked policy is dropped, or nothing named is present and the store has nothing to forget |
| `StoreModel.FaithfulIsInSync` | pkg/engine/sources/composite_source.go:79-93 | agreeing now and after every removal and re-creation is the same as agreeing now with the stored exceptions being the delivered ones that name a policy |
| `StoreModel.RunIsLinked` | pkg/engine/sources/composite_source.go:57-123 | in every reachable store a linked exception sits under a stored key and names its policy, and a stored exception is linked, with its current text, from every present policy it names |
| `StoreModel.RunKeepsSurvivors` | pkg/engine/sources/composite_source.go:64-77 | the stored policies are those last written and not deleted since, with their last content |
| `StoreModel.TrimmedExactly` | pkg/engine/sources/composite_source.go:64 | one leading slash of a policy key is dropped and nothing else |
| `StoreModel.EarlyExceptionIsLost` | pkg/engine/sources/composite_source.go:114-122 | an exception delivered before its policy never reaches the policy, although the join would match it |
| `StoreModel.DroppedReferenceStaysLinked` | pkg/engine/sources/composite_source.go:114-122 | an update that moves an exception from one policy to another leaves the first linked to the old text |
| `Store.CompositeStore.HandlePolicy` | pkg/engine/sources/composite_source.go:57-94 | deleting, replacing in place or creating a policy keeps the object graph well formed and changes what it holds as the model says, lock released; a replacement keeps every policy object, a deletion removes one object and leaves its content alone, a creation adds a new object, and the exception objects stay |
| `Store.CompositeStore.HandlePolex` | pkg/engine/sources/composite_source.go:96-123 | delivering or deleting an exception keeps the object graph well formed and changes links, back references and counters as the model says; the policy objects and all other exception objects stay the same ones |
| `Store.PolicyCreatedKeeps` | pkg/engine/sources/composite_source.go:80-93 | creation links stored exceptions both ways to the one new object, so every back reference still is the stored object and is linked back |
| `Store.PolexUpsertedKeeps` | pkg/engine/sources/composite_source.go:110-122 | a delivery replaces the stored object without breaking identity or back links of any other exception |
| `Store.PolicyDeletedKeeps` | pkg/engine/sources/composite_source.go:65-71 | deletion leaves no back reference to the removed policy |
| `Store.PolexDeletedKeeps` | pkg/engine/sources/composite_source.go:100-109 | deletion removes the exception from every policy and from the store |
| `Store.WellFormedIsLinked` | pkg/engine/sources/composite_source.go:16-32 | a well-formed object graph, identities forgotten, is a linked store |
| `Store.CompositeStore.Load` | pkg/engine/sources/composite_source.go:42-55 | the stored policy objects in strictly increasing key order |
| `Ordering.SortKeys` | pkg/engine/sources/composite_source.go:46-48 | sorting gives the one increasing listing of the keys, in whatever order they were collected |
| `Ordering.ListsUnique` | pkg/engine/sources/composite_source.go:46-48 | two increasing listings of one set of keys are equal, so the load order depends on the surviving policies only |
| `Ordering.TextLessExactly` | pkg/engine/sources/composite_source.go:46-48 | a name comes before another if and only if at their first difference it ends or has the smaller character |
| `Store.CompositeStore.KeyFunc` | pkg/engine/sources/composite_source.go:125-134 | a key exists exactly for present policies and is made of name, version and that policy's counter |
| `Store.CompositeStore.SelectExceptions` | pkg/engine/sources/kube.go:40-56 | the linked exceptions of the policy's mode, each once; the lock is free afterwards if and only if the policy was present |
| `CacheKey.CounterVersionsExceptions` | pkg/engine/sources/composite_source.go:80-123 | while a policy is not deleted its counter never falls, and moments with equal counters have identical exception maps |
| `CacheKey.CounterCounts` | pkg/engine/sources/composite_source.go:80-123 | from zero at its creation, the counter of a policy is the number of times deliveries named it plus the number of exceptions deleted, linked or not |
| `CacheKey.KeyDeterminesTriple` | pkg/engine/sources/composite_source.go:133 | with names of one length and versions of one length, keys are equal if and only if name, version and counter are |
| `CacheKey.KeysEqualExactly` | pkg/engine/sources/composite_source.go:133 | for all triples, keys are equal if and only if one name-version text continues the other with digits that do not start with a zero, and the counter of the shorter text is these digits shifted past the other counter plus that counter |
| `CacheKey.MemoTransparent` | pkg/engine/sources/kube.go:37-40 | memoising by key, where computing a value may fail and then keeps nothing, answers every lookup as computing would if and only if a value that came out is the value of every later lookup under its key |
| `CacheKey.CachedLoadsFreshExactly` | pkg/engine/sources/kube.go:37-60 | when equal versions mean equal content without a deletion in between, all uninterrupted loads of a run equal recompiling everything if and only if the key of a state that compiled comes back with its name, version and counter only |
| `CacheKey.UniformLengthsSeparate` | pkg/engine/sources/composite_source.go:133 | names of one length and versions of one length make the key separate all looked-up states of a run |
| `CacheKey.StaleCompile` | pkg/engine/sources/composite_source.go:133 | a three-step run, with honest versions, whose load hands out one policy compiled as another |
| `KubeSource.CompileCache.CachedCompile` | pkg/engine/sources/kube.go:37-60 | one lookup through the cache: a hit returns the remembered compilation; a miss compiles the live policy with its selected exceptions, and keeps and returns it, or keeps and returns nothing if it is rejected; it panics only on a miss whose compilation panics; the cache stays the memo table of the lookups |
| `KubeSource.CompilableInAnyOrder` | pkg/engine/compiler/compiler.go:139-147 | whether a policy compiles, and whether that panics, depends on which exceptions it comes with and not on their order |
| `KubeSource.CompileCache.Load` | pkg/engine/sources/kube.go:37-60 | an uninterrupted load lists the policies and answers, for each in order, what the memo table of all lookups answers, and hands out those that compile; the cache is that table afterwards; the load panics only at a lookup that misses and whose compilation panics |
| `KubeSource.LoadedIsCurrent` | pkg/engine/sources/kube.go:37-60 | a load answers, in increasing order of exactly the surviving names, with the compilation of each policy's current content with its current exceptions if that compiles, and with nothing for the policy otherwise |
| `Loads.InterruptedLoadsExactly` | pkg/engine/sources/kube.go:40-58 | in every interleaving of events with the steps of loads, which may fail or end at any moment, when a version belongs to one content and one uninterrupted stretch of time and keys separate, an answer is the compilation of what the store holds at that moment if and only if its policy was not deleted since it was listed |
| `Loads.RunKeeps` | pkg/engine/sources/kube.go:37-60 | in every interleaving the load's pointers, computed keys and cached compilations are what the store held when they were taken |
| `Loads.AnsweredOrDropped` | pkg/engine/sources/kube.go:37-58 | in every interleaving, the first pending policy of a load is answered by a step if and only if it is present and its key is kept or its compilation succeeds, and is dropped unanswered if and only if it is absent at its lookup or compilation, its compilation fails, or the load gives up |
| `Loads.LoadAnswersEach` | pkg/engine/sources/kube.go:37-58 | a load that neither gives up nor fails to compile, while none of its policies is deleted, answers exactly once for each policy that was present when it started, in increasing order of names, whatever else happens in between |
| `Loads.EntriesStay` | pkg/engine/sources/kube.go:37-40 | a kept compilation is never replaced, and a lookup that hits answers with it |
| `Loads.ReplacedBeforeCompile` | pkg/engine/sources/kube.go:44-56 | a policy deleted and re-created between lookup and compilation is answered with its old content |
| `Loads.LockStaysExactly` | pkg/engine/sources/kube.go:44-49 | a step leaves the lock taken if and only if it compiles a policy that was deleted after its key was computed and is not back |
| `Loads.DeletedBeforeCompile` | pkg/engine/sources/kube.go:44-49 | the run of five steps that gets there |
| `Decimal.ItoaInjective` | pkg/engine/sources/composite_source.go:133 | decimal printing is injective over all integers |
| `Decimal.PrintedExactly` | pkg/engine/sources/composite_source.go:133 | the decimal form of a number is the one text of digits without a leading zero that has its value |
| `Decimal.AtoiOfItoa` | pkg/cel/libs/mcp/types.go:115 | a printed integer parses back exactly when it fits 64 bits |
| `Decimal.AtoiExactly` | pkg/cel/libs/mcp/types.go:115 | a text is read as a number if and only if it is digits after an optional sign that have this value, within 64 bits |
| `StaticSource.NewStatic` | pkg/utils/sources.go:25-46 | each policy is paired with the exceptions of its mode that name it, in file order |
| `StaticSource.Load` | pkg/utils/sources.go:54-65 | all policies compiled, in the order of the walk, if and only if each compiles, and nothing otherwise; a panic if and only if the first policy of the walk that does not compile panics |
| `StaticSource.MatchedMembers` | pkg/utils/sources.go:29-43 | an exception is matched if and only if it is loaded, has the policy's mode and names the policy |
| `StaticSource.MatchedConcat` | pkg/utils/sources.go:27-44 | matching goes through the exceptions in file order |
| `StaticSource.SameExceptions` | pkg/engine/sources/kube.go:51-56 | after a run whose events kept the agreement the live source hands the compiler exactly the exceptions the static source matches |
| `StaticSource.SourcesCompileAlike` | pkg/engine/sources/kube.go:51-58 | after such a run a present policy compiles from the live source if and only if it does from the static one, and panics there if and only if it does here |
| `StaticSource.PolicyMeansAlikeExactly` | pkg/utils/sources.go:54-65 | a present policy that runs over some order of its variables then means the same from both sources on a request, in whatever order its exceptions are walked, if and only if their order does not show on that request |
| `StaticSource.SourcesLoadAlike` | pkg/utils/sources.go:54-65 | the static source hands out its policies if and only if a current load of the live one leaves no present policy out |
| `StaticSource.SourcesAnswerAlikeExactly` | pkg/utils/sources.go:54-65 | with files that compile, run and do not show the order of their exceptions, the static source gives the answer of the live one in every walk of its map if and only if the policies that say something say the same |
| `StaticSource.OneBadFileHidesAll` | pkg/utils/sources.go:59-61 | a policy that denies beside one of an unknown mode: the static source hands out nothing, the live one denies |
| `StaticSource.PolicyOrderShows` | pkg/utils/sources.go:56 | two contradicting policies whose order decides the answer |
| `Compiler.Compile` | pkg/engine/compiler/compiler.go:42-156 | compiled, rejected at the first fault, or panicked: compiled if and only if policy and exceptions check, panicked if and only if only an exception does not; what is compiled holds the name, conditions, validations and exceptions in the order they were written in, under each variable name the program declared last, and Fail unless the failure policy is Ignore |
| `Compiler.BadExceptionPanics` | pkg/engine/compiler/compiler.go:139-147 | a policy in order that panics with an exception whose condition is not boolean |
| `Compiler.CompileVariables` | pkg/engine/compiler/compiler.go:109-125 | each variable is checked in the scope of the earlier ones, and registered afterwards; the first that does not check is reported |
| `Compiler.CompileException` | pkg/engine/compiler/compiler.go:186-208 | an exception compiles if and only if all its conditions are exactly boolean |
| `Compiler.LastDeclarationStays` | pkg/engine/compiler/compiler.go:109-124 | under a variable name stays the program that was declared last |
| `Compiler.VariableIsInScope` | pkg/engine/compiler/compiler.go:109-147 | a declared variable can be a rule if and only if it has the response type of the mode or is null, and a condition of an exception if and only if it is boolean |
| `Compiler.VariablesProvider.RegisterField` | pkg/cel/variables.go:26-29 | registering adds the field and its name and nothing else, and the table keeps every registered name with its last type |
| `Compiler.VariablesProvider.FindField` | pkg/cel/variables.go:53-61 | a name is found if and only if it was ever registered, with the type of its last registration |
| `Compiler.VariablesProvider.Check` | pkg/cel/variables.go:53-61 | checking an expression by looking its variables up in the table gives its type in the scope of the fields registered so far |
| `Compiler.ScopeIsOrdered` | pkg/engine/compiler/compiler.go:112-124 | variables that compile read earlier variables only, and the final scope is exactly the declared names |
| `Compiler.CompiledScoping` | pkg/engine/compiler/compiler.go:90-147 | match conditions read no variable; rules and exception conditions read declared variables only |
| `Compiler.SequencedExactly` | pkg/engine/compiler/compiler.go:109-124 | variables that compile have an order in which every read goes to an earlier one, if and only if no set of names has each surviving program reading one of them |
| `Compiler.SupportedExactly` | pkg/engine/compiler/compiler.go:109-124 | the programs that a set of reads needs can be put in such an order if and only if no knot is among the names that these reads come to, step by step |
| `Compiler.UniqueNeverKnots` | pkg/data/crds/policies.kyverno.io_validatingpolicies.yaml:730-733 | with unique names the declarations themselves are such an order |
| `Compiler.RepeatedNameMayKnot` | pkg/engine/compiler/compiler.go:109-124 | a repeated name that compiles and reads itself, and one that compiles and is harmless |
| `Compiler.UniqueKeepsTypes` | pkg/data/crds/policies.kyverno.io_validatingpolicies.yaml:730-733 | with unique names every name keeps the type it was checked under |
| `Cel.TypedReads` | pkg/cel/variables.go:53-61 | an expression that checks reads registered fields only |
| `Cel.EvalHasType` | pkg/engine/compiler/compiler.go:99-101 | a well-typed expression evaluates to a value of its type or to an error |
| `Evaluation.LazyVariables.Get` | pkg/engine/compiler/policy.go:78-89 | reading a variable gives its eager in-order value and remembers it, runs each program at most once, and ends |
| `Evaluation.LazyVariables.Run` | pkg/engine/compiler/policy.go:72-91 | evaluating over lazily evaluated variables equals evaluating over the eager environment |
| `Evaluation.LazyVariables.Fill` | pkg/engine/compiler/policy.go:78-89 | the callbacks are the programs, whatever order the map is walked in |
| `Evaluation.EnvFixpoint` | pkg/engine/compiler/policy.go:72-91 | each variable's eager value is its own expression over the whole environment |
| `Evaluation.Match` | pkg/engine/compiler/policy.go:44-70 | skipped if and only if some condition is false even amid errors, unclear if and only if none is false and some is not true |
| `Evaluation.MatchIgnoresOrder` | pkg/data/crds/policies.kyverno.io_validatingpolicies.yaml:184-189 | the case chosen is the same for every order of the conditions |
| `Evaluation.CheckException` | pkg/engine/compiler/policy.go:107-122 | broken if and only if some condition is not a boolean, otherwise matching if and only if all are true |
| `Evaluation.ExemptExactly` | pkg/engine/compiler/policy.go:107-128 | exempt if and only if some exception is all true and no condition of it or an earlier one fails |
| `Evaluation.BrokenExactly` | pkg/engine/compiler/policy.go:107-128 | broken if and only if a failing exception comes before any that is all true |
| `Evaluation.ExemptionIgnoresOrderExactly` | pkg/engine/sources/kube.go:51-56 | the exception verdict is the same for every order if and only if it is not the case that one exception is all true and another fails |
| `Evaluation.ExceptionOrderShows` | pkg/engine/compiler/policy.go:107-128 | a policy and two exceptions, all of which compile, whose order decides between a no-match and an error |
| `Evaluation.FirstRule` | pkg/engine/compiler/policy.go:129-165 | the first non-null rule decides, over lazily evaluated variables |
| `Evaluation.RulesExactly` | pkg/engine/compiler/policy.go:129-145 | when rule `i` is the first that is not null, the outcome is its response if it is of the right kind and an error otherwise |
| `Evaluation.ResultExactly` | pkg/engine/compiler/policy.go:93-146 | a response comes back if and only if all conditions are true, no exception exempts or breaks, and it is the first non-null rule and of the right kind |
| `Evaluation.FailedExactly` | pkg/engine/compiler/policy.go:93-146 | an error comes back if and only if no condition is false and one is not true, or they hold and a failing exception comes before any that is all true, or neither decides and the first non-null rule is no response of the right kind |
| `Evaluation.NoMatchExactly` | pkg/engine/compiler/policy.go:93-146 | nothing comes back if and only if a condition is false, or they hold and an exception exempts with none failing up to it, or neither decides and all rules are null |
| `Evaluation.PolicyAnswersExactly` | pkg/engine/compiler/policy.go:35-146 | a policy answers with a response if and only if its match conditions hold, no exception holds or fails, and the first of its validations that is not null is that response, of the right kind |
| `Evaluation.PolicyFailsExactly` | pkg/engine/compiler/policy.go:35-146 | it reports an error if and only if its evaluation comes to one and its failure policy is not Ignore |
| `Evaluation.PolicySilentExactly` | pkg/engine/compiler/policy.go:35-146 | it reports nothing if and only if it does not apply, is exempted from or says nothing, or it comes to an error and its failure policy is Ignore |
| `Evaluation.NeverBoth` | pkg/engine/compiler/policy.go:93-146 | no evaluation reports a response together with an error |
| `Evaluation.Evaluate` | pkg/engine/compiler/policy.go:35-42 | the whole evaluation equals the eager in-order meaning of the policy |
| `Evaluation.IgnoreTurnsErrorsIntoNoMatch` | pkg/engine/compiler/policy.go:35-42 | switching the failure policy to Ignore turns exactly the failed evaluations into no-matches |
| `Evaluation.CompiledRunsExactly` | pkg/engine/compiler/compiler.go:149-155 | what compiles can be evaluated over some order of the variables it needs if and only if no chain of reads from its rules and exceptions comes to a knot |
| `Evaluation.MeaningIgnoresVariableOrder` | pkg/engine/compiler/policy.go:78-89 | over any two orders that a policy runs over it means the same |
| `Evaluation.CompiledRuns` | pkg/engine/compiler/compiler.go:149-155 | whatever compiles from uniquely named variables can be evaluated in their order |
| `Evaluation.CompiledIsWellTyped` | pkg/engine/compiler/compiler.go:158-184 | over any order it runs over, when repeated names keep their types, conditions yield booleans or errors and rules null, errors or responses of the policy's mode, so the other branches are never taken |
| `Evaluation.RepeatedNameRetypes` | pkg/engine/compiler/compiler.go:109-124 | a policy with a repeated name that compiles and runs, and whose exception, checked as boolean, evaluates to null and fails the evaluation |
| `Evaluation.MeaningIgnoresOrderExactly` | pkg/engine/sources/kube.go:51-56 | over any order of the variables, the meaning is the same for every order of the exceptions, unless the conditions match, errors are reported, and one exception is all true while another fails: then it is not |
| `Dispatch.Dispatch` | pkg/authz/envoy/server.go:29-56 | stopping early gives the answer of evaluating everything, and exactly the policies up to the first with a result are counted |
| `Dispatch.PolicyMetrics.Evaluate` | pkg/metrics/policy.go:64-82 | the wrapper returns the inner output and counts it once, under the policy's name or "unknown", as an error, a denial, nothing or an allowance by what the output holds |
| `Dispatch.InsertNoMatch` | pkg/authz/http/server.go:112-116 | a policy that does not match can be inserted anywhere |
| `Dispatch.AppendAfterDecisive` | pkg/authz/http/server.go:112-116 | a policy appended after one that says anything changes nothing; after none, it takes over |
| `Dispatch.AnswerIsFirst` | pkg/authz/http/server.go:112-116 | the answer is the outcome of the first policy with a response or an error, and nothing when there is none |
| `Dispatch.AnswerIsResultExactly` | pkg/authz/envoy/server.go:46-55 | an error does not stop later evaluations but hides their results: the answer is a result if and only if no error came before the last policy evaluated, and then it is that policy's |
| `Dispatch.AnswerIgnoresOrderExactly` | pkg/utils/sources.go:54-65 | the answer is the same for every order of the policies if and only if all that say something say the same |
| `Frontends.Recorder.CheckEnvoy` | pkg/authz/envoy/service.go:22-65 | one decision and one event per check: denied, in both, if and only if there is a response that denies; an error if and only if there is an error and no response; allowed otherwise; the source is the policy if and only if the response says something, the engine if and only if it is an error, and the default otherwise |
| `Frontends.Recorder.ServeHTTP` | pkg/authz/http/authorizer.go:49-129 | one decision per request on every path: an error if and only if reading, the engine or the output failed, denied if and only if none did and the response denies, allowed otherwise, with the source that follows; one event, of the engine's answer alone, unless the request could not be read |
| `Frontends.BothFrontEndsDecideAlike` | pkg/authz/http/authorizer.go:87-108 | for any installed policies and any request both front ends reach one decision |
| `Frontends.DeniedExactly` | pkg/authz/http/authorizer.go:87-108 | from the policies to the decision: a request is denied, at either front end, if and only if the first installed policy that is not quiet about it answers with a response that denies |
| `RingBuffer.RingBuffer.Push` | pkg/events/ringbuf.go:24-38 | the buffer holds the most recent pushes, start and count in range |
| `RingBuffer.RingBuffer.Values` | pkg/events/ringbuf.go:40-48 | as many values as were pushed, up to the size, and these are the last ones pushed, oldest first |
| `Reports.RunConserves` | pkg/events/openreports.go:59-121 | in every run accepted events are queued, in hand, stored in order or failed; counters count them by outcome; the ring holds the latest stored ones |
| `Reports.CountersTell` | pkg/events/openreports.go:103-113 | the pass, fail and error counters hold the number of counted events with that outcome |
| `Reports.CountsOccurrences` | pkg/events/openreports.go:103-113 | which is how often the outcome occurs among them |
| `Reports.MarshalledConcat` | pkg/events/openreports.go:66-72 | what is stored is decided event by event, in order |
| `Reports.AttemptsWrite` | pkg/events/openreports.go:154-186 | in every run each attempt whose fetch did not fail has written one report |
| `Reports.SerialAttempts` | pkg/events/openreports.go:58-82 | without a flush interval there is one attempt per stored result, the last one over before the next event is taken |
| `Reports.SerialReportsExactly` | pkg/events/openreports.go:58-82 | and when no fetch fails, report number `i` lists the latest results up to result number `i`, with counters of one moment |
| `Reports.EndsWhenCancelled` | pkg/events/openreports.go:59-64 | the loop and the flush worker end after a cancellation only |
| `Reports.Balance` | pkg/events/openreports.go:45-96 | push calls = dropped + queued (at most 50) + taken; taken = counted; counted = stored + failed, up to the one event in hand |
| `Reports.RingCovered` | pkg/events/openreports.go:98-121 | the counters always cover the ring, outcome by outcome |
| `Reports.ConsistentExactly` | pkg/events/openreports.go:138-198 | no interleaving makes a report list more results of an outcome than it counts, except for a report created by the flush worker, and that one can |
| `Reports.CreationCanOvertake` | pkg/events/openreports.go:145-150 | the interleaving that creates an inconsistent report |
| `Reports.Subscriber.Push` | pkg/events/openreports.go:84-96 | queue the event, or drop it when 50 are waiting |
| `Reports.Subscriber.NewReportResult` | pkg/events/openreports.go:98-121 | the counter of the outcome, and no other, goes up before marshalling is tried |
| `Reports.Subscriber.ProcessEvent` | pkg/events/openreports.go:65-78 | one turn of the loop takes the first waiting event; a result is stored if and only if it marshals, and the loop goes on to write a report if and only if it does and there is no flush interval |
| `Reports.Subscriber.PushReport` | pkg/events/openreports.go:154-186 | one uninterrupted attempt publishes the ring and the counters of one moment, or nothing if fetching failed |
| `Mcp.Parse` | pkg/cel/impl/mcp.go:14-94 | the params field of the method holds the decoded params and no other is set; which field that is, method by method; decoding fails if and only if the envelope or those params do |
| `Mcp.ParseMcpRequest` | pkg/cel/libs/authz/http/types.go:92-111 | always a request: method, id and params as decoded when the body decodes, the method of the envelope alone otherwise (section 4 of the JSON-RPC 2.0 specification) |
| `Mcp.GetArguments` | pkg/cel/libs/mcp/types.go:57-77 | the argument map of the tool call, else of the resource read, else the texts of the prompt, each as they are |
| `Mcp.PriorityNeverMatters` | pkg/cel/libs/mcp/types.go:54-92 | for a parsed request any order gives the same arguments, namely the raw arguments read as a map |
| `Mcp.GetIntSlice` | pkg/cel/libs/mcp/types.go:182-206 | the elements the scalar getter would accept, coerced, in order |
| `Mcp.GetBoolSlice` | pkg/cel/libs/mcp/types.go:236-262 | the elements the scalar getter would accept, coerced, in order |
| `Mcp.CoercedConcat` | pkg/cel/libs/mcp/types.go:182-262 | slice getters distribute over concatenation |
| `Mcp.SliceOfOneExactly` | pkg/cel/libs/mcp/types.go:106-159 | a singleton gives [v] if and only if the scalar getter gives v under every default, and [] if and only if it always gives the default |
| `Mcp.AsIntExactly` | pkg/cel/libs/mcp/types.go:106-121 | an argument is read as the integer `n` if and only if it is that integer, a float whose whole part towards zero is `n`, or a text that writes `n` within 64 bits |
| `Mcp.AsBoolExactly` | pkg/cel/libs/mcp/types.go:142-159 | an argument is read as a boolean if and only if it is that boolean, one of its six spellings, or a number that is zero or not |
| `Mcp.PrintedIntReadsBack` | pkg/cel/libs/mcp/types.go:106-121 | a printed integer argument is read back if and only if it fits 64 bits |

## Left out

- CEL itself: parsing, the function libraries, dynamic reads such as `dyn(variables).x`, and program construction failures; expressions are a small syntax tree whose only typed errors are those of its operators.
- Data races: each locked method of the store, each counter update, ring push and ring read is one atomic step; the loop over a policy's exceptions after the lock was released is one step too.
- Store.CompositeStore.HandlePolicy: the lock is a flag that the method takes and frees, so that a caller waits for it is said in `Loads` only; counters are unbounded where the program's are 64-bit.
- KubeSource.CompileCache.Load: no event is handled between its steps; `Loads` is the model without that, on values.
- KubeSource.LoadedIsCurrent: assumes honest resource versions and separating keys; the exact condition is the one of `CacheKey.CachedLoadsFreshExactly`.
- StaticSource.SourcesAnswerAlikeExactly: takes the live answers to be current, which is what `KubeSource.LoadedIsCurrent` gives; where the order of some policy's exceptions shows, the live answer depends on it and `StaticSource.PolicyMeansAlikeExactly` is what is said.
- StaticSource.Load: one load; that the library loads the files once and keeps the result is not modelled.
- Frontends.Recorder.ServeHTTP: the content of requests and responses, the rewriting done by the input expression, status codes other than 500 and latencies are not modelled.
- Mcp.GetIntSlice: a float outside the 64-bit range converts to an implementation-defined integer in the program; here it truncates exactly.
- Float and string getters of MCP arguments follow the same pattern as the integer and boolean ones and need floating-point parsing.
- Kubernetes, OpenReports and Prometheus clients, timestamps, message formatting, JSON encoding: a fetch is found, not found or failed; marshalling succeeds or fails; a report counts as written once it is handed to the client.
- The Kubernetes event and log subscribers, and the fan-out to several subscribers: easy members beside the report pipeline.
- File, OCI and git sources, JWT and JWK, image data, server lifecycle, certificates, commands.
