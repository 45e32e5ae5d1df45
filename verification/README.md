# A verified model of the configuration, lifecycle and backend logic

This project models, in Dafny, the parts of the OpenTelemetry Collector and of the AgentOTel backend
whose correctness is decided by their own code rather than by libraries or input and output:

- **The configuration resolver.** A configuration is a tree of values; a string in it may hold
  references `${...}` to providers. One round replaces references by what their providers return,
  rounds repeat until nothing changes, at most 1000 times, and `$$` finally becomes `$`. Providers are
  arbitrary: an answer may depend on the number of the call, and may fail. Proved are what the search
  finds, the measure that ends the rounds, the normal form, what the result means, the escape round
  trip, that the order of a map does not matter, and that every resource obtained is closed exactly
  once (`UriSearch`, `Expansion`, `RoundLaws`, `Templates`, `NestedTemplates`, `Termination`,
  `ExpansionLimit`, `Escaping`, `MapOrder`, `Resolving`, `ResolutionLaws`, `Resolver`).
- **Merging, redaction and map lists** (`ListMerge`, `Redaction`, `RedactionInPlace`, `MapLists`).
- **The life of a collector.** The service and the collector are objects whose every call into other
  code may fail; their effects are journalled, and a monitor says what an orderly journal is
  (`Lifecycle`, `Collector`). Concurrent `Shutdown` calls are interleaved steps (`ShutdownProtocol`).
- **Canonical encodings.** A set of pipeline identifiers kept as one string (`PipelineId`,
  `PipelineParsing`, `InstanceId`), and the command-line flag that prints and parses feature gates
  (`FeatureGates`, `GateOutcomes`, `GateRegistry`).
- **The backend.** Timestamps compared as text (`Timestamps`, `TimestampText`), aggregation of spans
  (`Aggregation`, `AggregationLaws`, `AggregationRows`, `AggregationOrder`), login codes (`PhoneCodes`,
  `CodeOutcomes`), and agents with their keys (`AgentTables`, `AgentInvariants`, `AgentEffects`,
  `AgentStore`).

Operations that work step by step are methods, of classes where the program has objects, proved against
functions; the lemmas are about these functions. `Text`, `Sorting`, `Options` and `ConfTree` hold what
several modules share. `dafny verify dfyconfig.toml` checks everything.

Where the code does less than a reader might expect, the model follows the code:

- Names given to `NewIDWithName` are not validated. Strings identify sets of pipelines iff no name holds a
  space, which is less than validation demands (`InstanceId.IdentityIffSpaceless`); they can be read back iff all
  are valid (`InstanceId.DecodeInvertsBuildIff`).
- Deep equality does not hold of a value that is not a number and itself, so merging again can change a
  list; the condition is exact (`ListMerge.MergeIsIdempotentIff`).
- A list merged into a value that is no list panics, and merging later sources first can hide that; when
  exactly is stated by `ListMerge.GroupingsAgreeIff` and `ListMerge.AllGroupingsAgreeIff`.
- The library prints years without padding, so texts sort as instants only from the year 1000 on
  (`Timestamps.OrderKeptIff`).
- A single reference keeps the type of its value, also when it is only what other, empty answers leave
  (`Templates.TextIffAloneAreStrings`). Text recorded with a value that is no text is expanded beside it,
  and dropped when it becomes a single reference (`NestedTemplates.NestedTextIff`).
- Names that aggregation takes from the first row that has one depend on the order of the batch; when they
  do not is stated by `AggregationOrder.TraceIgnoresOrderIff` and `AggregationOrder.SessionIgnoresOrderIff`.
- A failed reload leaves the state at Closing if the old service failed to shut down, and at Starting if
  the new setup failed, not at Closed; and neither a failed setup nor a failed reload shuts the
  configuration provider down (`Collector.Collector.Run`).
- An empty item of `--feature-gates` panics after the items before it were applied.
- The windows of the rate limits exclude one end; with both ends they can hold more, up to exact bounds
  (`PhoneCodes.ClosedWindows`) and under exact conditions on the limits
  (`PhoneCodes.ClosedDaysKeepTheLimitIff`, `PhoneCodes.ClosedHoursKeepTheLimitIff`).
- A key of a project as a whole names no agent, and yet goes by the name of the default agent
  (`AgentEffects.AcceptedKeyStandsFor`).

## Model

| member | source | states |
|---|---|---|
| UriSearch.FindUriIsFirstCandidate | opentelemetry-collector/confmap/expand.go:111-144 | the search against a declarative reading: without a candidate nothing is found; with one, the candidate that closes first decides, and it is found iff an even number of `$` stand before it; an escaped first candidate ends the search |
| UriSearch.FoundUri | opentelemetry-collector/confmap/expand.go:111-144 | what is found occurs in the text, starts with `${`, ends with its only `}`, opens nothing inside, and holds a colon when there is no default scheme |
| UriSearch.DollarsBeforeIs | opentelemetry-collector/confmap/expand.go:128-137 | what is counted is the longest run of `$` immediately before the reference |
| UriSearch.DollarsBeforeInTail | opentelemetry-collector/confmap/expand.go:113-137 | searching on after a closing bracket cuts no run of `$` in two: the count in front of a reference is the same in the suffix |
| UriSearch.CountDollars | opentelemetry-collector/confmap/expand.go:128-137 | the counting loop counts exactly the `$` that stand immediately before the reference |
| UriSearch.SearchUri | opentelemetry-collector/confmap/expand.go:111-144 | the search with its loop computes the function of which the declarative reading is proved |
| Expansion.LocationsAreWellFormed | opentelemetry-collector/confmap/expand.go:189-228 | a provider is asked iff the text in the brackets, completed by the default scheme, splits at its first colon into a scheme of at least two scheme characters and a value without `$`; and it is asked for that very text |
| RoundLaws.StringRoundIs | opentelemetry-collector/confmap/expand.go:72-78 | the round on a string in full, told from the reference found in it: without one nothing happens; one call is made for the text in its brackets, completed by the default scheme, if that is a location with a provider; the text of the answer replaces the reference everywhere, or the answer is the result when the reference is the whole string; and without a provider, an answer or, in other text, a text, the round fails |
| RoundLaws.StringFailsIff | opentelemetry-collector/confmap/expand.go:149-211 | exactly when the round on a string fails |
| RoundLaws.ListRoundIs | opentelemetry-collector/confmap/expand.go:79-90 | a list is expanded in order up to the first value that fails; then it fails, and otherwise it has the results in their places and is changed iff one of them is |
| RoundLaws.MapRoundIs | opentelemetry-collector/confmap/expand.go:91-102 | so is a map, value by value, with its keys as they were |
| RoundLaws.PairRoundIs | opentelemetry-collector/confmap/expand.go:44-71 | a pair fails iff its value does; unless a text comes out its original is expanded too, kept if it is still a text, and its errors are dropped |
| RoundLaws.RoundFailsIff | opentelemetry-collector/confmap/expand.go:42-187 | a round fails iff some string that it comes to fails, originals apart |
| RoundLaws.AllRoundsAre | opentelemetry-collector/confmap/expand.go:28-40 | the rounds go on as long as the value changes: the first that fails makes the expansion fail, the first that changes nothing ends it with its value, and when all rounds change it the error is that of too many expansions |
| RoundLaws.UnansweredFails | opentelemetry-collector/confmap/expand.go:42-187 | one reference that is never answered makes the round on the whole value fail, wherever it stands outside of originals |
| RoundLaws.UnansweredAborts | opentelemetry-collector/confmap/expand.go:28-40 | and the expansion, with the error of the retrieval |
| Text.ReplaceAllIs | opentelemetry-collector/confmap/expand.go:186-186 | replacing cuts the text at the occurrences, leftmost first and none overlapping another, and puts the new text in their places |
| Termination.RoundLowersBrackets | opentelemetry-collector/confmap/expand.go:42-105 | with answers free of `}`, a changed round strictly lowers the number of `}` over all strings and originals of the value, and an unchanged one never raises it |
| Termination.EnoughRounds | opentelemetry-collector/confmap/expand.go:28-40 | more rounds than closing brackets never end in the error of too many expansions |
| Termination.TooManyNeedsThousandBrackets | opentelemetry-collector/confmap/expand.go:28-40 | that error needs at least 1000 closing brackets in the value |
| Termination.UnchangedString | opentelemetry-collector/confmap/expand.go:72-78 | a string is left as it is, without error, iff the search finds nothing in it; then no provider was called either |
| Termination.UnchangedIsNormal | opentelemetry-collector/confmap/expand.go:42-105 | whatever the providers answer, a round that changes nothing returns a value in which the search finds no reference and no pair holds a string or a pair |
| Termination.FinishedIsNormal | opentelemetry-collector/confmap/expand.go:28-40 | success means normal form, for all providers and every bound on the rounds |
| Termination.NormalIsFixed | opentelemetry-collector/confmap/expand.go:42-105 | a normal form is a fixed point: the round returns it unchanged and the resource ledger untouched |
| Termination.ExpansionIsIdempotent | opentelemetry-collector/confmap/expand.go:28-105 | expanding the result of an expansion gives it back and asks no provider anything |
| ExpansionLimit.OneLevel | opentelemetry-collector/confmap/expand.go:149-187 | whatever inert text the provider answers, one round on n nested references replaces exactly the innermost by it and opens one resource |
| ExpansionLimit.LimitIsExact | opentelemetry-collector/confmap/expand.go:28-40 | the bound is exact: n nested references, answered with arbitrary inert texts and values without brackets, resolve iff n < 1000 |
| ExpansionLimit.SelfReferenceNeverResolves | opentelemetry-collector/confmap/expand.go:28-40 | a provider that answers with the reference itself exhausts every bound, and each round leaves one more resource to close |
| Templates.ReplaceIsSubst | opentelemetry-collector/confmap/expand.go:186-186 | replacing the text of a reference everywhere in the text of a template is substituting in the template |
| Templates.TemplateRound | opentelemetry-collector/confmap/expand.go:146-187 | one round retrieves the first reference, once, and replaces all its occurrences and nothing else; standing alone, it becomes the value it was answered with and its text |
| Templates.TemplateReduces | opentelemetry-collector/confmap/expand.go:28-187 | as many rounds as there are different references leave exactly the meaning as a text or, if a reference is all that is left in the end, the value of its last answer with the meaning as its text |
| Templates.ExpansionIsSubstitution | opentelemetry-collector/confmap/expand.go:28-187 | the meaning of expansion: for every template answered with text free of `$`, and with strings where a reference is ever all that is left, the result is the text in which each reference stands for its value iff fewer than 1000 different references occur, otherwise the error of too many expansions; the providers are asked for each different reference once, at its location, in the order of the first occurrences, and for the first 1000 of them when it fails |
| Templates.LiteralIsCompany | opentelemetry-collector/confmap/expand.go:155-176 | with some literal text that is not empty no reference is ever all that is left, whatever the answers are |
| Templates.TextIffAloneAreStrings | opentelemetry-collector/confmap/expand.go:155-176 | the type of the result, exactly: if each reference that is ever all that is left is answered always with strings or always with values that are no texts, lists and maps included, the result is a text iff all these are answered with strings; otherwise it keeps the value of the reference, with the meaning as its text |
| NestedTemplates.InlineKeepsMeaning | opentelemetry-collector/confmap/expand.go:149-187 | replacing a reference by the template it is answered with keeps the meaning and leaves fewer references, all levels counted |
| NestedTemplates.NestedRound | opentelemetry-collector/confmap/expand.go:149-187 | a round on a template is this replacement of its first reference, at all its occurrences, by one call of its provider, whatever the value behind the text is; standing alone, the reference becomes that value with the text |
| NestedTemplates.NestedExpansionIsSubstitution | opentelemetry-collector/confmap/expand.go:28-187 | answers that hold references themselves: if their texts are templates without cycles, with strings where a reference is ever all that is left, the result is the text in which each reference stands for the meaning of its answer iff fewer than 1000 answers have to be inlined, otherwise the error of too many expansions; the providers are asked for exactly the inlined names in their order, for the first 1000 of them when it fails; these are at least the different names of the template and at most its references on all levels |
| NestedTemplates.NestedTextIff | opentelemetry-collector/confmap/expand.go:46-71 | the type of the result, exactly: it is a text iff each reference that is ever all that is left is answered with strings; the first that is answered with values that are no texts gives its value, together with the meaning as its text, unless that text in turn becomes a single reference: then the value comes without a text |
| NestedTemplates.LiteralStays | opentelemetry-collector/confmap/expand.go:155-186 | with some literal text that is not empty no reference is ever all that is left: then the values behind the answers are free |
| NestedTemplates.EndlessNeverResolves | opentelemetry-collector/confmap/expand.go:28-40 | a template with a reference into a cycle, with strings where a reference is all that is left, exhausts every bound on the rounds, and each round leaves one more resource to close |
| MapOrder.SameValues | opentelemetry-collector/confmap/expand.go:91-102 | with providers that do not depend on the call, a round gives the same values for every order of the entries of a map, at every level |
| MapOrder.OrderDoesNotMatter | opentelemetry-collector/confmap/expand.go:28-105 | so do all rounds: the same configuration or the same error |
| Escaping.DoubledHasNoUri | opentelemetry-collector/confmap/expand.go:128-143 | text in which every `$` is doubled holds no reference, with or without a default scheme |
| Escaping.EscapeRoundTrip | opentelemetry-collector/confmap/resolver.go:191-249 | for every value, doubling each `$`, expanding and unescaping gives back exactly the value, and the ledger shows that no provider was called |
| Resolving.RoundConserves | opentelemetry-collector/confmap/expand.go:42-105 | a round that ends in any way, dropped errors of originals included, keeps every resource accounted for once and closes none |
| Resolving.RetrieveAllConserves | opentelemetry-collector/confmap/resolver.go:170-186 | so does retrieving and merging the configured locations, wherever it stops |
| Resolving.ResolveConserves | opentelemetry-collector/confmap/resolver.go:164-210 | wherever a resolution stops, everything obtained before it is closed, and what it leaves pending is exactly what it obtained itself |
| Resolving.SessionClosesEverythingOnce | opentelemetry-collector/confmap/resolver.go:164-289 | after any number of resolutions, however each ended, and a shutdown, every resource obtained was closed exactly once, in order |
| ResolutionLaws.RetrieveAllIs | opentelemetry-collector/confmap/resolver.go:170-186 | the locations are asked in order, each once, and each answer that is a configuration is merged into what there is, up to the first that is not answered, is none, or does not merge |
| ResolutionLaws.ResolveIs | opentelemetry-collector/confmap/resolver.go:164-210 | what a resolution returns, exactly: a configuration iff closing reports no error and all locations merge in order into it, each key in order gets its expanded and unescaped value, and each converter takes what the one before it returned |
| ResolutionLaws.DoubledResolves | opentelemetry-collector/confmap/resolver.go:164-249 | the escape round trip of a whole resolution: when the locations merge into a configuration with every `$` doubled, exactly that configuration goes to the converters, or is the result, and nothing but the locations is retrieved |
| ResolutionLaws.UnansweredFailsResolve | opentelemetry-collector/confmap/resolver.go:189-199 | a reference anywhere in the merged configuration that is never answered makes the resolution fail |
| Resolver.Resolver.RetrieveValue | opentelemetry-collector/confmap/resolver.go:291-297 | one provider call as a step on the ledger; an unknown scheme obtains nothing |
| Resolver.Resolver.RetrieveUri | opentelemetry-collector/confmap/expand.go:189-211 | strip, complete, refuse or retrieve; a closer is registered iff a resource was obtained |
| Resolver.Resolver.FindAndExpandUri | opentelemetry-collector/confmap/expand.go:149-187 | the string round on the object is the round of the model, result and ledger; what that is, failures included, is `RoundLaws.StringRoundIs` |
| Resolver.Resolver.ExpandOnce | opentelemetry-collector/confmap/expand.go:42-105 | the recursive round on the object is the round of the model, result and ledger |
| Resolver.Resolver.ExpandSlice | opentelemetry-collector/confmap/expand.go:79-90 | the loop over a list, up to the first failure |
| Resolver.Resolver.ExpandMap | opentelemetry-collector/confmap/expand.go:91-102 | the loop over a map, up to the first failure |
| Resolver.Resolver.ExpandValueRecursively | opentelemetry-collector/confmap/expand.go:28-40 | the loop of at most 1000 rounds is that of the model, which `RoundLaws.AllRoundsAre` describes |
| Resolver.Resolver.CloseIfNeeded | opentelemetry-collector/confmap/resolver.go:282-289 | every pending resource is closed in order, whatever errors occur, and an error is reported iff closing one reported it |
| Resolver.Resolver.RetrieveAndMerge | opentelemetry-collector/confmap/resolver.go:170-186 | the loop over the configured locations |
| Resolver.Resolver.ExpandAll | opentelemetry-collector/confmap/resolver.go:191-200 | the loop over the keys is that of the model, which is part of `ResolutionLaws.ResolveIs` |
| Resolver.Resolver.ApplyConverters | opentelemetry-collector/confmap/resolver.go:202-207 | the converters in order, up to the first failure |
| Resolver.Resolver.Resolve | opentelemetry-collector/confmap/resolver.go:164-210 | the whole call: its result, which `ResolutionLaws.ResolveIs` describes, its ledger, conservation, and the captured configuration, which only a completed merge replaces |
| Resolver.Resolver.Shutdown | opentelemetry-collector/confmap/resolver.go:266-276 | nothing stays open, every provider is shut down once, an error is reported iff closing or shutting down reported one, and closing the watch channel a second time panics |
| PipelineId.ParsePrinted | opentelemetry-collector/pipeline/pipeline.go:50-88 | parsing undoes printing for every valid identifier, also when its name holds the separator |
| PipelineId.ParsedIsValid | opentelemetry-collector/pipeline/pipeline.go:50-103 | whatever parses is valid, and its printed form parses to the same |
| PipelineParsing.ParseIs | opentelemetry-collector/pipeline/pipeline.go:50-103 | which texts parse, and to what: what is before the first slash is one of the four signals, what is behind it a name of 1 to 1024 bytes of UTF-8 without separators, control characters and symbols, and white space around both does not matter |
| PipelineId.PrintedForms | opentelemetry-collector/pipeline/pipeline.go:81-88 | printed forms of valid identifiers are injective, not empty and hold no space |
| PipelineId.PrintedApart | opentelemetry-collector/pipeline/pipeline.go:81-88 | printing is injective also without validation |
| PipelineId.SpacelessForms | opentelemetry-collector/pipeline/pipeline.go:81-88 | a printed form is not empty, and holds a space iff the name does |
| InstanceId.AddEncodes | opentelemetry-collector/component/componentstatus/instance.go:82-91 | adding identifiers without a space in the name to the encoding of a set gives the canonical encoding of the union; leading and trailing empty segments do no harm |
| InstanceId.CanonicalIdentity | opentelemetry-collector/component/componentstatus/instance.go:30-91 | over any two splits and orders of additions of identifiers without a space in the name, the strings are equal iff the accumulated sets are |
| InstanceId.IdentityIffSpaceless | opentelemetry-collector/component/componentstatus/instance.go:30-91 | the exact condition: strings identify the sets over a stock of identifiers iff no name in it holds a space |
| InstanceId.ReAddingChangesNothing | opentelemetry-collector/component/componentstatus/instance.go:72-91 | adding identifiers that are present changes nothing |
| InstanceId.ReAddingIff | opentelemetry-collector/component/componentstatus/instance.go:72-91 | an identifier can be added again without a change iff its name holds no space |
| InstanceId.SpacesCollide | opentelemetry-collector/component/componentstatus/instance.go:82-91 | an example: an identifier with a space in its name has the same string as a set of two others |
| InstanceId.DecodeInvertsBuild | opentelemetry-collector/component/componentstatus/instance.go:51-68 | what is decoded is the accumulated set, each identifier once, in ascending order of printed form |
| InstanceId.DecodeInvertsBuildIff | opentelemetry-collector/component/componentstatus/instance.go:51-68 | the exact condition, as names given without validation: the accumulated set is read back iff every identifier in it is valid |
| InstanceId.VisitsStopAtFirstFalse | opentelemetry-collector/component/componentstatus/instance.go:64-66 | the visited identifiers are a prefix; all calls before the last were answered with true, and the visit is cut short only by a false |
| InstanceId.InstanceID.constructor | opentelemetry-collector/component/componentstatus/instance.go:30-37 | a new instance holds the encoding of its pipelines |
| InstanceId.InstanceID.AddPipelines | opentelemetry-collector/component/componentstatus/instance.go:82-91 | split, append, sort, compact and join compute the encoding of the model |
| InstanceId.InstanceID.WithPipelines | opentelemetry-collector/component/componentstatus/instance.go:72-80 | the extension is a new object; the receiver stays as it was |
| InstanceId.InstanceID.AllPipelineIDs | opentelemetry-collector/component/componentstatus/instance.go:51-68 | the character scan makes exactly the calls that visiting the decoded list makes |
| FeatureGates.GatesKeepTheirRules | opentelemetry-collector/featuregate/registry.go:128-196 | over all interleavings of registrations and settings, stable gates stay on, deprecated ones off, and a registered gate is what its former state and the last setting make it |
| FeatureGates.RegisteredAfterRun | opentelemetry-collector/featuregate/registry.go:117-167 | after any interleaving an identifier is registered iff it was before or some admissible registration of it occurred |
| FeatureGates.FirstRegistrationDecides | opentelemetry-collector/featuregate/registry.go:128-196 | its gate is that of the first admissible registration, with the switch as last set since where its stage allows that |
| GateOutcomes.RegisterIs | opentelemetry-collector/featuregate/registry.go:130-167 | which error each registration gets, in the order of the checks; otherwise the gate is added, on in the stages Beta and Stable |
| GateOutcomes.SetIs | opentelemetry-collector/featuregate/registry.go:170-196 | which error each setting gets, for unknown, stable and deprecated gates; only alpha and beta gates are switched |
| GateOutcomes.FlagIs | opentelemetry-collector/featuregate/flag.go:51-71 | a flag item by item: a minus in front switches the named gate off, a plus or nothing switches it on, errors are collected in order, and an empty item panics with the items before it applied |
| FeatureGates.FlagStringIsUnique | opentelemetry-collector/featuregate/flag.go:33-49 | the printed flag does not depend on the order in which the registry is ranged over |
| FeatureGates.FlagPanicsIff | opentelemetry-collector/featuregate/flag.go:51-61 | applying a flag panics iff its text has a leading, trailing or doubled comma |
| FeatureGates.SetPrintedItems | opentelemetry-collector/featuregate/flag.go:56-70 | applying the printed items of some gates copies the state of exactly these gates, without an error |
| FeatureGates.FlagRoundTrip | opentelemetry-collector/featuregate/flag.go:33-71 | applying the printed flag of a registry to any registry with the same gates succeeds and makes it equal to the first |
| GateRegistry.Registry.RegisterGate | opentelemetry-collector/featuregate/registry.go:130-167 | the new state and the error; a taken identifier keeps its gate object, and a refused registration changes nothing |
| GateRegistry.Registry.SetGate | opentelemetry-collector/featuregate/registry.go:170-196 | the new state and the error; only the switch of the named gate can change |
| GateRegistry.Registry.VisitAll | opentelemetry-collector/featuregate/registry.go:199-211 | every gate once, sorted by identifier, whatever the order of the map |
| GateRegistry.Registry.PrintFlag | opentelemetry-collector/featuregate/flag.go:33-49 | the loop prints the one flag of the registry, for every order of the map |
| GateRegistry.Registry.ApplyFlag | opentelemetry-collector/featuregate/flag.go:51-71 | the loop applies the items, collects the errors, and panics where the model does |
| Redaction.MaskedPositionsAreMasked | opentelemetry-collector/otelcol/redact.go:32-56 | complete: every position of both trees where the view shows the mask holds the mask afterwards, or the bare reference that was there |
| Redaction.OtherPositionsAreKept | opentelemetry-collector/otelcol/redact.go:32-56 | minimal: a position that the mask does not cover exists afterwards iff it did before, with the same kind and, if it is a leaf, the same value |
| Redaction.MaskingIsIdempotent | opentelemetry-collector/otelcol/redact.go:32-56 | masking again changes nothing |
| Redaction.ReferencesAreExempt | opentelemetry-collector/otelcol/redact.go:49-58 | every string that the expansion treats as one whole reference is exempt from the mask |
| Redaction.ExemptIff | opentelemetry-collector/otelcol/redact.go:49-58 | and nothing else is: exempt are exactly the strings that consist of `${`, text without `}`, and `}` |
| RedactionInPlace.Mask | opentelemetry-collector/otelcol/redact.go:32-56 | on a tree of maps and slices overwritten in place: nothing outside the tree is written, the result is the same root or the mask, and it shows the masked value |
| RedactionInPlace.MaskElem | opentelemetry-collector/otelcol/redact.go:36-46 | overwriting one element changes that element and no other |
| RedactionInPlace.MaskMap | opentelemetry-collector/otelcol/redact.go:34-41 | the loop over the entries of a map |
| RedactionInPlace.MaskSlice | opentelemetry-collector/otelcol/redact.go:42-47 | the loop over the indices that both slices have |
| RedactionInPlace.RedactConf | opentelemetry-collector/otelcol/redact.go:22-28 | an absent configuration or view changes nothing; otherwise the result shows the masked configuration |
| MapLists.LookupIsMapLookup | opentelemetry-collector/config/configopaque/maplist.go:89-96 | looking a name up in the list agrees with the map it stands for |
| MapLists.UpdateIsMapUpdate | opentelemetry-collector/config/configopaque/maplist.go:102-115 | updating agrees with map update, keeps names in place and grows by one exactly for a new name |
| MapLists.UpdateKeepsDistinct | opentelemetry-collector/config/configopaque/maplist.go:102-115 | updating keeps names distinct |
| MapLists.LengthOfMap | opentelemetry-collector/config/configopaque/maplist.go:55-63 | the map has as many names as the list has pairs iff the names are distinct |
| MapLists.UnmarshalIsCanonical | opentelemetry-collector/config/configopaque/maplist.go:35-51 | sorting the pairs of a map, in whatever order they come, gives a list sorted by distinct names that stands for the map |
| MapLists.SortedListIsUnique | opentelemetry-collector/config/configopaque/maplist.go:47-49 | there is only one such list |
| MapLists.MapList.Get | opentelemetry-collector/config/configopaque/maplist.go:89-96 | the loop finds the first pair with the name |
| MapLists.MapList.Set | opentelemetry-collector/config/configopaque/maplist.go:102-115 | the update goes to a new backing array and no other array is written, so shallow copies keep their contents |
| MapLists.MapList.Validate | opentelemetry-collector/config/configopaque/maplist.go:55-72 | passes iff the names are distinct; otherwise it reports exactly the repeated names, sorted |
| MapLists.MapList.Unmarshal | opentelemetry-collector/config/configopaque/maplist.go:35-51 | the list is sorted by distinct names and stands for the map |
| ListMerge.MergeIsStableUnion | opentelemetry-collector/confmap/internal/merge.go:72-85 | the destination, followed by the elements of the source that are not in it, each at its first occurrence, in order |
| ListMerge.MergeIsIdempotentIff | opentelemetry-collector/confmap/internal/merge.go:72-94 | merging again changes nothing iff every element of the source equals itself |
| ListMerge.MergeIsAssociative | opentelemetry-collector/confmap/internal/merge.go:72-85 | both groupings of three lists give the same list |
| ListMerge.MergeFlatIs | opentelemetry-collector/confmap/internal/merge.go:13-60 | merging two configurations, key by key: where both have lists at a matching key what is new in the source is appended in order, at any other key the source wins, what only one has stays, and it fails iff a list meets something else at a matching key |
| ListMerge.GroupingsAgreeIff | opentelemetry-collector/confmap/internal/merge.go:13-60 | the two groupings of three configurations agree, failure included, iff no list that source order trips over is hidden by a later override, or at some key merging the later two first trips too; both sides are conditions on the three configurations |
| ListMerge.FlatMergeIsAssociative | opentelemetry-collector/confmap/internal/merge.go:13-60 | in particular, if merging in order succeeds, merging the later two first succeeds and gives the same |
| ListMerge.LaterFirstFailsIff | opentelemetry-collector/confmap/internal/merge.go:13-60 | merging the later two first fails iff at a matching key the last has a list over a middle value that is none, or what is then in front of the first is a list and the first has a value that is none |
| ListMerge.GroupingCanHideAClash | opentelemetry-collector/confmap/internal/merge.go:46-52 | an example of a hidden clash |
| ListMerge.AllGroupingsAgreeIff | opentelemetry-collector/confmap/internal/merge.go:13-60 | over any number of sources: merging all later ones into one first agrees with source order, failure included, iff no list that meets something else is followed by a last value that is no list, or the later ones trip among themselves or over the first; conditions on the sources only |
| ListMerge.MergeAllFailsIff | opentelemetry-collector/confmap/internal/merge.go:13-60 | merging in order fails iff at some matching key a list directly follows a value that is none |
| ListMerge.AllLaterFirstFailsIff | opentelemetry-collector/confmap/internal/merge.go:13-60 | merging all later ones first fails iff this happens among them, or the first has a value that is no list where the last of them to have the key has a list |
| ListMerge.MergeAllIsAssociative | opentelemetry-collector/confmap/internal/merge.go:13-60 | in particular, if source order succeeds, both give the same |
| ListMerge.MergeSlice | opentelemetry-collector/confmap/internal/merge.go:72-85 | the two loops compute the union of the model |
| ListMerge.IsPresentLoop | opentelemetry-collector/confmap/internal/merge.go:87-94 | true iff some element of the slice equals the value |
| ListMerge.MergeAppend | opentelemetry-collector/confmap/internal/merge.go:36-57 | the loop over the keys in any order merges exactly the matching lists that both sides have, and fails iff one of them meets something that is no list |
| Lifecycle.EverythingTornDownOnce | opentelemetry-collector/service/service.go:309-319 | an orderly trace that leaves no provider up has shut down every service built exactly once, and stopped everything each service created exactly once, in reverse order |
| Lifecycle.OrderlyIsAccounted | opentelemetry-collector/service/service.go:174-246 | at every point of an orderly trace, all services but the latest are torn down, and the latest is exactly as far as the monitor says |
| Lifecycle.AtMostOneLive | opentelemetry-collector/otelcol/collector.go:272-285 | at every point of an orderly trace at most one service is built and not shut down |
| Lifecycle.StateChanges | opentelemetry-collector/otelcol/collector.go:335-439 | only Starting to Starting, Running or Closed, Running to Closing, and Closing to Starting or Closed occur; Running is entered only with a started live service |
| Lifecycle.RunningIsLive | opentelemetry-collector/otelcol/collector.go:264-267 | while the state is Running a started service is live |
| Lifecycle.CountsAreRight | opentelemetry-collector/otelcol/collector.go:335-434 | in an orderly trace the monitor counts the shutdowns of the configuration provider, the starts and the errors |
| Collector.Service.New | opentelemetry-collector/service/service.go:121-247 | a failure at any step is one error and leaves nothing of the service up; otherwise it is live, not started, and the next in number |
| Collector.Service.Unwind | opentelemetry-collector/service/service.go:178-214 | the deferred cleanups run last in, first out, and stop all that was created |
| Collector.Service.Start | opentelemetry-collector/service/service.go:255-281 | started iff none of the four steps reported an error |
| Collector.Service.Shutdown | opentelemetry-collector/service/service.go:288-322 | whatever fails, the service is shut down and then its three providers are stopped in reverse order |
| Collector.Collector.Setup | opentelemetry-collector/otelcol/collector.go:179-270 | fails iff a call reports an error; then nothing is up and the state is Starting, otherwise exactly one service was made and runs |
| Collector.Collector.Reload | opentelemetry-collector/otelcol/collector.go:272-285 | fails iff a call reports an error; the old service is down before anything else happens; on failure nothing is up, with the state Closing and nothing new begun if shutting down the old service failed, and Starting if the new setup did |
| Collector.Collector.ShutdownAll | opentelemetry-collector/otelcol/collector.go:416-434 | the configuration provider is shut down first, then the service; an error is reported iff one of them reports one; whatever fails, nothing is up and the state is Closed |
| Collector.Collector.Run | opentelemetry-collector/otelcol/collector.go:335-414 | for all events and all failures: it reloads at each change of the configuration and each SIGHUP, and stops at the first other event; on return everything was torn down exactly once and an error is returned iff some call reported one; the state is Closing if a reload could not shut the old service down, Starting if its setup failed, and Closed after every other return; the configuration provider is shut down once, except after a failed setup or reload; a shutdown requested before the first look means that nothing was ever created |
| ShutdownProtocol.ReachableKeepsInv | opentelemetry-collector/otelcol/collector.go:162-167 | over every interleaving of `Run` with any number of `Shutdown` calls: the channel is closed iff the once was done, the wait group counts `Run`, and no service is live after a call returned |
| ShutdownProtocol.FirstLook | opentelemetry-collector/otelcol/collector.go:340-348 | over every interleaving, the first look of `Run` finds the channel closed iff some call of `Shutdown` did its once before |
| ShutdownProtocol.ClosedMeansNeverBuilt | opentelemetry-collector/otelcol/collector.go:335-348 | over every interleaving, once the channel is closed while no service is up or being set up, none ever is |
| ShutdownProtocol.ShutdownIsFinal | opentelemetry-collector/otelcol/collector.go:160-167 | the channel is closed at most once, and once some call of `Shutdown` has returned no service is up or being set up, then or after any further steps |
| ShutdownProtocol.ShutdownCanReturn | opentelemetry-collector/otelcol/collector.go:160-167 | and no call is stuck: in every reachable world each call of `Shutdown` can return with the channel closed once, if `Run` leaves its loop |
| Timestamps.DateOfDayNumber | server/backend-api/backend_api.py:237-237 | every date is that of its day number |
| Timestamps.DayNumberOfDate | server/backend-api/backend_api.py:237-237 | counting the calendar forward day by day to a day and taking its number in closed form gives the day back |
| Timestamps.EpochText | server/backend-api/backend_api.py:237-238 | counting starts at 1970-01-01 00:00:00.000 |
| TimestampText.InstantText | server/backend-api/backend_api.py:233-238 | the text of every instant, from its year, month, day, hour, minute, second and millisecond, with the lengths of the months as a table and the days of earlier years counted: all but the year with leading zeros, and what is below the millisecond cut off |
| TimestampText.EveryInstant | server/backend-api/backend_api.py:233-238 | and every instant that has a text is one of these |
| Timestamps.Representable | server/backend-api/backend_api.py:233-238 | an instant has a text iff it lies in the years 1 to 9999 |
| Timestamps.TextOrder | server/backend-api/backend_api.py:233-238 | from the year 1000 on, texts compare as milliseconds do, in both directions |
| Timestamps.OrderKeptIff | server/backend-api/backend_api.py:233-238 | the exact condition, as years are printed without padding: the order of all instants from a start on is kept iff the start is not before the year 1000 |
| Timestamps.SecondsApart | server/backend-api/backend_api.py:238-238 | the example: 999-12-31 23:59:59.000 and, one second later, 1000-01-01 00:00:00.000 |
| Timestamps.TextsEqualIff | server/backend-api/backend_api.py:233-238 | for all instants, texts are equal iff the milliseconds are |
| Aggregation.GroupBy | server/backend-api/backend_api.py:337-339 | filling the dictionary row by row gives each key once, in order of first occurrence, with its rows in batch order |
| AggregationRows.GroupIs | server/backend-api/backend_api.py:337-339 | a group is what the batch has of its key, in the order of the batch |
| AggregationRows.RootIsFirst | server/backend-api/backend_api.py:341-343 | the root is the earliest observation, by start and then by span, of those without a parent or of all if each has one, and at a tie the first in the batch |
| AggregationRows.TraceRowsAreRight | server/backend-api/backend_api.py:337-367 | every trace row, in the order in which the traces first occur: number of observations, number of errors, sums of tokens, first start and last end; status ERROR iff some observation of the trace has it, OK iff none has and some is OK, and UNSET otherwise; names of the root or else of the first observation that has one |
| AggregationRows.SessionRowsAreRight | server/backend-api/backend_api.py:369-391 | every session row, in the order in which the sessions first occur: the same totals over its observations, the number of different traces, and the first user and agent named |
| Aggregation.AggregateBatch | server/backend-api/backend_api.py:333-393 | the loops compute the trace and session rows of the model, which `AggregationRows` describes |
| AggregationLaws.AggregationConserves | server/backend-api/backend_api.py:333-393 | one row for each trace and one for each session, whose observations, errors and tokens add up to the batch and to its rows with a session |
| AggregationLaws.WithSessionRows | server/backend-api/backend_api.py:370-372 | the rows grouped by session are those with a non-empty session |
| AggregationLaws.TraceOfPermutation | server/backend-api/backend_api.py:341-367 | totals, bounds, duration and status of a trace do not depend on the order of the batch, nor does the root when the rows that tie for it are equal |
| AggregationLaws.SessionOfPermutation | server/backend-api/backend_api.py:373-391 | totals and trace count of a session do not depend on the order of the batch |
| AggregationOrder.FirstBecomesRoot | server/backend-api/backend_api.py:342-343 | of the rows that tie for the root, the one that comes first in the batch becomes it |
| AggregationOrder.TraceRootIgnoresOrderIff | server/backend-api/backend_api.py:342-343 | the root of a trace is the same for every order of the batch iff the rows that tie for it are equal |
| AggregationOrder.TraceIgnoresOrderIff | server/backend-api/backend_api.py:341-367 | the whole row of a trace is the same for every order of the batch iff the rows that tie for the root have one span name and, for the session and for the agent, either those rows all have one and the same, or no two rows of the trace have different ones |
| AggregationOrder.SessionIgnoresOrderIff | server/backend-api/backend_api.py:369-391 | the whole row of a session is the same for every order of the batch iff no two rows of it have different users, or different agents |
| AggregationLaws.RootIsEarliest | server/backend-api/backend_api.py:342-343 | the root is the earliest of the rows without a parent, or of all rows if each has one |
| AggregationLaws.TraceNamesComeFromRows | server/backend-api/backend_api.py:353-355 | a trace names a session, or an agent, iff some row of it does, and then one that a row names |
| AggregationLaws.SessionNamesComeFromRows | server/backend-api/backend_api.py:380-385 | a session counts its distinct traces, and names a user, or an agent, iff some row of it does, and then one that a row names |
| AggregationLaws.StartIsLeast | server/backend-api/backend_api.py:344-344 | the start is that of a row and not after that of any |
| AggregationLaws.EndIsGreatest | server/backend-api/backend_api.py:345-345 | the end is that of a row and not before that of any |
| AggregationLaws.BoundsAreTrue | server/backend-api/backend_api.py:344-345 | from the year 1000 on, comparing texts finds the rows that are truly earliest and latest to the millisecond |
| AggregationLaws.BoundsAreTrueIff | server/backend-api/backend_api.py:344-345 | for all groups of instants from a start on this holds iff the start is not before the year 1000 |
| PhoneCodes.RunKeepsLimits | server/backend-api/backend_api.py:830-845 | over every run with a clock that does not go back: codes of a phone are at least the resend interval apart, no 24 hours hold more than the daily limit, no hour more than the limit of an address |
| PhoneCodes.SentIffWithinLimits | server/backend-api/backend_api.py:830-845 | at one reading of the clock a code is sent iff the table with it keeps all limits: no request is refused that the limits allow |
| PhoneCodes.ClosedWindows | server/backend-api/backend_api.py:831-839 | windows with both ends, over every run: at most one more than the daily limit for a phone if there is a resend interval, at most twice the hourly limit for an address |
| PhoneCodes.ClosedDaysKeepTheLimitIff | server/backend-api/backend_api.py:834-836 | over all runs, such 24 hours hold at most the daily limit iff one of the limits lets nothing through or the daily limit times the resend interval is more than a day |
| PhoneCodes.ClosedHoursKeepTheLimitIff | server/backend-api/backend_api.py:837-839 | over all runs, such an hour holds at most the hourly limit iff one of the limits lets nothing through |
| PhoneCodes.TwiceTheHourlyLimit | server/backend-api/backend_api.py:837-839 | twice the hourly limit is attained, for every limit |
| PhoneCodes.OneMoreThanTheDailyLimit | server/backend-api/backend_api.py:834-836 | one more than the daily limit is attained, for every daily limit that fits into a day and every hourly limit that lets something through |
| PhoneCodes.CodesAreUsedOnce | server/backend-api/backend_api.py:848-861 | over every run, a code logs in at most once and is guessed wrongly at most five times, and the table records exactly that |
| PhoneCodes.StepKeepsRows | server/backend-api/backend_api.py:830-862 | no request removes a row or changes what was issued, and a consumed code stays as it is |
| PhoneCodes.LoginNeedsTheNewestCode | server/backend-api/backend_api.py:848-861 | a login takes the newest active code of the phone, with its hash, not after its expiry to the millisecond |
| PhoneCodes.LatestActive | server/backend-api/backend_api.py:850-853 | the active code created last, or none iff all codes of the phone are consumed |
| CodeOutcomes.SendIs | server/backend-api/backend_api.py:830-845 | which answer each request gets: refused within the resend interval of a code of the phone, then at the daily limit, then at the hourly limit of the address; otherwise the new row |
| CodeOutcomes.LoginIs | server/backend-api/backend_api.py:848-861 | which answer each login gets: with five wrong guesses at the newest active code too many attempts, then past its expiry, to the millisecond, expired, then with another text one more wrong guess, and otherwise the login, which consumes the code |
| CodeOutcomes.NoCodeIff | server/backend-api/backend_api.py:850-853 | there is no code iff all codes of the phone are consumed |
| PhoneCodes.CodeTable.RequestPhoneCode | server/backend-api/backend_api.py:830-845 | the three checks in order, and the new row; which answer that gives is `CodeOutcomes.SendIs` |
| PhoneCodes.CodeTable.LoginWithPhoneCode | server/backend-api/backend_api.py:848-861 | the checks in order, and the one field that changes; which answer that gives is `CodeOutcomes.LoginIs` |
| AgentInvariants.ReachableOk | server/backend-api/backend_api.py:651-806 | after every sequence of requests: identifiers unique, active names of a project distinct, at most one active key for each agent, active keys only of active agents, an active agent in every project |
| AgentInvariants.NothingIsRevived | server/backend-api/backend_api.py:659-806 | over every run, rows keep their identity, and a revoked key or deleted agent never becomes active again |
| AgentInvariants.AcceptedKeyHasActiveAgent | server/backend-api/backend_api.py:885-905 | a key that is accepted stands for an existing project and goes by the name of an active agent of it |
| AgentInvariants.EnsureDefaultAgentOk | server/backend-api/backend_api.py:723-737 | afterwards the returned agent is active and has an active key |
| AgentInvariants.ListingShowsKeys | server/backend-api/backend_api.py:740-758 | in every state that keeps the invariant, also with keys whose text was not kept: listing yields at least one agent, and for every active agent a key that can be shown |
| AgentEffects.CreateAddsName | server/backend-api/backend_api.py:761-773 | creation succeeds iff the name is not empty and not active; it adds that name to that project, and the new key is the only one of the new agent |
| AgentEffects.RenameReplacesName | server/backend-api/backend_api.py:776-788 | renaming succeeds iff the name is free apart from the agent itself; the new name takes the place of the former one and nothing else changes |
| AgentEffects.DeleteRemovesName | server/backend-api/backend_api.py:791-799 | deletion succeeds iff the agent is active and not the last; its name and its keys go, all others stay |
| AgentEffects.RotateReplacesKeys | server/backend-api/backend_api.py:664-669 | rotation leaves the agent with exactly the new key and all others with theirs |
| AgentEffects.RevokeRemovesKey | server/backend-api/backend_api.py:1994-1994 | revoking removes that key of that project and no other |
| AgentEffects.DefaultAgentIs | server/backend-api/backend_api.py:723-737 | a default agent is made only for a project without agents, one of that name is preferred, and an existing key is kept |
| AgentEffects.AcceptedIff | server/backend-api/backend_api.py:885-905 | a key is accepted iff it is active and its project exists; a refusal changes nothing |
| AgentEffects.AcceptedKeyStandsFor | server/backend-api/backend_api.py:894-905 | an accepted key stands for its own project and agent and the name of that agent; only a key of the project as a whole, which names no agent, takes the name of the default agent and can make the tables change |
| AgentStore.Store.CreateAgentRow | server/backend-api/backend_api.py:761-773 | the statements on the tables; on an error nothing is written; the invariant is kept |
| AgentStore.Store.RenameAgentRow | server/backend-api/backend_api.py:776-788 | the statements on the tables; the invariant is kept |
| AgentStore.Store.DeleteAgentRow | server/backend-api/backend_api.py:791-799 | the statements on the tables; on success the agent is inactive and has no active key |
| AgentStore.Store.RegenerateAgentKeyRow | server/backend-api/backend_api.py:664-669 | the statements on the tables; the invariant is kept |
| AgentStore.Store.RegenerateApiKeyRow | server/backend-api/backend_api.py:659-661 | the statements on the tables; the invariant is kept |
| AgentStore.Store.RevokeKeyRow | server/backend-api/backend_api.py:1994-1994 | the statement on the table; the invariant is kept |
| AgentStore.Store.CreateProjectRow | server/backend-api/backend_api.py:672-683 | the statements on the tables; the new project exists and the invariant is kept |
| AgentStore.Store.EnsureDefaultAgentRow | server/backend-api/backend_api.py:723-737 | the statements on the tables; the agent is active and has an active key |
| AgentStore.Store.ListAgentRows | server/backend-api/backend_api.py:740-758 | the loop that rotates keys which cannot be shown |
| AgentStore.Store.AuthenticateRow | server/backend-api/backend_api.py:885-905 | whom a key stands for: its project, its agent as the key has it, and a name; an accepted key goes by the name of an active agent |

## Left out

- UriSearch.FindUriIsFirstCandidate: strings are sequences of characters that stand for bytes, which is what the code indexes.
- Termination.RoundLowersBrackets: answers that hold `}` can make brackets grow; for those only the limit itself ends the rounds (`ExpansionLimit`).
- Templates.ExpansionIsSubstitution: literal text, names and answers hold no `$`, because replacing rewrites escaped copies of a reference as well; escapes mixed with references are not described.
- NestedTemplates.NestedExpansionIsSubstitution: no name of a reference is put together from other references; references inside names are described for chains only (`ExpansionLimit.OneLevel`).
- NestedTemplates.NestedTextIff: values that are no texts hold no references inside; references in the texts recorded with them are described.
- Escaping.EscapeRoundTrip: a pair of a parsed value and its text is taken as the expansion makes it, with no string or pair as its value.
- PipelineId.ParsedIsValid: the non-ASCII characters of the Unicode categories C and S are an arbitrary predicate, and text is a sequence of code points.
- Timestamps.OrderKeptIff: starts from the integer nanoseconds, after the conversion through a float.
- AggregationLaws.TraceOfPermutation: the duration is an arbitrary function of the two texts, as it is computed with floats.
- PhoneCodes.LatestActive: two codes created in the same millisecond are ordered by insertion.
- PhoneCodes.RunKeepsLimits: one request is one atomic step; the table is exact.
- AgentInvariants.ReachableOk: one request is one atomic step; delayed table mutations and merges of ClickHouse are not modelled, identifiers come from a counter instead of being random, and the text of a key is identified with its identifier.
- ListMerge.GroupingsAgreeIff: configurations are flat maps from keys to values; flattening and the glob patterns are an arbitrary predicate on keys, and deep equality is assumed symmetric and transitive.
- RedactionInPlace.Mask: the raw configuration is a tree without shared parts, as a fresh copy is.
- FeatureGates.GatesKeepTheirRules: registering and setting are atomic steps; version strings are reduced to whether they are given, well formed and in order.
- Collector.Collector.Run: events come as an arbitrary list, one at a time; that an event is eventually handled is not claimed.
- Resolver.Resolver.Resolve: merging and converters are arbitrary functions that may fail; the order of a map's entries is arbitrary but fixed.
- HTTP handlers, SQL text, message sending, hashing and tokens.
- Name cleaning and phone normalisation: names and numbers are taken as the functions clean them.
- Decoding by reflection, configuration validation, `DryRun`, and the component identifiers that parse like pipeline identifiers.
- Panics inside components, real scheduling and liveness.
