# bvmgo-util in Dafny

A model of the core of the Go library `bvmgo-util`, with proofs about it. The model covers:

- **`depinject`: the dependency-injection container.** The container is a registry of elements. Each element has a type, a name, a three-state status and a value. `Start` initializes every element. Initializing an element means resolving each field tagged `inject`, by name or by type, initializing that dependency first and writing it into the field. Along the way the container detects dependency loops and records a completion log. `Stop` walks the log, calls `Release`, clears the injected fields and resets the statuses. Lookups by name, by type, or by both follow a zero / one / many policy.
- **`errors`: traceable errors.** Each has a message, a cause, and the file, function and line where it was built. The module covers their `Error()` text and the walk along the chain of causes.
- **`logs`: loggers.** It covers the seven levels and their names, the line layout of the default formatter with its depth-limited rendering of error chains, and the logger's level filter and setters. A trailing error argument is taken out of the message, and the fatal calls exit.
- **`iostring` and `properties`: line input.** A line reader hands out the lines of a text, numbered from 1. The properties reader parses `key=value` lines into a map.

The container is modelled in two layers:

- **Module `Lifecycle`** is the specification. It writes each operation of `depinject/context.go` as a function from the container's state (`CtxState`) to the next state and the error it returns.
- **Class `Depinject.Context`** is the imperative model. It has the Go structure's fields, and its methods have the Go loops and the Go recursion. Every method is proved to end in exactly the state and error its `Lifecycle` function gives.

The properties of the container are proved about the `Lifecycle` functions, in modules `LifecycleFacts` and `Injection`. The main ones:

- Registration refuses duplicates.
- A dependency loop fails.
- A failed injection releases the element.
- `Start` either starts everything or stops the context.
- `Stop` releases in log order.
- Lookups return the unique candidate.
- After a successful `Start`, every tagged field holds the value of the element its lookup designates.

Go's reflection is a value-level model (module `GoTypes`). What the container cannot see is a parameter of the model, in module `Environment`:

- type assignability;
- the `Initializable` and `Releasable` capabilities;
- what `AfterInject` returns;
- whether `introsp.SetAttribute` accepts a write.

The calls into user code are kept in a trace of hooks. In the same way, the logger's output is a trace of emitted lines, and `os.Exit` is a trace of exit codes. The following are parameters too:

- the date;
- the call site;
- `fmt.Sprint` and `fmt.Sprintf`;
- `filepath.Base`;
- user formatters.

## Model

| member | source | states |
|---|---|---|
| Depinject.Context.constructor | depinject/context.go:25-31 | CreateContext: not started, no element, empty completion log |
| Depinject.Context.Add | depinject/context.go:37-42 | the new state and error are those of Lifecycle.Add |
| Depinject.Context.AddWithName | depinject/context.go:46-68 | the new state and error are those of Lifecycle.AddWithName |
| Depinject.Context.Start | depinject/context.go:71-84 | the new state and error are those of Lifecycle.Start |
| Depinject.Context.Stop | depinject/context.go:87-93 | the new state is that of Lifecycle.Stop |
| Depinject.Context.InitializeElement | depinject/context.go:95-114 | the new state and error are those of Lifecycle.Init |
| Depinject.Context.InjectDependencies | depinject/context.go:117-171 | the new state and error are those of Lifecycle.InjectDependencies |
| Depinject.Context.InjectFields | depinject/context.go:127-167 | the loop over the fields: state and error are those of Lifecycle.InjectFields from the first field |
| Depinject.Context.InjectField | depinject/context.go:128-165 | the body of the field loop for one tagged field: state and error are those of Lifecycle.InjectField |
| Depinject.Context.InjectResolved | depinject/context.go:154-165 | initializing a found dependency and writing it into the field: state and error are those of Lifecycle.InjectResolved |
| Depinject.Context.CallAfterInject | depinject/context.go:174-183 | the new state and error are those of Lifecycle.CallAfterInject |
| Depinject.Context.ReleaseElement | depinject/context.go:187-190 | the new state is that of Lifecycle.Release |
| Depinject.Context.CallReleaseMethod | depinject/context.go:193-201 | the new state is that of Lifecycle.CallReleaseMethod |
| Depinject.Context.RemoveDependencies | depinject/context.go:204-219 | the new state is that of Lifecycle.RemoveDependencies |
| Depinject.Context.GetElementsByName | depinject/context.go:288-296 | the loop collects exactly Resolution.ByName: the positions of the elements of that name, in order |
| Depinject.Context.IsCandidate | depinject/context.go:304-306 | the candidate test is Resolution.Matches: false for a nil type, true for the element's own type |
| Depinject.Context.GetElementsByNameAndType | depinject/context.go:300-311 | the loop collects exactly Resolution.ByNameAndType |
| Depinject.Context.ElementsInfo | depinject/context.go:238-244 | the loop builds the ", "-joined descriptions of the candidates (Resolution.InfoList) |
| Depinject.Context.GetElementByType | depinject/context.go:221-247 | the result is Resolution.ElementByType |
| Depinject.Context.GetElementByName | depinject/context.go:268-284 | the result is Resolution.ElementByName |
| Depinject.Context.GetByType | depinject/context.go:251-263 | state, value and error are those of Lifecycle.GetByType |
| Depinject.Context.GetByName | depinject/context.go:316-325 | state, value and error are those of Lifecycle.GetByName |
| Depinject.Context.GetByNameAndType | depinject/context.go:329-348 | state, value and error are those of Lifecycle.GetByNameAndType |
| Depinject.Context.ExtractElementValue | depinject/context.go:350-358 | state, value and error are those of Lifecycle.Extract |
| Lifecycle.CallAfterInject | depinject/context.go:174-183 | the state changes only by one AfterInject hook, and only for an Initialized element; an error always comes from that hook |
| Lifecycle.ClearFields | depinject/context.go:207-214 | no object other than the element's own has a field changed |
| Lifecycle.Release | depinject/context.go:187-219 | the element ends Uninitialized, every other status, the log and the started flag are unchanged, and one Release hook is recorded exactly when the element is Initialized and Releasable |
| Lifecycle.Init | depinject/context.go:95-114 | success leaves the element Initialized; failure from Uninitialized leaves it Uninitialized; no element is lost from the log or left half-initialized (Kept) |
| Lifecycle.AfterInjection | depinject/context.go:106-111 | the element ends Initialized on success and Uninitialized (released) on failure |
| Lifecycle.InjectDependencies | depinject/context.go:117-171 | the element ends Initialized on success and InInitialization on failure; no other element is left half-initialized |
| Lifecycle.InjectFields | depinject/context.go:127-167 | the field loop keeps the state consistent (Kept) on every path |
| Lifecycle.InjectField | depinject/context.go:128-165 | one tagged field keeps the state consistent (Kept) |
| Lifecycle.InjectResolved | depinject/context.go:154-165 | initializing the dependency and writing the field keeps the state consistent (Kept) |
| Lifecycle.StartFrom | depinject/context.go:73-80 | the loop of Start keeps the state well formed and the registry's shape |
| Lifecycle.Start | depinject/context.go:71-84 | the state stays well formed and the registry keeps its shape |
| Lifecycle.ReleaseAll | depinject/context.go:88-90 | the release loop keeps the shape, the started flag and the log |
| Lifecycle.Stop | depinject/context.go:87-93 | not started and an empty log afterwards, same registry shape |
| Lifecycle.AddWithName | depinject/context.go:46-68 | the registry never shrinks and stays well formed |
| Lifecycle.Add | depinject/context.go:37-42 | the state stays well formed |
| Lifecycle.Extract | depinject/context.go:350-358 | the registry keeps its shape |
| Lifecycle.GetByType | depinject/context.go:251-263 | the registry keeps its shape |
| Lifecycle.GetByName | depinject/context.go:316-325 | the registry keeps its shape |
| Lifecycle.GetByNameAndType | depinject/context.go:329-348 | the registry keeps its shape |
| Lifecycle.ReleasedAfterFailure | depinject/context.go:101-104 | releasing an element after a failed injection leaves no element half-initialized |
| Lifecycle.InjectionEnds | depinject/context.go:168-170 | finishing the injection keeps every other element and the log consistent |
| Lifecycle.InjectionStops | depinject/context.go:137-165 | an error inside the field loop leaves the element InInitialization and the rest consistent |
| LifecycleFacts.AddWithNameRefuses | depinject/context.go:46-56 | a nil value, or a name already held by an element whose type matches, is refused with an error and changes nothing |
| LifecycleFacts.AddWithNameAppends | depinject/context.go:57-67 | otherwise exactly one Uninitialized element is appended; before Start nothing else changes, after Start the new element ends Initialized or, with the error, Uninitialized |
| LifecycleFacts.AddOutcome | depinject/context.go:37-42 | Add refuses nil and otherwise is AddWithName under the printed type name |
| LifecycleFacts.AddKeepsUnambiguous | depinject/context.go:50-56 | the duplicate check keeps the registry free of same-name elements with matching types |
| LifecycleFacts.InitCases | depinject/context.go:95-113 | an InInitialization element fails with the "potential dependency loop" error and changes nothing; an Initialized one succeeds and changes nothing |
| LifecycleFacts.InitReleasesAfterFailedInjection | depinject/context.go:99-105 | a failed injection releases the element back to Uninitialized and the error has the injection error as cause |
| LifecycleFacts.InjectDependenciesLog | depinject/context.go:117-170 | a non-struct element becomes Initialized without being logged; a struct element that succeeds is appended once, at the end of the log, which only grows |
| LifecycleFacts.MissingDependency | depinject/context.go:135-153 | an unresolved dependency fails with the "missing '<field>' dependency" error, no cause, and no change |
| LifecycleFacts.InjectResolvedWrites | depinject/context.go:154-165 | on success the dependency is Initialized and its value is in the field |
| LifecycleFacts.AfterInjectOnlyWhenInitialized | depinject/context.go:174-183 | AfterInject runs at most once and only on an Initialized element with a value |
| LifecycleFacts.StartFromOutcome | depinject/context.go:73-83 | once the loop ends: every element Initialized and started on success; stopped with an empty log on failure |
| LifecycleFacts.StartOutcome | depinject/context.go:71-84 | a successful Start leaves every element Initialized and the context started; a failed one leaves it stopped with an empty log |
| LifecycleFacts.ReleaseCallsAfter | depinject/context.go:87-93 | the Release calls of a walk of the log name only logged elements not yet released that are Initialized and Releasable, at most one per entry |
| LifecycleFacts.ReleaseCalls | depinject/context.go:87-93 | the Release calls of Stop's walk name only logged elements that are Initialized and Releasable |
| LifecycleFacts.ReleaseCallsAfterOnce | depinject/context.go:87-93 | no walk of a suffix of the log emits the same Release call twice |
| LifecycleFacts.ReleaseCallsExactlyOnce | depinject/context.go:87-93 | an element gets a Release call exactly when it is logged and Initialized and Releasable, and no Release call occurs twice, even when an element is logged twice |
| LifecycleFacts.ReleaseAllStatus | depinject/context.go:88-90 | the logged elements end Uninitialized, the others keep their status |
| LifecycleFacts.ReleaseAllHooks | depinject/context.go:88-90 | Release is called in log order at the first entry of each element Initialized and Releasable before the walk; a repeated entry calls nothing |
| LifecycleFacts.ReleaseFrame | depinject/context.go:187-219 | releasing an element leaves every other element unchanged |
| LifecycleFacts.StopOutcome | depinject/context.go:87-93 | Stop: not started, empty log, logged elements Uninitialized, others unchanged, Release calls in log order, once per element |
| LifecycleFacts.ClearFieldsKeepsNil | depinject/context.go:207-214 | a field already nil stays nil |
| LifecycleFacts.ClearFieldsClears | depinject/context.go:207-214 | every tagged field whose nil write is accepted ends nil |
| LifecycleFacts.ReleaseClearsFields | depinject/context.go:204-219 | releasing a struct element sets each accepted tagged field to nil |
| LifecycleFacts.ReleaseKeepsNil | depinject/context.go:187-219 | a field already nil stays nil through a release |
| LifecycleFacts.ReleaseAllKeepsNil | depinject/context.go:88-90 | a field already nil stays nil through the rest of Stop's walk |
| LifecycleFacts.ReleaseAllClears | depinject/context.go:88-90 | the walk clears every accepted tagged field of each element with an entry ahead |
| LifecycleFacts.StopClearsFields | depinject/context.go:87-93 | after Stop every logged structure element has each tagged field nil, except those whose nil write is refused |
| LifecycleFacts.ExtractLazy | depinject/context.go:350-358 | an Uninitialized element is initialized only once started; otherwise the value is returned and nothing changes |
| LifecycleFacts.GetByNameResult | depinject/context.go:316-325 | when exactly one element has that name, GetByName is extractElementValue of that element; a success returns the value of an element of that name; an error, with no change, for none or several |
| LifecycleFacts.GetByNameUnique | depinject/context.go:316-325 | the only element of that name is the one extracted |
| LifecycleFacts.GetByTypeResult | depinject/context.go:251-263 | when exactly one element is a candidate for the type, GetByType is extractElementValue of that element; a success returns a candidate's value; an error, with no change, for a nil type, none or several |
| LifecycleFacts.GetByTypeUnique | depinject/context.go:251-263 | the only candidate for the type is the one extracted |
| LifecycleFacts.GetByNameAndTypeResult | depinject/context.go:329-336 | when exactly one element has that name and a matching type, GetByNameAndType is extractElementValue of that element; a success returns such an element's value; an error, with no change, when there is none |
| LifecycleFacts.GetByNameAndTypeUnique | depinject/context.go:329-336 | the only element with that name and a matching type is the one extracted |
| LifecycleFacts.GetByNameAndTypeTooMany | depinject/context.go:337-347 | two such elements give an error, a nil value and no change |
| Injection.StructFields | depinject/context.go:119-128 | the fields of the type left once every pointer level is removed when that is a structure, none otherwise; a pointer has the fields of its pointee |
| Injection.InitSound | depinject/context.go:95-114 | a successful initialization keeps every Initialized element's fields injected, and the store only gains the designated values |
| Injection.InjectDependenciesSound | depinject/context.go:117-171 | the same for one injection |
| Injection.InjectFieldsSound | depinject/context.go:127-167 | the field loop writes into every tagged field visited the value of its designated provider |
| Injection.InjectFieldSound | depinject/context.go:128-165 | the same for one field |
| Injection.InjectResolvedSound | depinject/context.go:154-165 | the same once the provider is found |
| Injection.StartFromSound | depinject/context.go:73-80 | the loop of Start keeps every Initialized element injected |
| Injection.StartInjects | depinject/context.go:154-161 | after a successful Start every tagged field of every element holds the value of the unique element its lookup designates, whatever the registration order |
| Injection.FreshStartInjects | depinject/context.go:154-161 | the same for a context with nothing Initialized before Start |
| Resolution.MatchesOwnType | depinject/context.go:227-230 | an element is a candidate for its own type and never for a nil type; an element whose kind has an element type is a candidate for what that element type is assignable to |
| Resolution.ByName | depinject/context.go:288-296 | exactly the positions of the elements of that name, increasing |
| Resolution.ByType | depinject/context.go:225-232 | exactly the positions of the candidates for the type, increasing |
| Resolution.KeepMatching | depinject/context.go:303-309 | exactly the given positions whose type matches, in order |
| Resolution.ByNameAndType | depinject/context.go:300-311 | exactly the elements of that name whose type matches, increasing |
| Resolution.Pick | depinject/context.go:233-246 | no element for no candidate, the candidate for one, a cause-less error for several |
| Resolution.ElementByTypePolicy | depinject/context.go:221-247 | a lookup by type finds the only candidate, nothing for none or a nil type, and fails for several |
| Resolution.ElementByNamePolicy | depinject/context.go:268-284 | a lookup by name finds the only element of that name, nothing for none, and fails for several |
| Resolution.TooManyListsAll | depinject/context.go:238-245 | the "too many elements" error text contains the description of every candidate |
| Environment.SetAttribute | depinject/context.go:161-165 | a refused write changes nothing; an accepted one sets exactly that field of that object |
| GoTypes.TypeOf | depinject/context.go:51 | reflect.TypeOf is nil exactly for nil |
| Elements.StatusString | depinject/element.go:20-31 | "!!!Unknown status!!!" exactly for values outside the three statuses |
| Elements.StatusesDistinct | depinject/element.go:11-31 | Uninitialized 0 < InInitialization < Initialized 2, with three distinct names |
| Elements.ElementStringShows | depinject/element.go:45-47 | the description starts with "[type=" and the type's Name(), and always contains "name='<name>'" and "status=<status>]" |
| Introspection.FindNoPointerType | depinject/introspection.go:31-42 | nil exactly for nil; never a pointer; the input is that type under as many pointers as it had |
| Introspection.FindStructType | depinject/introspection.go:12-25 | nil or a struct; non-nil exactly when the type without pointers is a struct, and then equal to it |
| Introspection.NoPointerTypeOfNonPointer | depinject/introspection.go:35-40 | the identity on non-pointer types |
| Introspection.NoPointerTypeIdempotent | depinject/introspection.go:31-42 | applying it twice is applying it once |
| Introspection.NoPointerTypeUnique | depinject/introspection.go:36-37 | every pointer level is removed |
| Introspection.TypeNameThroughPointers | introsp/type.go:26-27 | the printed name of a pointer type is one "*" per level before the pointee's |
| Introspection.IntrospectionExamples | depinject/introspection_test.go:32-61 | the expected results of the findStructType and findNoPointerType tables |
| Introsp.TypeName | introsp/type.go:9-33 | "<nil>" for nil and the kind's rendering otherwise |
| Introsp.TypeNameByKind | introsp/type.go:13-29 | "<invalid>", "[n]e", "[]e", "map[k]e", "chan e", "*e" and "unsafe." + name, for every type, in terms of the names of its components |
| Introsp.ElemNameAppears | introsp/type.go:16-27 | the name of an array, slice, map, channel or pointer type contains its element type's name |
| Introsp.KeyNameAppears | introsp/type.go:20-21 | the name of a map type contains its key type's name |
| Introsp.ComponentNamesAppear | introsp/type.go:15-27 | the name of a composite type contains the name of every type it is built from, at any depth |
| Introsp.NamedTypesUseTheirName | introsp/type.go:30-31 | basic and struct types print their Name() |
| Introsp.TypeNameExamples | introsp/type_test.go:27-34 | the expected names of the TypeName table |
| Errors.BuildCustomError | errors/error.go:70-78 | a traceable error with that message and that cause |
| Errors.New | errors/error.go:43-45 | a traceable error with no cause, whose text is the message and the position |
| Errors.NewWithCause | errors/error.go:38-40 | a traceable error with that message and cause |
| Errors.Wrap | errors/error.go:48-56 | the cause is the wrapped error; the message is its Message() when traceable and its Error() otherwise, passed through Sprintf as a format without operands, so it is unchanged exactly when it has no '%' |
| Errors.ParseDirective | errors/error.go:70-78 | one directive: flags, width, precision and verb, ending within the format |
| Errors.PlainFormatUnchanged | errors/error.go:48-56 | a message without '%' survives Wrap's formatting unchanged |
| Errors.PlainPrefixCopied | errors/error.go:70-78 | text without '%' in front of a format is copied before the rest |
| Errors.TrailingPercent | errors/error.go:48-56 | a wrapped "100%" becomes "100%!(NOVERB)" |
| Errors.DoublePercent | errors/error.go:48-56 | a wrapped "50%%" becomes "50%" |
| Errors.MissingOperand | errors/error.go:48-56 | a wrapped "%d" becomes "%!d(MISSING)" |
| Errors.ErrorTextParts | errors/error.go:82-96 | the text starts with the message; the position is present exactly when line > 0 and shows the file for an unknown function, the function otherwise |
| Errors.CauseSuffix | errors/error.go:82-96 | text = message + position, plus "\n    > cause by: " and the cause's text exactly when there is a cause |
| Errors.ChainMessagesAppear | errors/error.go:82-96 | every message along the chain of causes appears in the text |
| Errors.UnwrapUndoesWrap | errors/error.go:105-127 | Unwrap and Cause of Wrap(e) both give e |
| LogLevels.String | logs/level.go:15-32 | at most five characters; "INFO" exactly for Default and Info; "?????" exactly beyond Fatal |
| LogLevels.LevelsOrdered | logs/level.go:5-13 | the seven levels are strictly increasing and are the only named ones |
| LogLevels.NamesDistinct | logs/level.go:15-32 | two levels print alike only when equal or both "INFO" |
| LogFormat.FormatError | logs/formatter.go:41-60 | "nil" for no error, "..." at depth zero, otherwise starts with the error's head |
| LogFormat.FormatErrorShowsChain | logs/formatter.go:41-60 | the text names the first min(d, chain length) errors of the chain, joined by "\n  > cause by: ", with "..." after them when the chain is longer than a non-negative depth |
| LogFormat.WholeChain | logs/formatter.go:35 | a negative depth names the whole chain and never writes "..." |
| LogFormat.Header | logs/formatter.go:25-26 | the date, then " [", the level name padded left to five characters, then "] " |
| LogFormat.PrefixPart | logs/formatter.go:27-29 | "prefix - " exactly for a non-empty prefix |
| LogFormat.PositionPart | logs/formatter.go:31-33 | present exactly when fileLine > 0 |
| LogFormat.ErrorPart | logs/formatter.go:34-36 | present exactly when there is an error, and starts with "\n  > error: " |
| LogFormat.Format | logs/formatter.go:23-38 | the line is exactly the header, then the prefix part and the message, then the position and error parts, nothing in between |
| LogFormat.LevelColumn | logs/formatter.go:26 | the level column is five wide and " INFO" for Default and Info |
| Logs.ExtractErrorOfArguments | logs/logger.go:183-194 | an error is returned exactly when the last argument is one, and then the arguments are all but it; otherwise they are unchanged |
| Logs.EffectiveLevel | logs/logger.go:51-56 | the default level while LevelDefault is stored, the stored level otherwise |
| Logs.FiltersCompared | logs/logger.go:148-165 | the filters of log and logf agree once a level is set; under LevelDefault they differ exactly for levels between LevelDefault and the default level |
| Logs.FiltersAsShipped | logs/logger.go:149-159 | with the default level Info they differ only on LevelDefault; with it raised to Warn an Info message passes logf and not log |
| Logs.FatalPassesNamedLevels | logs/logger.go:135-145 | a Fatal message is never filtered out under a named level |
| Logs.Logger.New | logs/logger.go:36-43 | that prefix, LevelDefault, the default formatter and output, nothing emitted |
| Logs.Logger.Level | logs/logger.go:51-56 | the default level while LevelDefault is stored, the stored level otherwise; never LevelDefault when the default is not |
| Logs.Logger.SetLevel | logs/logger.go:59-61 | only the level changes |
| Logs.Logger.SetFormatter | logs/logger.go:69-71 | only the formatter changes |
| Logs.Logger.SetOutput | logs/logger.go:79-81 | only the output changes |
| Logs.Logger.Log | logs/logger.go:148-155 | exactly one line, the formatter's rendering of the message and trailing error, is emitted when the level reaches Level(), none otherwise |
| Logs.Logger.Logf | logs/logger.go:158-165 | the same against the stored level |
| Logs.Logger.Fatal | logs/logger.go:135-138 | the log call at LevelFatal, then exit code 1 recorded |
| Logs.Logger.Fatalf | logs/logger.go:142-145 | the logf call at LevelFatal, then exit code 1 recorded |
| IoString.LineReader.constructor | iostring/reader.go:26-39 | line number 0, and a next line exactly when there is at least one |
| IoString.LineReader.Scan | iostring/reader.go:47 | the scanner advances exactly when a line remains |
| IoString.LineReader.Read | iostring/reader.go:43-51 | while a line remains: that line verbatim, the number one higher, ok; at the end "", the same number, not ok, and nothing changes; the number never exceeds the line count |
| IoString.LineReader.HasNext | iostring/reader.go:54-56 | true exactly when fewer lines were read than there are |
| IoString.LineReader.LineNumber | iostring/reader.go:59-61 | between 0 and the line count, below it exactly while a line remains |
| Common.TrimSpace | properties/reader.go:50 | strings.TrimSpace: the slice of the input between its leading and trailing white space, which it removes; no white space at either end; empty exactly for an all-space input |
| Properties.ParseLine | properties/reader.go:50-64 | a line is an entry exactly when it is not all white space; a non-entry has empty key and value; without '=' the key is the whole line and the value "" |
| Properties.CommentsAreEntries | properties/reader.go:51 | the comment test never holds, so a line starting with '#' is an entry |
| Properties.ParseKeyValue | properties/reader.go:55-62 | a line a + "=" + b with no '=' in a gives the trimmed a and the trimmed b, so later '='s stay in the value |
| Properties.ToMapStep | properties/reader.go:38-40 | one more line read sets its key when it is an entry and changes nothing otherwise |
| Properties.CollectKeys | properties/reader.go:32-41 | a key is in the map exactly when some line is an entry for it |
| Properties.CollectLastEntry | properties/reader.go:32-41 | a key maps to the value of the last entry for it |
| Properties.ToMapKeys | properties/reader.go:28-43 | a key is in the map ReadToMap builds exactly when some line is an entry for it |
| Properties.ToMapLastEntry | properties/reader.go:38-40 | the last entry for a key wins |
| Properties.ToMapGrows | properties/reader.go:38-40 | the map only grows as lines are read |
| Properties.ExtractDataFromLine | properties/reader.go:45-65 | a line read is parsed by ParseLine; a read past the end is the "failed to read data at line n" error |
| Properties.ReadToMap | properties/reader.go:28-43 | the map is that of all lines and there is no error |

## Left out

- The Go runtime panics are not modelled. `reflect.Type.Elem()` panics on kinds without an element type, in the candidate test at depinject/context.go:229 and 306; the test's pointee disjunct is taken as false for those kinds. `AssignableTo` with a nil type panics as well. `getElementByType` returns before the test for a nil type, but `GetByNameAndType` (depinject/context.go:329-330) passes a nil type straight to the test at depinject/context.go:304-306, which panics as soon as an element has that name. The model takes the test as false there, so the model answers with the "cannot find element with '<name>' name and '<nil>' type" error where Go panics.
- The `Func` case of `TypeName` (introsp/type.go:24-25) is left out: it calls `Elem()` on a func type, which panics.
- `runtime.Caller` and `runtime.CallersFrames` are not modelled. The file, function and line of a new error, and the call site of a log call, are parameters.
- `fmt.Sprintf` and `fmt.Sprint` beyond `%d` and `%5s` are parameters: messages arrive already formatted. The one exception is `Wrap`, which formats the wrapped message a second time; `Errors.FormatWithoutOperands` models that call. The same holds for `time.Format`, `now()` and `filepath.Base`.
- The `*log.Logger` sink is not modelled: an output is an identifier, and what it prints is a trace. `os.Exit` is a recorded exit code, so the model continues past it.
- Line splitting by `bufio.Scanner` and all file and reader I/O are not modelled. This covers `ReadFromFileToMap`, `ReadFromBytesToMap`, `NewLineReaderFromBytes`, `closeFile` and a scanner error. The input is the sequence of lines.
- `GlobalContext`, `logs/default.go`, the `term` package and `main.go` are not part of this model. They are global singletons, one-line delegations to the default logger, and terminal output.
- introsp/setter.go and introsp/getter.go are not part of this model. They are reflection wrappers; `SetAttribute` is the abstract operation in `Environment`.
- The bodies of user `AfterInject` and `Release` methods are not modelled. They are user code: a parameter gives the result of `AfterInject`, and both calls are recorded in the hook trace.
- `Trace`, `Debug`, `Info`, `Warn` and `Error`, and their `f` variants (logs/logger.go:84-131), are not modelled separately. Each is one call to `log` or `logf` at a fixed level, which `Logs.Logger.Log` and `Logs.Logger.Logf` cover for every level.
- Reading n lines in order, numbered 1..n, has no lemma of its own. A method cannot be the subject of a lemma, so this follows from `IoString.LineReader.Read`'s contract applied call after call. The loop of `Properties.ReadToMap` is one instance.
- Returning the `Formatter` and `Output` interfaces, and `Prefix`, are plain field reads without a contract.
- Depinject.Context.InjectDependencies: the field loop is a method of its own, `InjectFields`, and its body is split into two further methods, `InjectField` and `InjectResolved`, because of their length; the order of the steps is that of the source.
- Injection.StartInjects: assumes the fields of each structure have distinct names. It also assumes that any element already Initialized before `Start` already has its tagged fields injected. Without these, writes could overwrite one another.
- Errors.FormatWithoutOperands: the explicit argument index `[n]` of a directive and the guard against widths over a million are not modelled. A '[' is read as the verb, so `%[1]d` gives "%![(MISSING)1]d" where Go gives "%!d(BADINDEX)".
- Errors.Unwrap: an error that is not traceable (a `fmt.Errorf` result) is taken to have no cause.
- Behaviours modelled as the source writes them, not corrected:
  - `Stop` releases in completion order, not in reverse;
  - elements that are not structures never enter the completion log;
  - `findNoPointerType` removes every pointer level;
  - `logf` filters on the stored level, not on `Level()`;
  - the comment test at properties/reader.go:51 compares an empty slice with "#".
