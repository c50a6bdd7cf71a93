# easy-dbuspp: a verified model

easy-dbuspp maps C++ types and calls onto D-Bus. This project models four parts of it in Dafny and
proves what they promise, for every input and every run.

- **The typed codec.** `Types` has the C++ types, their values and GVariant trees; `Signature` the
  type strings and a parser for the "Type System" section of the D-Bus Specification; `Codec`
  `to_gvariant` as a relation (a container iterates in whatever order it likes) and
  `from_gvariant` as a function; `Fidelity` the exact set of types that survive the round trip and
  the exact pairs of types where one can be read at the other; `Rewriting` the exact set of types
  whose every received value can be sent again; `Marshalling` the builder and the loops, proved
  against `Codec`.
- **The remote call.** `Descriptors` moves file descriptors into a side list and back, counting what
  the processes may open; `Introspection` is what the XML declares; `Object` the registration of
  methods, properties and signals and the property handlers; `RemoteCall` the whole path of
  `proxy::call`; `Signals` emission, subscription and delivery; `PropertyCache` runs of remote
  writes and PropertiesChanged signals; `Replies` the invocations on the thread pool.
- **The idle detector.** `IdleDetector` is a state machine of atomic steps with a mutex, a condition
  variable with spurious wakeups and late relocking, any number of pinging threads, and a
  controller that enables and disables over and over.
- **The browser's argument buffer.** `ArgumentBuffer` is the byte layout of the Firefox example.

## Where the code falls short of its documentation

The type mapping in the repository's README promises `std::variant` for `v` without reserve. Decoding
assigns every alternative whose coarse run-time pattern matches, so the promise fails for some
types: `Fidelity.FloatDoubleVariant` shows a `float` coming back as a `double`. `Fidelity.Distinguished`
is a condition on the C++ type alone: at every depth, all alternatives of a variant can be
recognized and none overtakes another. `Fidelity.FaithfulIsExact` proves that it holds if and only
if every value comes back from every encoding, and `Fidelity.WhichAlternative` decides each
alternative by itself.

What was read off the wire cannot always be written again: `Rewriting.DefaultPathIsStuck` shows a
`std::variant<object_path_t>` that keeps the empty path. `Rewriting.RewritingIsExact` gives the exact
condition on the type, and `Rewriting.DecodeEncodeDecode` what holds of every value.

The README also says the cache stays current. `PropertyCache.RemoteWriteExact` decides it for every
remote write from the state before it: the cache stays current if and only if the setter stores the
value sent, or throws without a trace, and no other property in the cache reads differently
afterwards. `PropertyCache.CoherenceIsExact` gives the condition on the properties themselves under
which every write keeps every cache. `PropertyCache.RefusalBreaks` and `LateThrowBreaks` are setters
that fail it, `PropertyCache.SharedVariableBreaks` two properties over one variable, and
`PropertyCache.LocalEditBreaks` decides the assignments the program makes itself.

A session keeps one handler per signal name but every subscription it ever made. A subscription has its
own handler called if and only if the last one made under its name, from it on, has the same handler
(`Signals.OwnHandlerCalled`), whether that one wants the signal
(`Signals.OverlappingSubscriptions`) or not (`Signals.UnwillingTakeover`).

`Codec.PatternOf` has no case for `unix_fd_t` or `const char*`, so a variant with such an alternative
never decodes. A `std::vector<bool>` can be encoded only when it is empty.

`Fault` stands for a failed GLib type check and for the library's own `std::runtime_error` alike.

## Model

| member | source | states |
|---|---|---|
| Signature.ParsePrint | include/type_mapping.h:17-68 | the D-Bus grammar's parser recovers every D-Bus type from its text, whatever follows |
| Signature.ParseSound | include/type_mapping.h:17-68 | the parser accepts only D-Bus types and loses no character |
| Signature.TypeStringParses | include/type_mapping.h:17-68 | `to_dbus_type_string` followed by anything parses to exactly the wire type |
| Signature.TypeStringsPrefixFree | include/type_mapping.h:17-68 | one type string is a prefix of another only if they denote the same wire type |
| Signature.SignatureDecodes | include/type_mapping.h:50-60 | a concatenation of type strings splits in one way only |
| Signature.TypeStringIdentifies | include/type_mapping.h:33-63 | equal strings exactly for the types the library identifies: float/double, pair/tuple, map/unordered_map, literals/strings, all variants |
| Signature.SpecificationCodes | include/type_mapping.h:22-47 | the letters are those of the specification's table |
| Types.IntegerWidths | include/params.h:24-43 | the ranges of the integer types, by bytes and two's complement |
| Types.ObjectPathGrammar | include/params.h:149-150 | an object path is a slash, or elements each of a slash and letters, digits or underscores |
| Codec.EncodingTyped | include/params.h:136-194 | what is written has exactly the declared type, empty containers included, and is well formed for GLib: numbers in range, valid paths, homogeneous arrays |
| Codec.AlikeEncodes | include/type_mapping.h:40-63 | pairs and tuples, the two kinds of map, and literals and strings write the same GVariants, at any depth |
| Codec.ExtractIsLastMatch | include/params.h:114-123 | variant decoding is a fold: last match wins, default when none, one bad alternative spoils all |
| Codec.VariantKeepsAlternative | include/params.h:105-123 | alternative i comes back if and only if it reads itself, later ones are skipped and earlier ones do not spoil |
| Codec.PairDecodesEntry | include/params.h:97-98 | a dictionary entry is read as a `std::pair` is |
| Codec.InsertAllKeys | include/params.h:97-100 | the decoded map has exactly the keys on the wire |
| Codec.FirstBindingWins | include/params.h:97-100 | a duplicate key keeps its first binding |
| Codec.TupleReadsAs | include/params.h:46-65 | tuples are read by position, extra children ignored |
| Codec.VectorReadsAs | include/params.h:66-82 | vectors are read element by element, in order |
| Codec.MapReadsAs | include/params.h:83-104 | maps insert every entry in turn |
| Fidelity.RoundTrip | include/params.h:19-194 | for a faithful type decoding returns the value encoded, through any nesting and any map order |
| Fidelity.AlikeDecodes | include/params.h:19-123 | what can be read at a type is read the same at every type that writes alike |
| Fidelity.PlainReads | include/params.h:19-194 | what any type writes, literals included, is read at its plain type of tuples, ordered maps and strings |
| Fidelity.ScalarReadsIff | include/params.h:24-45 | a string or an object path can be read as either, any other scalar from its own wire type only |
| Fidelity.FloatReadsNearest | include/params.h:36-37 | a double read as a float is the nearest one, and exact for what a float wrote |
| Fidelity.WhichAlternative | include/type_mapping.h:76-115 | in terms of the C++ types alone: an alternative comes back if and only if no later one overtakes it and every earlier one that does can read it |
| Fidelity.UnrecognizedNeverDecodes | include/type_mapping.h:113-114 | a variant with a `unix_fd_t` or `const char*` alternative is never decoded |
| Fidelity.FaithfulIsDistinguished | include/type_mapping.h:76-115 | disjoint patterns mean alternatives that can be recognized and do not overtake one another |
| Fidelity.SafeReadSound | include/params.h:19-123 | the static check that one type reads another without a fault is sound |
| Fidelity.Unreadable | include/params.h:19-123 | and complete: it fails only where some value cannot be read |
| Fidelity.SafeReadIsExact | include/params.h:19-123 | whatever is written at one type can be read at another if and only if the static check passes |
| Fidelity.FaithfulIsExact | include/params.h:19-194 | a type round-trips on all values and encodings if and only if at every depth the alternatives of its variants can be recognized and none overtakes another |
| Fidelity.OrderDoesNotMatter | include/params.h:161-173 | the iteration order of a map does not show after decoding |
| Rewriting.ReadsFit | include/params.h:19-123 | whatever is read at a closed type is a value of that type |
| Rewriting.CanWriteIff | include/params.h:136-194 | a value can be written if and only if it is one of the type and no `std::vector<bool>` in it has elements |
| Rewriting.RewritingIsExact | include/params.h:19-194 | for types that round-trip, everything read can be written again if and only if the type is closed and has no `std::vector<bool>` |
| Rewriting.DecodeEncodeDecode | include/params.h:83-104 | decode, encode, decode equals decode on every well-formed GVariant, duplicate keys included; the value can be written exactly when it is one of the type and no `std::vector<bool>` in it has elements |
| Rewriting.DefaultPathIsStuck | include/params.h:105-123 | a variant that keeps its value-initialised object path cannot be written |
| Rewriting.UnmatchedKeepsZero | include/params.h:105-109 | a variant that receives what no alternative overtakes holds the zero value of its first one |
| Fidelity.FloatDoubleVariant | include/params.h:114-123 | the promise fails for `std::variant<float, double>` |
| Marshalling.GVariantBuilder.AddValue | include/params.h:156 | appends; requires the type check GLib makes, so every insertion is proved to pass it, and that keeps the builder well formed |
| Marshalling.ToGVariant | include/params.h:136-194 | writes an encoding of the value, or throws exactly when a non-empty `std::vector<bool>` is inside |
| Marshalling.TupleToGVariant | include/params.h:151-160 | the same for tuples and pairs |
| Marshalling.VectorToGVariant | include/params.h:184-193 | the same for vectors |
| Marshalling.MapToGVariant | include/params.h:161-173 | the same for maps |
| Marshalling.AddEntries | include/params.h:169-171 | every entry is added once, in some order |
| Marshalling.FromGVariant | include/params.h:19-112 | computes `Codec.Decode` |
| Marshalling.TupleFromGVariant | include/params.h:46-65 | the tuple case, child by child |
| Marshalling.VectorFromGVariant | include/params.h:66-82 | the vector case |
| Marshalling.ReadItems | include/params.h:75-78 | the loop that grows the vector |
| Marshalling.MapFromGVariant | include/params.h:83-104 | the map case |
| Marshalling.InsertItems | include/params.h:97-100 | the loop that fills the map |
| Marshalling.ExtractVariant | include/params.h:114-123 | assigning matching alternatives in turn computes the fold |
| Descriptors.RenumberingUndone | include/params.h:196-255 | the receiver sees the sender's open files and everything else unchanged, for any interleaving |
| Descriptors.FileAt | include/params.h:207-210 | the k-th descriptor's file is entry k of the list |
| Descriptors.ListLength | include/params.h:199-227 | one list entry per descriptor, null only when there is none |
| Descriptors.ExtractUnixFdList | include/params.h:196-228 | rewrites the tuple in place as specified, and throws exactly when a descriptor is not open or the process may not open as many more |
| Descriptors.SetUpFromUnixFdList | include/params.h:230-255 | the tuple ends up with descriptors of this process for the files in the list, exactly when every index resolves and the process may open them all |
| Descriptors.Process.SpareIsRest | include/params.h:209 | the descriptors a process may still open are the limit less those open |
| Introspection.MethodXmlDeclares | include/object.inl:26-69 | the declared types join to the signatures of arguments and result, contexts erased |
| Introspection.MethodXmlNames | include/object.inl:32-67 | every argument goes by the name given for it, or by its prefix and its number in decimal digits |
| Introspection.MethodNamesDistinct | include/object.inl:32-67 | generated argument names differ within each direction |
| Introspection.HandlerReadsDeclared | include/object.inl:74-91 | the handler reads each declared argument at its declared type |
| Introspection.ArgIndexIncreases | include/object.inl:79-91 | in order |
| Introspection.DeclaredIsRead | include/object.inl:79-91 | and every one of them |
| Object.DBusObject.constructor | include/object.h:198-212 | an object starts with nothing registered |
| Object.MethodHelper | include/object.inl:12-72 | the introspection loop accepts exactly the fitting name lists and gives each argument its type, direction and name |
| Object.DBusObject.AddMethod | include/object.inl:112-121 | all or nothing; XML and map stay consistent, and the names are the given ones |
| Object.DBusObject.AddProperty | include/object.inl:173-200 | an lvalue becomes a readwrite property over its variable, which others may share, anything else a read-only copy; XML and map stay consistent |
| Object.DBusObject.AddPropertyCallbacks | include/object.inl:202-233 | needs a getter or a setter; the XML access says which there are |
| Object.DBusObject.AddSignal | include/object.inl:141-158 | refuses a name list of the wrong length, else appends the signal's element with its types and names |
| Object.DBusObject.HandleGetProperty | src/object.cpp:115-149 | replies with an encoding of the value exactly when the property exists and is readable, the request is admitted, the getter does not throw and the value can be written |
| Object.DBusObject.HandleSetProperty | src/object.cpp:151-185 | a refused request changes and announces nothing; otherwise the setter's verdict is the reply and the value is announced unless it threw |
| Object.WriteIsAnnounced | include/object.inl:186-232 | a write is announced with the very value sent unless it fails; a variable takes what decodes; a callback's verdict is the reply; no property over another cell changes |
| PropertyCache.WriteEffect | include/object.inl:186-195 | a storing setter either announces what the getter returns or changes nothing a reader sees |
| PropertyCache.RemoteWriteCoherent | include/object.inl:225-229 | a remote write keeps its property coherent if and only if it does not decode or the setter stores the value from the state it finds |
| PropertyCache.OtherWriteCoherent | include/object.inl:186-232 | it keeps another property coherent if and only if that one is not cached or reads the same afterwards |
| PropertyCache.RemoteWriteExact | src/object.cpp:151-203 | the whole cache stays current over a remote write if and only if the written property stores the value and no other cached one reads differently |
| PropertyCache.CoherenceIsExact | src/object.cpp:151-203 | every write keeps every coherent system coherent if and only if each property stores what it is sent and spares the others |
| PropertyCache.UnstoredWriteBreaks | include/object.inl:225-229 | where a property does not store some value sent to it, a coherent system and a write break |
| PropertyCache.DisturbingWriteBreaks | include/object.inl:186-232 | and so where a value sent to one property changes what readers of another get |
| PropertyCache.RefusalBreaks | include/object.inl:225-229 | a setter that refuses is such a case |
| PropertyCache.LateThrowBreaks | src/object.cpp:179-184 | and so is one that stores and then throws |
| PropertyCache.SharedVariableBreaks | include/object.inl:186-195 | a write to one of two properties over one variable leaves the cache current if and only if it changes nothing |
| PropertyCache.CoherentRun | src/object.cpp:151-203 | over any run of remote writes and deliveries the replayed cache is read as the object would answer, for exactly the properties that store what they are sent and spare each other |
| PropertyCache.AllDelivered | src/object.cpp:195-203 | after as many deliveries as signals on their way the cache is the replay |
| PropertyCache.LoadedIsCoherent | include/proxy.inl:46-56 | a freshly loaded cache is coherent when read at types that write like the properties' own and round-trip |
| PropertyCache.DrainedCacheIsCurrent | include/proxy.inl:46-56 | with no signal under way, a cached read returns the object's value |
| PropertyCache.LocalEditBreaks | include/object.inl:186-195 | an unannounced edit keeps coherence if and only if no reader sees a change |
| PropertyCache.RefusedWriteIsAnnounced | include/object.inl:225-229 | a refused write is announced, which is coherent only if it changed nothing |
| PropertyCache.RemoteSetStores | include/proxy.inl:64-73 | writing through the proxy stores the very value |
| PropertyCache.RemoteGetReturns | include/proxy.inl:75-80 | reading through the proxy returns the value for every type that round-trips but `unix_fd_t` |
| PropertyCache.CacheWriteReads | include/proxy.inl:58-62 | a value written to the cache is read back, nobody else notices, and the cache stays current if and only if a signal overwrites it or it is the value |
| RemoteCall.BodyRoundTrip | include/proxy.inl:19-44 | the receiver decodes the arguments that were encoded, at any types that write alike |
| RemoteCall.BodyMatchesIntrospection | include/object.inl:40-68 | the bodies that travel have the declared 'in' and 'out' types |
| RemoteCall.FillArguments | include/object.inl:75-91 | fills contexts and decodes the k-th travelling argument, reading as many as are declared |
| RemoteCall.FillingInterleaves | include/object.inl:79-91 | the filled tuple is the interleaving of contexts with the sent arguments |
| RemoteCall.DescriptorsInterleave | include/object.inl:93 | indices resolve to the sender's files across the interleaving |
| RemoteCall.Send | include/proxy.inl:13-19 | strips descriptors and encodes; it fails exactly for a closed descriptor, a process that may not open as many more, or a vector of bool |
| RemoteCall.Serve | src/object.cpp:86-112 | a missing method or a veto never runs the callable; a run gets the caller's arguments |
| RemoteCall.Receive | include/proxy.inl:33-43 | the caller gets the object's values, descriptors standing for the same files |
| RemoteCall.Call | include/proxy.inl:10-44 | end to end: the caller gets what the callable returned on the caller's arguments, or one of the listed failures happened |
| RemoteCall.PlainArgument | include/object.inl:79-91 | parameters that are no descriptors receive the very arguments, contexts the context |
| RemoteCall.PlainResult | include/proxy.inl:33-43 | results without descriptors are the very values |
| RemoteCall.FdArgument | include/object.inl:93 | a `unix_fd_t` parameter receives a descriptor for the caller's very file |
| RemoteCall.FdResult | include/proxy.inl:36-41 | and so does the caller for every one in the result |
| Signals.SessionManager.OnSignal | src/session_manager.cpp:84-97 | throws for an unknown signal or unreadable arguments, else calls the subscriber with the decoded ones |
| Signals.SessionManager.Deliver | include/session_manager.inl:31-43 | one call per subscription that wants the signal, each to the handler subscribed last under its name |
| Signals.OwnHandlerCalled | include/session_manager.inl:37-42 | a subscription that wants a signal has its own handler called if and only if the last one to its name, from it on, has that handler |
| Signals.FilterNarrows | include/session_manager.inl:39-42 | an empty text matches anything, a text given only itself |
| Signals.DefaultSubscription | include/session_manager.inl:31-43 | with only a name given, a subscriber hears every signal of that name once |
| Signals.OverlappingSubscriptions | include/session_manager.inl:37-42 | two subscriptions that want one signal call the newer handler twice and the older never |
| Signals.UnwillingTakeover | include/session_manager.inl:37-42 | a subscription to another sender takes the name over although it does not want the signal |
| Signals.Broadcast | include/object.inl:160-171 | the handler is called with the arguments that were emitted, once per subscription that wants the signal |
| Replies.EachAnsweredOnce | src/object.cpp:78-113 | under any scheduling each invocation is pending, running or answered, exactly once |
| Replies.OnlyAdmittedRun | src/object.cpp:92-111 | a missing method or a veto never runs the callable and never yields a value; a value comes from one run |
| Replies.RightAnswer | src/object.cpp:86-111 | over any run the reply is the value if and only if the callable returned, an error if and only if something went wrong |
| Replies.PendingCanBeAnswered | src/object.cpp:86-111 | every waiting invocation can be run and answered, an admitted one that returns with its value |
| Replies.IdlePoolAnsweredAll | src/object.cpp:187-193 | an idle pool has answered every invocation once |
| IdleDetector.StopsOnlyWhenIdle | include/idle_detector.inl:21-37 | the loop is stopped only after a full timeout since `enable` in which no ping was accepted, all earlier ones being consumed |
| IdleDetector.PingPrecedesFinalCheck | src/idle_detector.cpp:43-50 | a ping holding the lock comes before any final check and leaves the flag up for it |
| IdleDetector.PingGetsThrough | src/idle_detector.cpp:38-53 | while the detector runs, a ping for an object not excluded raises the flag and leaves no sleeper un-notified |
| IdleDetector.PingedWorkerContinues | include/idle_detector.inl:23-36 | a worker that wakes up to a raised flag, even timed out, goes on |
| IdleDetector.PingHoldsOff | include/idle_detector.inl:25-31 | as long as no worker consumes an accepted ping, no run stops the loop |
| IdleDetector.IdleCalls | src/idle_detector.cpp:24-41 | a ping or `disable` without a worker and `enable` with one change nothing |
| IdleDetector.NoLostWakeup | src/idle_detector.cpp:27-52 | a sleeper that should wake has a notification coming |
| IdleDetector.AtMostOneWorker | include/idle_detector.inl:16-21 | at most one live worker, none once `disable` has returned, over any number of cycles |
| IdleDetector.DisabledNeverStops | src/idle_detector.cpp:27-36 | after `stop_` is raised under the lock that worker never stops the main loop |
| IdleDetector.ContinuesArePaid | include/idle_detector.inl:22-36 | continuing iterations number at most the accepted pings, plus one left over from before |
| IdleDetector.ContinueConsumesPing | include/idle_detector.inl:30-35 | each continuing iteration consumes a ping accepted since the last consumption |
| IdleDetector.ExcludedNeverPings | src/idle_detector.cpp:46-60 | once an object is excluded no ping for it is ever accepted |
| IdleDetector.ExcludeWorks | src/idle_detector.cpp:55-60 | `exclude` can always go on, and a later ping for the object is dropped |
| IdleDetector.EnableWorks | include/idle_detector.inl:14-27 | from every state without a worker `enable` leads to one that waits for its timeout from now on |
| IdleDetector.DisableWorks | src/idle_detector.cpp:22-36 | from every state with a worker and a free lock `disable` can run to its end |
| IdleDetector.DisableCanReturn | src/idle_detector.cpp:22-36 | `disable` cannot deadlock: whenever it waits for its worker it can still return |
| IdleDetector.IdleWorkerCanStop | include/idle_detector.inl:25-29 | an idle worker can stop the loop exactly at its deadline |
| ArgumentBuffer.WriteInt32 | examples/firefox_openurl.cpp:49-52 | stores four bytes in bounds, and nothing else |
| ArgumentBuffer.Strncpy | examples/firefox_openurl.cpp:55-56 | copies up to the first zero byte and pads with zeros |
| ArgumentBuffer.EncodeArguments | examples/firefox_openurl.cpp:40-56 | the writes are in bounds and make the layout |
| ArgumentBuffer.HeaderReads | examples/firefox_openurl.cpp:49-52 | the header's fields; the second offset is exact if and only if it fits in int32_t |
| ArgumentBuffer.ReaderFindsArguments | examples/firefox_openurl.cpp:54-56 | the offsets select exactly the path and the URL, which do not overlap; the last byte ends the URL |
| ArgumentBuffer.LayoutInjective | examples/firefox_openurl.cpp:40-56 | different arguments make different buffers |

## Left out

- GLib and GIO: sockets, the bus daemon, the XML parser, GIO's own signature checks and reference counts; a message is a GVariant tree with a descriptor list and arrives unchanged.
- The D-Bus limits on signature length and nesting depth.
- Strings are sequences of characters without NUL; invalid UTF-8 is not represented.
- `double` is an abstract type in which every `float` has an exact widening; rounding and NaN comparison are not modelled.
- `const char*` as a map key, `void` and `std::monostate` as types, and `std::pair` as the direct result of a method, which the descriptor helpers do not accept.
- Descriptors nested in containers: only direct tuple elements are renumbered.
- RemoteCall.Call: callables are functions of the tuple they are applied to, so their effects on the program are not modelled, and the calls of concurrent clients are interleaved only in module Replies; caller and callable use types that write alike, so a `float` passed for a declared `double` is not covered.
- Signals.Broadcast: a signal carries no descriptor list, so a `unix_fd_t` among its arguments arrives as the bare number; the names of senders are compared as written, while the bus also knows who owns a well-known name.
- Replies: the registered names do not change during a run, every push to the pool succeeds, and handlers throw only `std::exception`.
- The idle detector is a state machine on values rather than a class, because its methods interleave inside their bodies; `enable` and `disable` come from one controller and `idle_future_.valid()` is an atomic read.
- `main_loop::stop` is recorded as an event: it acts only while the loop runs, so no claim is made that the loop ends.
- Connecting and disconnecting sessions and objects, `bus_watcher`, `org_freedesktop_dbus_proxy` and the signal handlers of the main loop.
- The big-endian build of the Firefox example.
- Descriptors.Process: descriptors that lists hold are counted, not numbered, and a list is closed when its message is done with.
