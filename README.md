# MPA4Rust core, modelled in Dafny

MPA4Rust is a static analyzer that finds message passing in Rust programs compiled to LLVM IR. It recognises calls to `send` and `recv` on mpsc and IPC channels, extracts the transmitted type from the channel struct's name, and pairs sends with receives whose types agree. From those pairs it draws a graph of namespaces. The repository also carries an annotated example taken from a browser engine: the path a window resize travels from the compositor, through the constellation, to the script threads and the render backend.

This project models both parts and proves properties of them:

| file | models |
|---|---|
| `browser.dfy` | the resize fan-out in `ohuac-examples/browser.rs`: `IOCompositor`, `Constellation`, `RenderBackend`, `Window`, `ScriptThread` as classes |
| `matching.dfy` | `analyzeNodes` of `matching.cpp` (pointer pairs, as index pairs) |
| `analyzer.dfy` | `analyzeNodes` of `analyzer.cpp` (pairs of node copies) |
| `properties.dfy` | `isSend`/`isRecv` with the closure check, the call-site overloads, `getSentType`/`getReceivedType` of `properties.cpp` |
| `scanner.dfy` | the plain `isSend`/`isRecv`, `getSentType`/`getReceivedType`, `getNamespace` and `scan_modules` of `scanner.cpp` |
| `channeltypes.dfy` | the type extraction shared by both `getSentType`/`getReceivedType` pairs, its round trips, and the anchored correction |
| `visualizer.dfy` | `buildMessageMap` and `getNodeName` of `visualizer.cpp` |
| `analysisguide.dfy` | `isIgnorable` of `analysisguide.cpp` |
| `strings.dfy`, `seqs.dfy`, `types.dfy`, `wrappers.dfy` | `std::string` operations, list helpers, `MessagingNode`, `Option` |

The model makes these modelling choices:

- A `std::forward_list` becomes a `seq`.
- `push_front` prepends to the sequence.
- `splice_after(before_begin)` concatenates at the front.
- When a loop builds a list this way, its method is proved equal to a reference function that gives the list in discovery order, reversed.
- `std::string::npos` is `None`.
- When `erase` is given the `npos` from a failed `rfind(">")`, it throws `std::out_of_range`. That result is `ChannelTypes.EraseOutOfRange`.
- The `nullptr` of `getSentType` is `ChannelTypes.NoChannel`.
- In `browser.rs`, an early `return` or `return warn!(..)` means "no output" (`None`).
- The browser's floating-point quantities are kept as symbolic terms: `dppx` is the pair (page zoom, hidpi factor), and the initial viewport is the pair (window size, dppx).

`analyzeNodes` in `matching.cpp` computes `send.type.length() - recv.type.length()` on `size_t` and stores it in a `long`. On the 64-bit targets the tool is built for, the wrapped value reads back as the signed difference. The model therefore compares the lengths directly.

## Model

| member | source | states |
|---|---|---|
| Browser.IOCompositor.SetWindowSize | ohuac-examples/browser.rs:142-166 | reads the compositor and never writes it; no output exactly when there is no root pipeline; otherwise the output carries the stored window rect and frame size, the root pipeline's top-level id, the requested size type, `dppx = page_zoom * hidpi`, and the viewport `window size / dppx` |
| Browser.IOCompositor.OnResizeWindowEvent | ohuac-examples/browser.rs:115-137 | the scale factor takes the host's hidpi factor, before the de-duplication check; if the host rect and framebuffer size equal the stored ones, nothing else changes and there is no output; otherwise `frame_size` becomes the `new_size` argument, `window_rect` becomes the host rect, and the output is `set_window_size(Resize)`; root pipeline and page zoom are untouched |
| Browser.PendingPipelines | ohuac-examples/browser.rs:343-355 | reference definition of the pending output: for each pending change in order, its pipeline if it is still open and belongs to the target context; characterised by `PendingMembership` and `PendingConcat` |
| Browser.InactivePipelines | ohuac-examples/browser.rs:366-368 | reference definition of `prev.chain(next).filter_map(..).filter_map(..)`: the entries with `Some` id whose pipeline still exists, resolved, in order; characterised by `InactiveMembership` and `InactiveConcat` |
| Browser.ResizeOutcome | ohuac-examples/browser.rs:357-374 | reference definition of the result of `resize_browsing_context`: `(None, None, pending)` without the context, no output when its active pipeline is closed, otherwise (active, inactive, pending); characterised by `ResizeAbortsIff` and `NoDanglingDispatch` |
| Browser.PendingMembership | ohuac-examples/browser.rs:343-355 | a pipeline is pending exactly when some pending change opened it, it is still in `pipelines`, and it belongs to the target context; closed ones are skipped |
| Browser.PendingConcat | ohuac-examples/browser.rs:346-354 | the pending list follows the order of `pending_changes` |
| Browser.InactiveMembership | ohuac-examples/browser.rs:366-368 | an inactive pipeline is exactly one named by a history entry that holds `Some` id and still resolves |
| Browser.InactiveConcat | ohuac-examples/browser.rs:366 | the `prev` entries come before the `next` entries, each in its own order |
| Browser.ResizeAbortsIff | ohuac-examples/browser.rs:357-374 | the call has no output exactly when the context exists and its active pipeline is closed; a missing context gives `(None, None, pending)` |
| Browser.NoDanglingDispatch | ohuac-examples/browser.rs:343-371 | every pipeline handed out is open, and every pending one belongs to the resized context |
| Browser.Constellation.ResizeBrowsingContext | ohuac-examples/browser.rs:334-375 | `size := Some(initial_viewport)` on the target context only if it exists; other contexts, `pipelines`, `pending_changes` and `window_size` are unchanged; the result is the active pipeline, the live history pipelines (`prev` then `next`) and the pending pipelines, computed on the tables before the call |
| Browser.Constellation.HandleWindowSizeMsg | ohuac-examples/browser.rs:320-331 | stores `new_size` as `window_size` and resizes the context whose id is unwrapped from the top-level id, with the same effects and result as above |
| Browser.RenderBackend.SetWindowParameters | ohuac-examples/browser.rs:414-417 | both fields take the arguments |
| Browser.Window.SetWindowSize | ohuac-examples/browser.rs:679-681 | overwrites the window-size cell only, so a repeated call changes nothing more |
| Browser.Window.SetResizeEvent | ohuac-examples/browser.rs:684-686 | overwrites the resize-event cell only; the last event wins |
| Browser.FirstLoadIndex | ohuac-examples/browser.rs:537 | the index of a load with that id with no earlier one, or none when no load has it |
| Browser.BufferOnFirstLoad | ohuac-examples/browser.rs:537-540 | reference definition of buffering: the first load of the id, if any, gets `window_size := Some(size)`; characterised by `BufferOnFirstLoadSpec` |
| Browser.BufferOnFirstLoadSpec | ohuac-examples/browser.rs:537-540 | buffering changes only the first load of the id, and only its window size; length and ids are kept |
| Browser.BufferLastWins | ohuac-examples/browser.rs:537-540 | buffering twice keeps the later size; buffering the same size twice equals once |
| Browser.SameIdsSameFirstLoad | ohuac-examples/browser.rs:537 | which load is first depends only on the pipeline ids |
| Browser.ScriptThread.HandleResize | ohuac-examples/browser.rs:531-543 | a live window gets the resize event and the loads are untouched; else only the first incomplete load with the id gets `window_size := Some(size)`; else nothing changes |
| Browser.ScriptThread.HandleResizeInactiveMsg | ohuac-examples/browser.rs:546-550 | requires the window to exist; sets only its window size |
| Matching.TypesMatch | matching.cpp:19-36 | the three-way length comparison as a predicate: equal lengths need equal strings, otherwise the longer must end with the shorter; characterised by `TypesMatchIsSuffix` |
| Matching.TypesMatchIsSuffix | matching.cpp:19-36 | two types match exactly when one string is a suffix of the other |
| Matching.TypesMatchSymmetric | matching.cpp:25-36 | the match relation is symmetric |
| Matching.EqualLengthMatchIsEquality | matching.cpp:19-24 | types of equal length match exactly when they are identical |
| Matching.EmptyTypeMatchesAll | matching.cpp:13-18 | the test ignores namespace boundaries: the empty type matches every type |
| Matching.CompareTypes | matching.cpp:19-36 | the three-way length comparison decides "one is a suffix of the other" |
| Matching.AnalyzeNodes | matching.cpp:5-40 | the nested loops return the matches in reverse discovery order (`MatchedPairs`) |
| Matching.AnalyzeNodesOfPair | matching.cpp:44-47 | the pair overload returns the matching of the pair's two lists |
| Matching.RowBoundaries | matching.cpp:8-9 | an inner loop starts with nothing added and, when complete, extends the outer loop's results by one row |
| Matching.MatchStep | matching.cpp:22-34 | one inner step prepends `(i, j)` exactly when the two types match |
| Matching.RowLength | matching.cpp:9 | one row holds at most one pair per receive |
| Matching.RowMembership | matching.cpp:9-36 | a row holds exactly the matching receives of its send |
| Matching.RowSorted | matching.cpp:9 | a row's pairs are discovered in ascending receive order |
| Matching.AscendingConcat | matching.cpp:8 | two ascending sequences, each element of the first below each of the second, join into an ascending one |
| Matching.DiscoveredLength | matching.cpp:8-9 | the first `n` sends give at most `n * |recvs|` pairs |
| Matching.DiscoveredMembership | matching.cpp:8-36 | the first `n` sends give exactly their matching combinations |
| Matching.DiscoveredSorted | matching.cpp:8-9 | discovery order is strictly ascending in (send, receive) |
| Matching.MatchedPairsMembership | matching.cpp:5-36 | `(i, j)` is in the result exactly when both indices are in range and the types match |
| Matching.MatchedPairsBound | matching.cpp:5-9 | at most `|sends| * |recvs|` pairs |
| Matching.MatchedPairsOrder | matching.cpp:22-34 | `push_front` makes the result strictly decreasing, i.e. reverse discovery order |
| Matching.MatchedPairsDistinct | matching.cpp:8-9 | no combination is reported twice |
| Analyzer.AnalyzeNodes | analyzer.cpp:5-39 | the by-value loops return `MatchedCopies`, the copied pairs in reverse discovery order |
| Analyzer.AnalyzeNodesOfPair | analyzer.cpp:43-47 | the pair overload delegates to the two-list version |
| Analyzer.PairRowBoundaries | analyzer.cpp:8-9 | an inner loop starts empty and, complete, adds one row of copies |
| Analyzer.PairStep | analyzer.cpp:14-32 | one inner step prepends the two node copies exactly when the types match |
| Analyzer.MirrorsConcat | analyzer.cpp:8-9 | mirrored sequences stay mirrored when concatenated |
| Analyzer.RowMirrors | analyzer.cpp:9-35 | a row of copies mirrors matching.cpp's row of index pairs |
| Analyzer.DiscoveredMirrorsStep | analyzer.cpp:8 | one more outer round keeps the two discovery orders mirrored |
| Analyzer.DiscoveredMirrors | analyzer.cpp:8-35 | the two discovery orders are mirrored for every prefix of the sends |
| Analyzer.MatchedCopiesMirrorMatching | analyzer.cpp:10-35 | position by position, the result holds copies of the nodes that matching.cpp's result points to; both make the same matches in the same order |
| Analyzer.MatchedCopiesComplete | analyzer.cpp:14-32 | every matching combination contributes its pair of copies |
| Analyzer.MatchedCopiesSound | analyzer.cpp:10-35 | every result pair is a send and a receive of the inputs whose types match |
| Properties.FirstOccurrenceDecides | properties.cpp:15-28 | the search loop of `isSend`/`isRecv`: the first name in list order that `find` locates decides, by whether `::` occurs after its first occurrence; false when none occurs; characterised by `FirstOccurrenceDecidesSpec` |
| Properties.IsSend | properties.cpp:11-29 | `isSend(std::string)`: the search loop over the two send names |
| Properties.IsRecv | properties.cpp:98-116 | `isRecv(std::string)`: the search loop over the four receive names, `try_recv` included |
| Properties.FirstOccurrenceDecidesSpec | properties.cpp:15-25 | the search accepts exactly when the first name, in list order, that occurs anywhere has no `::` in the text after its first occurrence |
| Properties.HeadFoundDecides | properties.cpp:16-24 | when the first name occurs, the verdict is the characterisation above |
| Properties.HeadFoundVerdict | properties.cpp:17-25 | once a name is found, it alone decides, and later names are not consulted |
| Properties.HeadFoundAccepts | properties.cpp:20-22 | a found name with no later `::` decides in favour |
| Properties.HeadFoundOnly | properties.cpp:16-17 | only the first found name, at its first occurrence, can decide |
| Properties.HeadMissingDefers | properties.cpp:15-17 | a name that does not occur passes the decision to the rest of the list |
| Properties.NoNameRejects | properties.cpp:11-28 | `isSend` is false when no name occurs anywhere |
| Properties.IsRecvDecided | properties.cpp:98-116 | `isRecv` follows the same rule over its four names, `try_recv` forms included |
| Properties.SendAtStart | properties.cpp:16-24 | a name starting with the mpsc send name is a send exactly when no `::` follows it |
| Properties.ClosureInsideSendRejected | properties.cpp:18-24 | a closure called inside a send is not a send |
| Properties.IsSendSite | properties.cpp:32-59 | false with no called function, an unnamed callee or a failed demangle; otherwise `isSend` of the demangled name |
| Properties.GetSentType | properties.cpp:74-89 | the in-place erasure yields the extraction over the sender prefixes |
| Properties.GetReceivedType | properties.cpp:131-143 | the in-place erasure yields the extraction over the receiver prefixes |
| Scanner.AnyOccurs | scanner.cpp:17-21 | true exactly when one of the names occurs as a substring; used by `isSend` and by `isRecv` (scanner.cpp:67-71) |
| Scanner.IsSend | scanner.cpp:13-22 | `isSend`: some send name occurs as a substring, with no closure check |
| Scanner.IsRecv | scanner.cpp:61-72 | `isRecv`: some of the four receive names occurs as a substring |
| Scanner.ContainsNeedlePrefix | scanner.cpp:18 | where a name occurs, each of its prefixes occurs |
| Scanner.SendNamesExtended | scanner.cpp:14-15 | properties.cpp's send names are these followed by `::` |
| Scanner.RecvNamesExtended | scanner.cpp:62-65 | properties.cpp's receive names are these followed by `::` |
| Scanner.ExtendedOccurrence | scanner.cpp:68 | where `name::` occurs, `name` occurs |
| Scanner.PropertiesSendIsScannerSend | scanner.cpp:13-22 | everything properties.cpp accepts as a send is accepted here |
| Scanner.PropertiesRecvIsScannerRecv | scanner.cpp:61-72 | everything properties.cpp accepts as a receive is accepted here |
| Scanner.ClosureInsideSendAccepted | scanner.cpp:17-19 | with no closure check, a closure inside a send is a send here, but not in properties.cpp |
| Scanner.GetSentType | scanner.cpp:37-52 | the same extraction over the sender prefixes |
| Scanner.GetReceivedType | scanner.cpp:87-99 | the same extraction over the receiver prefixes |
| Scanner.NamespaceOf | scanner.cpp:127-132 | reference definition of the namespace: the scope names from the outermost inward, joined with `::`, cut before the first `{{impl}}` after the outermost; characterised by `NamespaceStartsWithOutermost`, `NamespaceWithoutImpl` and `NamespaceIgnoresAfterImpl` |
| Scanner.JoinPathExtend | scanner.cpp:130 | appending one name adds `::` and that name |
| Scanner.ImplFrom | scanner.cpp:129 | the first later `{{impl}}` scope, or the end of the chain |
| Scanner.JoinPathStartsWithFirst | scanner.cpp:127 | the joined path starts with the first name |
| Scanner.JoinPathLength | scanner.cpp:127-132 | the joined path is the names plus one `::` between each two |
| Scanner.NamespaceStartsWithOutermost | scanner.cpp:127-128 | the outermost scope always starts the namespace |
| Scanner.NamespaceWithoutImpl | scanner.cpp:129-132 | without a later `{{impl}}`, every scope is joined |
| Scanner.NamespaceIgnoresAfterImpl | scanner.cpp:129 | the scopes from the first later `{{impl}}` inward do not matter |
| Scanner.GetNamespace | scanner.cpp:108-136 | pushing the chain and popping until `{{impl}}` gives the scopes joined with `::`, from the outermost inward, cut before the first later `{{impl}}` |
| Scanner.ScanModules | scanner.cpp:204-218 | the result is the modules' lists concatenated, last module first |
| Scanner.SplicedLength | scanner.cpp:211-215 | the combined counts add up |
| Scanner.SplicedBlock | scanner.cpp:213-214 | each module's list appears intact, in its own order, after the lists of all later modules |
| Scanner.LaterModulesFirst | scanner.cpp:211-214 | a later module's block ends before an earlier module's begins |
| ChannelTypes.StripWrapper | properties.cpp:82-84 | `erase(0, prefix.length())` and then `erase` from the last `>`: the out-of-range error when no `>` is left; characterised by `StripWrapperRoundTrip` and `StripKnownTail` |
| ChannelTypes.StripChannelType | properties.cpp:80-88 | reference definition of `getSentType`/`getReceivedType`: the first prefix in list order found anywhere in the name decides; `nullptr` when none is found; characterised by `NoChannelIffNoPrefix` and the round-trip lemmas |
| ChannelTypes.EraseChannelType | properties.cpp:80-88 | the loop that erases in place returns the first-prefix-found extraction |
| ChannelTypes.NoChannelIffNoPrefix | properties.cpp:88 | `nullptr` exactly when no prefix occurs anywhere in the name |
| ChannelTypes.StripWrapperRoundTrip | properties.cpp:82-83 | erasing the prefix length and from the last `>` on recovers `T` from `prefix + T + ">"` |
| ChannelTypes.FirstPrefixRoundTrip | properties.cpp:80-85 | the round trip through the first listed prefix holds for every `T` |
| ChannelTypes.MpscSenderRoundTrip | properties.cpp:75-85 | `getSentType("std::sync::mpsc::Sender<" + T + ">") == T` for every `T` |
| ChannelTypes.MpscReceiverRoundTrip | properties.cpp:132-139 | `getReceivedType("std::sync::mpsc::Receiver<" + T + ">") == T` for every `T` |
| ChannelTypes.OccurrenceInsidePayload | properties.cpp:81 | an mpsc prefix found in an IPC-wrapped name lies inside the payload |
| ChannelTypes.PrefixShapes | properties.cpp:75-76 | the shapes of the four prefix constants that the IPC round trips rely on |
| ChannelTypes.SecondPrefixRoundTrip | properties.cpp:80-85 | the round trip through the second prefix holds when the first occurs nowhere in the name |
| ChannelTypes.IpcSenderRoundTrip | properties.cpp:75-85 | the IPC sender round trip holds whenever `T` does not contain the mpsc sender prefix; the converse is `IpcSenderMisparsed` |
| ChannelTypes.IpcReceiverRoundTrip | properties.cpp:132-139 | the IPC receiver round trip holds whenever `T` does not contain the mpsc receiver prefix; the converse is `IpcReceiverMisparsed` |
| ChannelTypes.OccurrenceShifted | properties.cpp:81 | an occurrence inside the payload is an occurrence in the whole name |
| ChannelTypes.StripKnownTail | properties.cpp:82-83 | a name whose text after the erased characters is `w + ">"` yields `w` |
| ChannelTypes.WrongPrefixErased | properties.cpp:81-83 | when the payload contains a shorter prefix, that prefix is found and the tail of the outer prefix stays in front of the payload |
| ChannelTypes.IpcSenderMisparsed | properties.cpp:75-85 | for every `T` that contains the mpsc sender prefix, the IPC sender yields `"der<" + T`, not `T` |
| ChannelTypes.IpcReceiverMisparsed | properties.cpp:132-139 | for every `T` that contains the mpsc receiver prefix, the IPC receiver yields `"ver<" + T`, not `T` |
| ChannelTypes.IpcRoundTripIff | properties.cpp:80-85 | both IPC round trips hold exactly when `T` does not contain the matching mpsc prefix |
| ChannelTypes.NestedSenderMisparsed | properties.cpp:78-84 | as written, an IPC sender of an mpsc sender is cut at the inner prefix and does not give back its payload |
| ChannelTypes.StripAnchoredChannelType | properties.cpp:78-79 | the corrected extraction: a prefix counts only at the start of the name, as the comment says; characterised by `AnchoredRoundTrip` and `AnchoredNoChannelIffNoPrefix` |
| ChannelTypes.AnchoredRoundTrip | properties.cpp:78-79 | with prefixes tested at the start only, the round trip holds for every prefix that no earlier prefix starts |
| ChannelTypes.AnchoredSenderRoundTrip | scanner.cpp:41-47 | anchored, both sender round trips hold for every `T` |
| ChannelTypes.AnchoredReceiverRoundTrip | scanner.cpp:91-95 | anchored, both receiver round trips hold for every `T` |
| ChannelTypes.AnchoredNoChannelIffNoPrefix | scanner.cpp:51 | anchored, `nullptr` exactly when no prefix starts the name |
| Visualizer.BuildMessageMap | visualizer.cpp:3-15 | the keys are all sender and receiver namespaces; each key holds one `(receiver namespace, sent type)` edge per pair sent from it, latest first; empty input gives the empty map |
| Visualizer.AddPair | visualizer.cpp:6-11 | the sender's list gains the edge at its front; a receiver gets an empty list only if it has none; other entries are untouched |
| Visualizer.BuildStep | visualizer.cpp:5 | one loop round keeps the map equal to the edges of the pairs seen so far |
| Visualizer.EntryStep | visualizer.cpp:9 | one namespace's list after one round |
| Visualizer.NamespacesSnoc | visualizer.cpp:6-7 | one pair adds its two namespaces |
| Visualizer.EdgesFromSnoc | visualizer.cpp:9 | one pair adds an edge only to its sender |
| Visualizer.EdgesFromAbsent | visualizer.cpp:10-11 | a namespace that occurs nowhere has no edges |
| Visualizer.NamespacesMembership | visualizer.cpp:5-12 | a namespace is a key exactly when some pair sends or receives in it |
| Visualizer.EdgesFromMembership | visualizer.cpp:9 | an edge is listed exactly when some pair sent that type from that namespace to that receiver |
| Visualizer.EdgesFromCount | visualizer.cpp:9 | one edge per pair sent from the namespace |
| Visualizer.ReceiverOnlyHasNoEdges | visualizer.cpp:10-11 | a namespace that only receives has an empty list |
| Visualizer.Decimal | visualizer.cpp:28 | `std::to_string` yields decimal digits with no leading zero |
| Visualizer.DecimalRoundTrip | visualizer.cpp:28 | reading the digits back gives the number |
| Visualizer.DigitValue | visualizer.cpp:28 | each digit character stands for its value |
| Visualizer.GetNodeName | visualizer.cpp:24-30 | `"Node"` followed by the decimal hash of the name |
| Visualizer.NodeNamesDistinguishHashes | visualizer.cpp:27-28 | node names are equal exactly when the hashes are, so equal inputs give equal names |
| AnalysisGuide.HasIgnorablePrefix | analysisguide.cpp:21-23 | true exactly when one of the prefixes starts the name |
| AnalysisGuide.IsIgnorable | analysisguide.cpp:5-26 | false for an unnamed function or a failed demangle; otherwise true exactly when the demangled name begins with `core::`, `_$LT$core..`, `alloc::`, `_$LT$alloc..`, `std::` or `_$LT$std..` |
| AnalysisGuide.ShortNameNeverMatches | analysisguide.cpp:22 | a name shorter than a prefix never matches it |
| AnalysisGuide.MiddleOccurrenceDoesNotCount | analysisguide.cpp:22 | a standard-library path in the middle of a name does not count |
| AnalysisGuide.StdPathIsIgnorable | analysisguide.cpp:9-23 | any demangled `std::` path is ignorable |
| Strings.FindFrom | properties.cpp:16 | `find` from a position: the first occurrence at or after it, or `npos` |
| Strings.Find | properties.cpp:16 | `find`: found exactly when the needle occurs, at its first occurrence |
| Strings.RFind | properties.cpp:83 | `rfind('>')`: the last `>`, or `npos` |
| Strings.Substr | properties.cpp:20 | `substr(pos, n)`: at most `n` characters from `pos` |
| Strings.Erase | properties.cpp:82 | `erase(pos, n)`: at most `n` characters removed from `pos` |

## Left out

- `analysis.cpp` is not part of this model. It walks def-use chains and the control-flow graph of LLVM IR objects.
- `analyzeFunction` and `analyzeGuided` of `analysisguide.cpp` are left out: they prompt on stdin and traverse the LLVM CFG.
- `scan_module` of `scanner.cpp` is left out: it iterates over LLVM modules and dumps them. `Scanner.ScanModules` takes each module's result as input.
- `main.cpp` is not part of this model: it parses the command line and loads files.
- `visualize` of `visualizer.cpp` is left out: it writes a file, in `unordered_map` iteration order.
- `getNamespace` of `properties.cpp` is left out: it only reads debug-location or module names from LLVM objects.
- `itaniumDemangle` is a foreign call. It is the parameter `demangle`, which returns `None` for a non-zero status.
- `std::hash` is a foreign call. It is the parameter `hash` of `Visualizer.GetNodeName`.
- Visualizer.GetNodeName: does not model the 64-bit width of `size_t`, because the hash is an unconstrained parameter.
- The dangling pointer returned by `getSentType`/`getReceivedType` (from `c_str()` of a local) is modelled by value, as the extracted string.
- The pointers into local copies in the pair overload of `matching.cpp` are modelled by value, as indices.
- `getNamespace` of `scanner.cpp` takes the function's scope names as inputs, innermost first. The LLVM debug-info walk and the `std::cout` output are left out.
- `analyzer.cpp`'s `std::cout` tracing is left out.
- Browser: floating-point arithmetic is kept symbolic. This covers `page_zoom * hidpi_factor()`, the division of the window size by `dppx`, and the scale-factor comparison: a `Scale` is compared for equality only.
- Browser.IOCompositor.OnResizeWindowEvent: `update_zoom_transform` is left out, because its body is not in the source.
- Browser.IOCompositor.OnResizeWindowEvent: the host window's `hidpi_factor`, `window_rect` and `framebuffer_size` are inputs.
- Browser.IOCompositor.OnResizeWindowEvent: the compositor's own `hidpi_factor()`, used by `set_window_size`, is not in the source. It is taken to be the updated scale factor, and `SetWindowSize` takes it as a parameter.
- Browser.Constellation.HandleWindowSizeMsg: the source ends with `;` and so drops the result of `resize_browsing_context`. The model returns that result, as the declared return type intends.
- Browser.ScriptThread.HandleResizeInactiveMsg: the source panics through `expect` when the window is missing. The model requires the window to exist.
- Browser: channels, webrender, GL, timers, devtools and the unused struct fields are left out, as are `debug!`/`warn!` logging and the `event_loops` map, which no shown code uses.
- `ohuac-examples/types.rs` and the programs under `tests/` are left out. They declare an enum and exercise thread spawning and channel I/O.
- Strings are modelled as sequences of characters, but `std::string` counts bytes. The offsets in `erase(0, prefix.length())` and `substr` therefore agree with the model only for ASCII names. On the misparse path (properties.cpp:82, scanner.cpp:45) a name with multi-byte characters in front of the inner prefix is cut at a different place.
- Header files are left out. The model follows the `.cpp` definitions.
- The `MessageMap` typedef is not in the shown files. It is modelled as a map from namespace to a list of `(receiver namespace, sent type)` edges.
- Properties.GetSentType, Scanner.GetSentType: these model the code as written, with the prefix searched anywhere. The corrected extraction (`ChannelTypes.StripAnchoredChannelType`) is proved separately. No other modelled operation consumes the extracted type.

## Findings

| source | as written | input that shows it | evidently intended | confidence | as-written member | corrected member |
|---|---|---|---|---|---|---|
| properties.cpp:78-85 | the channel prefix is accepted wherever `find` locates it in the struct name, but `erase(0, prefix.length())` then removes the name's first characters; the same code is at scanner.cpp:41-47 | `ipc_channel::ipc::IpcSender<std::sync::mpsc::Sender<u8>>`: the mpsc prefix is found inside, 24 characters are erased from the front, and the result is four characters longer than the payload `std::sync::mpsc::Sender<u8>` | as the comment says, the string must start with the prefix, so every `prefix + T + ">"` gives back `T` | not executed | ChannelTypes.NestedSenderMisparsed | ChannelTypes.AnchoredSenderRoundTrip |
