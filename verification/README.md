# NovaMux in Dafny

NovaMux is a terminal multiplexer. Panes form a binary tree; every pane owns a PTY; a session can be driven
by a local application or be owned by a daemon, which one client at a time attaches to over a framed binary
protocol. This project models that logic and proves what it promises. `dafny verify dfyconfig.toml` checks all
of it.

Code that updates state in place is modelled by classes and methods, each proved against a specification
function; the laws are lemmas about those functions. A call into the operating system (spawn, resize, write,
terminate) is numbered, and an arbitrary function from numbers to outcomes decides which calls succeed, so every
statement holds whatever fails and whenever it fails.

| module | what it is |
|---|---|
| `Basics`, `Names`, `Utf8`, `Utf8Scalars` | bytes, integers with saturation, session names and their order, UTF-8 (RFC 3629, sections 3 and 4) and cutting text |
| `PaneTree`, `Layout`, `Sessions` | the tree with split, close and focus, its rectangles, and the session object |
| `Registry`, `Hosting` | the map of pane resources and its reconciliation; a session together with its PTYs |
| `Wire`, `Codec`, `CodecLaws`, `WireFormat` | the wire form and its readers, the encoder and decoder objects, the laws of both and of the framed stream, the format byte by byte |
| `Router` | the Ctrl-B byte transducer |
| `Service`, `HostedLaws`, `HostedSessions`, `Daemons` | attached requests, snapshots, the map of sessions and `dispatch`, as specification and as objects, and their effects on panes, cells, bytes and text |
| `Runs`, `Attachment`, `AttachmentLaws`, `AttachmentRuns` | connections as program counters over one locked map; what holds in every reachable state and over every run |
| `Isolation`, `SharedDaemon` | a client cannot tell the shared daemon from one of its own, so the simulation holds there too |
| `Frontends`, `InStep`, `Simulation`, `FrontendObjects` | the local application and the attached client, and that they do the same thing |
| `Keystrokes`, `LocalRuns`, `ClientRuns` | what typed keys do; local runs in which shells exit; what a client draws over any run |
| `Config`, `ConfigValues` | the fold over configuration lines, and what values mean |

Main results:

- **The codec is a bijection.** Encodable messages decode to themselves, and bytes that decode re-encode to
  themselves, for both directions; frames delimit themselves on a stream, however it is cut off.
- **The layout tiles.** Every cell belongs to exactly one pane, depths bound sizes from both sides, closing never
  shrinks a survivor, and splitting and closing are local.
- **Tree and registry agree** after every operation and in every reachable state of the daemon, whatever fails;
  reconciliation is atomic and conserves resources.
- **At most one connection owns a session**, over all interleavings of any number of connections, and the flag
  counts owners exactly. Every connection that enters the attached loop keeps its session to itself until a step
  clears the flag; a reservation is lost exactly if its confirmation could not be written.
- **What is typed arrives, and what is drawn is so.** Keys split, focus, close and write as documented, byte by byte
  and cell by cell; over any events a running client draws the session as the daemon has it.
- **A client is isolated.** Whatever other connections do, a client sees what its own requests alone would show it.
- **The front ends simulate each other** for every list of terminal events and every pattern of failing calls, as
  long as the panes fit a snapshot; the first split that leaves 33 panes cuts the client off. The daemon may be
  shared: other connections' steps in between change nothing.
- **The configuration is what its lines declare**, each setting looked up by its key.

## Where code and documentation differ

The model follows the code; lemmas say exactly when it does what is documented.

- `docs/SECURITY.md:67-68` says that an unexpected disconnect releases the client reservation. A connection that ends
  between its reservation and the writing of `Attached` never clears the flag
  (`crates/novamux/src/session_service.rs:239-241`), and the session cannot be attached again
  (`DisconnectCanLeakReservation`, `StuckForever`). A disconnect releases the reservation exactly if `Attached` had
  been written before (`DisconnectReleasesIff`), over every run a reservation is lost exactly if that write failed
  (`AbandonedIffUnconfirmed`, `StuckIff`), and every connection that gets past it ends in the release
  (`LoopEndsInRelease`).
- `docs/SECURITY.md:66` says that at most 32 panes are serialized. Splits are not limited; with more than 32 panes no
  snapshot encodes, the next one ends the attachment, and no later client can stay attached (`SnapshotEncodesIff`,
  `SnapshotKeepsHolderIff`, `TooManyPanesShutOut`).
- `crates/novamux-core/src/lib.rs:320` says that odd cells go to the first child. At extent 65535 the increment
  saturates and the odd cell goes to the second (`OddCellGoesSecond`, `OddCellGoesFirstIff`).
- `docs/SECURITY.md:103` and `docs/CONFIGURATION.md:23` say that a color is exactly `#RRGGBB`. A component may also
  begin with a plus sign (`PlusSignAccepted`, `ColorAcceptedIff`).
- `docs/SECURITY.md:101` speaks of eight keys; the parser and `docs/CONFIGURATION.md` have eleven
  (`AtMostElevenSettings`).

## Model

| member | source | states |
|---|---|---|
| Names.ParseName | crates/novamux-core/src/lib.rs:76-91 | a name parses exactly when it has 1 to 64 bytes, all ASCII letters, digits, hyphens or underscores, and parses to itself; otherwise the reason is the first that applies |
| Names.Sorted | crates/novamux/src/session_service.rs:394-397 | the keys of the session map as they are iterated: each once, in strictly ascending byte order |
| Names.BeforeIff | crates/novamux/src/session_service.rs:394-397 | that order is the dictionary order of the bytes: a strict prefix comes first, and otherwise the first differing byte decides |
| Utf8.TruncatedIsLongestSuffix | crates/novamux/src/session_service.rs:425-434 | cutting terminal text to a limit leaves the longest valid UTF-8 suffix within it, at most three bytes below the limit |
| Utf8.BoundedIsLongestPrefix | crates/novamux/src/session_service.rs:509-518 | bounding an error message leaves the longest valid UTF-8 prefix of at most 256 bytes, at most three bytes below that |
| Utf8.TruncateUtf8 | crates/novamux/src/session_service.rs:425-434 | the cutting loop ends on a char boundary of every valid text and yields that suffix |
| Utf8.BoundedMessage | crates/novamux/src/session_service.rs:509-518 | the bounding loop ends on a char boundary of every valid text and yields that prefix |
| Utf8Scalars.ValidIff | crates/novamux-core/src/protocol.rs:367-369 | the texts the decoder accepts are exactly the encodings of Unicode scalar values by section 3 of RFC 3629 |
| PaneTree.SplitLeaves | crates/novamux-core/src/lib.rs:340-361 | splitting reports success exactly if the leaf is there, then puts the new pane right after it in visual order, and otherwise leaves the tree alone |
| PaneTree.RemoveLeaves | crates/novamux-core/src/lib.rs:363-380 | removing a pane yields no tree exactly when nothing else is left, and otherwise keeps the order of all other panes |
| PaneTree.RemoveUndoesSplit | crates/novamux-core/src/lib.rs:340-380 | removing the pane a split added gives back the tree node for node |
| PaneTree.SplitEffect | crates/novamux-core/src/lib.rs:268-277 | a split keeps the session invariant, inserts its identifier right after the focused pane, focuses it and advances the next identifier by one |
| PaneTree.CloseEffect | crates/novamux-core/src/lib.rs:302-316 | a close keeps the invariant, takes exactly the focused pane out of the visual order and focuses position max(i-1, 0) of what is left |
| PaneTree.CloseLastPane | crates/novamux-core/src/lib.rs:302-306 | a close leaves a session as it is exactly when it has one pane |
| PaneTree.SplitThenClose | crates/novamux-core/src/lib.rs:268-316 | a close right after a split restores tree and focus; only the next identifier has advanced |
| PaneTree.FocusRotates | crates/novamux-core/src/lib.rs:285-292 | k focus steps move the focus k places round the visual order and change nothing else |
| PaneTree.FocusReturns | crates/novamux-core/src/lib.rs:285-292 | as many focus steps as there are panes restore the session |
| PaneTree.FocusMeetsEachOnce | crates/novamux-core/src/lib.rs:285-292 | each pane is focused after exactly one number of steps below the number of panes |
| PaneTree.Apply | crates/novamux-core/src/lib.rs:268-316 | every operation keeps the invariant: leaves distinct, positive and below the next identifier, the focus among them |
| PaneTree.ClosedPaneNeverReturns | crates/novamux-core/src/lib.rs:233-316 | over every run an identifier that was issued and is no longer in the tree never comes back |
| PaneTree.IdentifiersInOrder | crates/novamux-core/src/lib.rs:233-277 | a new session has pane 1, and over every run the splits are numbered from 2 on in order; the name never changes |
| Layout.OddCellGoesFirstIff | crates/novamux-core/src/lib.rs:397-428 | the first half of an odd extent gets the odd cell exactly when the extent is not 65535 |
| Layout.OddCellGoesSecond | crates/novamux-core/src/lib.rs:397-412 | a concrete area whose odd cell goes to the second child, contrary to the documentation of layout |
| Layout.LayoutOrder | crates/novamux-core/src/lib.rs:323-395 | rectangles come in the order of the panes |
| Layout.LayoutTiles | crates/novamux-core/src/lib.rs:382-428 | every cell of an in-range area lies in exactly one rectangle, every other cell in none, and the sizes add up to the area |
| Layout.PaneAtCell | crates/novamux-core/src/lib.rs:382-428 | every cell of the area belongs to one pane and to no other |
| Layout.PanesStayInside | crates/novamux-core/src/lib.rs:382-428 | no pane leaves the area |
| Layout.LayoutBalanced | crates/novamux-core/src/lib.rs:382-428 | a pane under h horizontal and v vertical splits is between floor and ceiling of width / 2^h wide and of height / 2^v high, the saturating extent 65535 included |
| Layout.EqualDepthNearlyEqual | crates/novamux-core/src/lib.rs:382-428 | panes of equal depth differ by at most one cell either way |
| Layout.LayoutIsRectOf | crates/novamux-core/src/lib.rs:382-395 | the listed rectangle of a pane is the one found by descending to it |
| Layout.LargerAreaLargerPanes | crates/novamux-core/src/lib.rs:382-428 | a larger area makes no pane smaller |
| Layout.SplitIsLocal | crates/novamux-core/src/lib.rs:268-277 | a split changes only the focused pane's rectangle, which the two panes then divide between them |
| Layout.SplitDividesRoom | crates/novamux-core/src/lib.rs:268-277 | splitting a session puts the new pane beside the focused one if the split is horizontal and below it if it is vertical, as evenly as cells allow, and moves no other pane |
| Layout.RemoveIsLocal | crates/novamux-core/src/lib.rs:302-316 | removing a pane moves only the panes of its sibling subtree, which spread over the room they shared with it |
| Layout.CloseKeepsRoom | crates/novamux-core/src/lib.rs:302-316 | after a close every remaining pane is at least as wide and as high as before |
| Sessions.CollectPanes | crates/novamux-core/src/lib.rs:330-338 | the traversal appends exactly the leaves in visual order |
| Sessions.LayoutNode | crates/novamux-core/src/lib.rs:382-395 | the traversal appends exactly the layout of the node |
| Sessions.Session.constructor | crates/novamux-core/src/lib.rs:233-241 | a new session has pane 1 focused and 2 as its next identifier |
| Sessions.Session.Panes | crates/novamux-core/src/lib.rs:257-261 | the panes of a session in visual order |
| Sessions.Session.SplitFocused | crates/novamux-core/src/lib.rs:268-277 | the object's whole new state after a split, and the identifier it returns |
| Sessions.Session.FocusNext | crates/novamux-core/src/lib.rs:285-292 | the object's whole new state after a focus step |
| Sessions.Session.FocusUntil | crates/novamux/src/tui.rs:425-429 | the loop that focuses an exited pane terminates for every pane of the tree and changes only the focus |
| Sessions.Session.CloseFocused | crates/novamux-core/src/lib.rs:302-316 | the object's whole new state after a close, which is refused exactly for a single pane |
| Sessions.Session.LayoutIn | crates/novamux-core/src/lib.rs:323-327 | the layout of the tree within an area |
| Registry.CreatedFails | crates/novamux-core/src/lib.rs:194-216 | a failed creation stops at the first call that fails, reports its error and asks for no pane after it |
| Registry.ReconcileMatchesTree | crates/novamux-core/src/lib.rs:194-227 | a successful reconciliation leaves resources for exactly the tree's panes; a pane that had one keeps it |
| Registry.ReconcileCreatesMissing | crates/novamux-core/src/lib.rs:202-215 | creation is asked for each missing pane once, in ascending order, and each gets what was created for it |
| Registry.ReconcileReturnsRemoved | crates/novamux-core/src/lib.rs:216-226 | what is returned is exactly the resources of panes outside the tree, in ascending order: none is lost and none both kept and returned |
| Registry.ReconcileIsAtomic | crates/novamux-core/src/lib.rs:184-227 | reconciliation fails exactly when some creation fails, and then leaves the registry unchanged |
| Registry.CreateMissing | crates/novamux-core/src/lib.rs:205-214 | the creation loop makes the listed calls and returns their resources or the first error |
| Registry.PaneRegistry.RemoveUnwanted | crates/novamux-core/src/lib.rs:216-224 | takes out exactly the resources of the panes outside the tree, in ascending order |
| Registry.PaneRegistry.Extend | crates/novamux-core/src/lib.rs:225-226 | adds the created resources to the map |
| Registry.PaneRegistry.Reconcile | crates/novamux-core/src/lib.rs:194-227 | the registry object's whole new state, its result and the calls it makes, whether it succeeds or fails |
| Wire.BeBytesInverse | crates/novamux-core/src/protocol.rs:490-504 | a big-endian integer is read back from its bytes |
| Wire.BeValueInverse | crates/novamux-core/src/protocol.rs:490-504 | bytes are the big-endian form of the integer read from them |
| Wire.CountedRead | crates/novamux-core/src/protocol.rs:337-381 | a counted list of entries is read back whatever the entries are, given that each entry is |
| Wire.ReadCountedCanonical | crates/novamux-core/src/protocol.rs:337-381 | a counted list that is read was the encoding of what was read, given that each entry was |
| Wire.UnframeFramed | crates/novamux-core/src/protocol.rs:398-441 | unframing a frame gives back its kind and payload |
| Wire.FramedUnframe | crates/novamux-core/src/protocol.rs:398-441 | what unframes is exactly the frame of its kind and payload |
| CodecLaws.RequestEncodable | crates/novamux-core/src/protocol.rs:187-232 | every request encodes except input of more than 4096 bytes, which is an invalid length |
| CodecLaws.RequestRoundTrip | crates/novamux-core/src/protocol.rs:193-258 | every encodable request decodes back to itself |
| CodecLaws.RequestCanonical | crates/novamux-core/src/protocol.rs:193-258 | every byte string that decodes as a request re-encodes to exactly the same bytes |
| CodecLaws.ResponseEncodable | crates/novamux-core/src/protocol.rs:266-321 | a response encodes exactly if it has at most 64 sessions, at most 32 panes within an 8192-byte frame, or a message of at most 256 bytes |
| CodecLaws.ResponseRoundTrip | crates/novamux-core/src/protocol.rs:266-396 | every encodable response decodes back to itself |
| CodecLaws.ResponseCanonical | crates/novamux-core/src/protocol.rs:266-396 | every byte string that decodes as a response re-encodes to exactly the same bytes |
| CodecLaws.RequestIsNoResponse | crates/novamux-core/src/protocol.rs:328-396 | bytes that decode as a request are an unknown message type to the response decoder |
| CodecLaws.ResponseIsNoRequest | crates/novamux-core/src/protocol.rs:239-258 | bytes that decode as a response are an unknown message type to the request decoder |
| CodecLaws.PrefixIsTruncated | crates/novamux-core/src/protocol.rs:415-441 | every strict prefix of a frame decodes to Truncated, in both directions |
| CodecLaws.ExtensionIsTrailing | crates/novamux-core/src/protocol.rs:415-441 | every proper extension of a frame decodes to TrailingBytes, in both directions |
| CodecLaws.NextFrame | crates/novamux/src/session_service.rs:376-392 | reading a frame splits the stream into the frame and what follows it |
| CodecLaws.ReadFrameIsWhole | crates/novamux/src/session_service.rs:376-392 | a frame that was read never fails to unframe as truncated, trailing or too large |
| CodecLaws.StreamIsSelfDelimiting | crates/novamux/src/session_service.rs:376-392 | any list of frames sent one after the other is read back as that list |
| CodecLaws.FramesJoinBack | crates/novamux/src/session_service.rs:376-392 | the frames a stream is read as join back to that stream |
| CodecLaws.RequestsArrive | crates/novamux/src/session_service.rs:363-392 | a connection receives exactly the requests its peer sent, in order, even if the stream is then cut |
| WireFormat.MostSignificantFirst | crates/novamux-core/src/protocol.rs:490-504 | integers have their most significant byte first |
| WireFormat.UnframesIff | crates/novamux-core/src/protocol.rs:415-441 | exactly `NVMX`, version 1, a number, the length and so many bytes, at most 8192 in all, unframe to that number and payload |
| WireFormat.UnframeFails | crates/novamux-core/src/protocol.rs:415-441 | each error of unframing and exactly when it is reported; the declared length is judged before the payload has arrived |
| WireFormat.RequestOnTheWire | crates/novamux-core/src/protocol.rs:193-232 | every encoded request is a frame with the request's number from 1 to 9 and the bytes of its fields |
| WireFormat.ResponseOnTheWire | crates/novamux-core/src/protocol.rs:266-321 | every encoded response is a frame with the response's number and the bytes of its fields |
| WireFormat.PaneOnTheWire | crates/novamux-core/src/protocol.rs:301-308 | the offset of each field of a pane: identifier, rectangle, focus mark, text length and text |
| WireFormat.RectOnTheWire | crates/novamux-core/src/protocol.rs:303-305 | the rectangle is column, row, width and height in that order |
| WireFormat.SessionOnTheWire | crates/novamux-core/src/protocol.rs:278-281 | a listed session is its name and then its number of clients |
| WireFormat.EntriesInOrder | crates/novamux-core/src/protocol.rs:278-308 | entries of a list follow each other in the order of the list |
| Codec.PutName | crates/novamux-core/src/protocol.rs:443-448 | appends the length-prefixed name |
| Codec.PutBytes | crates/novamux-core/src/protocol.rs:450-455 | appends the length-prefixed bytes, or refuses a length beyond 16 bits |
| Codec.Frame | crates/novamux-core/src/protocol.rs:398-413 | builds the frame of a kind and payload, or refuses one beyond 8192 bytes |
| Codec.EncodeRequest | crates/novamux-core/src/protocol.rs:193-232 | the encoder produces exactly the specified frame or error for every request |
| Codec.PutSessions | crates/novamux-core/src/protocol.rs:270-282 | the loop over sessions appends their fields in order |
| Codec.PutPanes | crates/novamux-core/src/protocol.rs:296-310 | the loop over panes appends their fields in order |
| Codec.EncodeResponse | crates/novamux-core/src/protocol.rs:266-321 | the encoder produces exactly the specified frame or error for every response |
| Codec.Cursor.Byte | crates/novamux-core/src/protocol.rs:467-471 | reads one byte and advances past it, or reports truncation |
| Codec.Cursor.Take | crates/novamux-core/src/protocol.rs:506-517 | takes the next bytes and advances past them, or reports truncation |
| Codec.Cursor.U16 | crates/novamux-core/src/protocol.rs:490-496 | reads a big-endian 16-bit integer as specified |
| Codec.Cursor.U64 | crates/novamux-core/src/protocol.rs:498-504 | reads a big-endian 64-bit integer as specified |
| Codec.Cursor.TakeBytes | crates/novamux-core/src/protocol.rs:473-479 | reads length-prefixed bytes within a maximum as specified |
| Codec.Cursor.Name | crates/novamux-core/src/protocol.rs:481-488 | reads a session name as specified, refusing bytes that are no text or no name |
| Codec.Cursor.SessionList | crates/novamux-core/src/protocol.rs:337-349 | the loop over a counted list of sessions returns exactly what the specification reads, or its error |
| Codec.Cursor.PaneList | crates/novamux-core/src/protocol.rs:353-381 | the loop over a counted list of panes returns exactly what the specification reads, or its error |
| Codec.DecodeRequest | crates/novamux-core/src/protocol.rs:239-258 | the decoder produces exactly the specified request or error for every byte string |
| Codec.DecodeResponse | crates/novamux-core/src/protocol.rs:328-396 | the decoder produces exactly the specified response or error for every byte string |
| Codec.Reader.ReadFrame | crates/novamux/src/session_service.rs:376-392 | reads one frame off the stream, or fails at its end or on a declared length beyond the limit |
| Router.KeysAreCommands | crates/novamux-core/src/input.rs:60-72 | commands and their keys correspond one to one |
| Router.RoutingIsLossless | crates/novamux-core/src/input.rs:55-76 | on every stream the actions and the held prefix spell the input out again |
| Router.RoutingIsInjective | crates/novamux-core/src/input.rs:55-76 | different inputs are never routed alike |
| Router.RoutingConservesBytes | crates/novamux-core/src/input.rs:55-76 | every byte is forwarded, part of a command, half of a doubled prefix, or still held |
| Router.RoutingComposes | crates/novamux-core/src/input.rs:55-76 | how the input is cut into batches does not matter |
| Router.EscapedIsForwarded | crates/novamux-core/src/input.rs:55-76 | any byte string with its prefix bytes doubled is forwarded as it was, with no command and nothing held |
| Router.InputRouter.Route | crates/novamux-core/src/input.rs:55-76 | the router object's new state and action for one byte |
| Router.InputRouter.Finish | crates/novamux-core/src/input.rs:82-87 | a pending prefix is flushed once |
| Hosting.ReconcileOneNew | crates/novamux-core/src/lib.rs:194-227 | reconciling a tree with one new pane spawns once and adds exactly that PTY, or changes nothing if the spawn fails |
| Hosting.ReconcileOneGone | crates/novamux-core/src/lib.rs:194-227 | reconciling a tree with one pane less spawns nothing and hands back exactly that pane's PTY |
| Hosting.ResizeKeepsPtys | crates/novamux/src/session_service.rs:57-70 | a resize, complete or not, changes nothing about PTYs but sizes |
| Hosting.ResizeSetsSizes | crates/novamux/src/session_service.rs:57-70 | a resize that succeeds gives each pane of the layout its content size and leaves other PTYs alone |
| Hosting.ResizeHostSucceedsIff | crates/novamux/src/session_service.rs:57-70 | a resize succeeds exactly if its call for every pane does |
| Hosting.ResizeLeavesBorder | crates/novamux/src/tui.rs:636-641 | after a resize that succeeds a PTY has two columns and two rows less than its pane, and at least two of each |
| Hosting.OpenHostValid | crates/novamux/src/session_service.rs:35-47 | creation succeeds exactly if the first spawn does, with one pane and one PTY |
| Hosting.SplitHostEffect | crates/novamux/src/session_service.rs:111-124 | a split commits the new tree exactly when its spawn succeeds; a split that gets no PTY leaves tree and registry unchanged |
| Hosting.SplitHostDividesRoom | crates/novamux/src/session_service.rs:111-122 | a split that gets its PTY divides the focused pane's room in the direction asked for |
| Hosting.SplitSucceedsIff | crates/novamux/src/session_service.rs:111-122 | a split succeeds exactly if an identifier is left, its spawn succeeds and so does the resize of every pane |
| Hosting.SplitLeavesBorder | crates/novamux/src/session_service.rs:111-122 | after a split that succeeds every PTY, the new one included, has the size of its pane without the border |
| Hosting.CloseHostSteps | crates/novamux/src/session_service.rs:126-136 | a close spawns nothing, drops exactly the focused pane's PTY and terminates that one; it fails exactly if the termination does |
| Hosting.WriteEffect | crates/novamux/src/session_service.rs:267-273 | a write that succeeds appends its bytes to the focused pane's input, one that fails nothing; nothing else changes |
| Hosting.FocusHostEffect | crates/novamux/src/session_service.rs:124 | focusing moves to the next pane in visual order, or from the last to the first, and changes nothing else |
| Hosting.SplitHostValid | crates/novamux/src/session_service.rs:111-124 | tree and registry agree after a split, whatever fails, and there is at most one pane more |
| Hosting.CloseHostValid | crates/novamux/src/session_service.rs:126-136 | tree and registry agree after a close, whatever fails |
| Hosting.ReconcilePanes | crates/novamux/src/session_service.rs:38-40 | reconciliation of the registry object, with the spawns it makes |
| Hosting.ResizePanes | crates/novamux/src/tui.rs:475-482 | the loop over the layout resizes PTYs as specified and stops at the first failure |
| Hosting.TerminateAll | crates/novamux/src/tui.rs:466-471 | the loop over removed PTYs stops at the first failure |
| Hosting.Grow | crates/novamux/src/tui.rs:453-459 | splitting a copy and reconciling it: with no PTY nothing changes, with one the copy is ready to replace the session |
| Hosting.Shrink | crates/novamux/src/tui.rs:462-473 | closing the focused pane of the objects is the specified close |
| Hosting.WriteFocused | crates/novamux/src/tui.rs:401-405 | writing to the focused pane appends to that PTY's input only |
| Service.ServiceError | crates/novamux/src/session_service.rs:502-518 | an error response always encodes, however long its message |
| Service.CommandKeeps | crates/novamux/src/session_service.rs:109-140 | a numbered command, known or not, keeps tree and registry in agreement, whatever fails |
| Service.HandleKeeps | crates/novamux/src/session_service.rs:257-293 | every attached request keeps tree and registry in agreement, loses no input, and leaves name and flag alone, whatever fails |
| Service.HandleKeepsOwnSpawns | crates/novamux/src/session_service.rs:257-293 | every attached request keeps PTYs of different panes from different spawns, whatever fails |
| HostedLaws.CreatedIs | crates/novamux/src/session_service.rs:35-47 | a new session has one unwritten PTY of 24 rows and 80 columns, that viewport, and nobody attached |
| HostedLaws.SplitCommandDivides | crates/novamux/src/session_service.rs:111-122 | command 1 puts the new pane beside the focused one, command 2 below it |
| HostedLaws.FocusCommandEffect | crates/novamux/src/session_service.rs:124 | command 3 focuses the next pane and does nothing else |
| HostedLaws.CloseCommandEffect | crates/novamux/src/session_service.rs:125-136 | command 4 takes the focused pane and its PTY away unless it is the last, and fails exactly if the termination does |
| HostedLaws.UnknownCommand | crates/novamux/src/session_service.rs:137 | any other number is refused and changes nothing |
| HostedLaws.InputArrives | crates/novamux/src/session_service.rs:267-275 | attached input reaches exactly the focused pane, whole and in order, if its write succeeds |
| HostedLaws.ResizeFits | crates/novamux/src/session_service.rs:57-79 | a resize takes over the window, of at least 2 by 2 cells, and fits every PTY into its pane above the status row |
| HostedLaws.SnapshotShows | crates/novamux/src/session_service.rs:81-107 | a snapshot has every pane once in visual order with its rectangle, its focus mark and the longest valid end of its terminal's text within 6500 bytes shared evenly |
| HostedLaws.ScreenCell | crates/novamux/src/session_service.rs:72-107 | on such a screen every cell above the status row belongs to one view and to no other |
| HostedLaws.StatusRowIsFree | crates/novamux/src/session_service.rs:72-79 | the status row belongs to no view |
| HostedLaws.ScreenAnswers | crates/novamux/src/session_service.rs:265-283 | a request that fails ends the connection; one that succeeds is answered with the screen of the new state |
| HostedLaws.OtherAnswers | crates/novamux/src/session_service.rs:284-292 | a detach under the session's own name is confirmed, any other request refused as a conflict, and neither changes anything |
| Service.SnapshotEncodesIff | crates/novamux/src/session_service.rs:81-107 | a snapshot encodes exactly when there are at most 32 panes, whatever the terminals show |
| Service.SnapshotArrives | crates/novamux/src/session_service.rs:81-107 | the client decodes the panes in visual order, each with its rectangle, exactly one of them marked focused |
| Service.CreateKeeps | crates/novamux/src/session_service.rs:398-413 | creating keeps the map valid and every session in it unchanged, and answers Created exactly if the session is new in the map |
| Service.DispatchKeeps | crates/novamux/src/session_service.rs:394-423 | no request loses or replaces a session; there are never more than 64, each filed under its own name |
| Service.DispatchAnswers | crates/novamux/src/session_service.rs:394-423 | every response of dispatch encodes within 8192 bytes and decodes to itself |
| HostedLaws.DispatchOutcome | crates/novamux/src/session_service.rs:394-423 | which answer each request gets and exactly when: the nonce sent back, created, already there, limit reached, spawn failed, or not outside an attachment |
| HostedLaws.ListingStates | crates/novamux/src/session_service.rs:49-55 | a listing states one client for a session exactly if its flag is set |
| Service.ListingIsComplete | crates/novamux/src/session_service.rs:397 | a listing names every session once, in strictly ascending order, with one client or none |
| HostedSessions.HostedSession.Create | crates/novamux/src/session_service.rs:35-47 | creates the session object exactly if its first PTY is spawned |
| HostedSessions.HostedSession.Resize | crates/novamux/src/session_service.rs:57-70 | the object's whole new state after a resize, complete or not |
| HostedSessions.HostedSession.Snapshot | crates/novamux/src/session_service.rs:81-107 | the loop over the layout builds the specified snapshot |
| HostedSessions.HostedSession.RunCommand | crates/novamux/src/session_service.rs:109-140 | the object's whole new state and outcome for every command number |
| HostedSessions.HostedSession.Handle | crates/novamux/src/session_service.rs:257-293 | the object's whole new state and the reply for every attached request |
| Daemons.Daemon.Dispatch | crates/novamux/src/session_service.rs:394-423 | the session map and the response for every request, and no two sessions share an object |
| Daemons.Daemon.Listed | crates/novamux/src/session_service.rs:397 | the loop over the map in key order builds the specified listing |
| Daemons.Daemon.CreateSession | crates/novamux/src/session_service.rs:398-413 | the map and the response for a request to create |
| Daemons.Daemon.Reserve | crates/novamux/src/session_service.rs:219-239 | the reservation of a session under the lock, or the refusal |
| Daemons.Daemon.Release | crates/novamux/src/session_service.rs:243-247 | the flag of exactly the released session is cleared |
| Daemons.Daemon.Turn | crates/novamux/src/session_service.rs:259-293 | one attached request changes exactly the holder's session |
| Attachment.StepKeepsInv | crates/novamux/src/session_service.rs:208-295 | every step of every connection keeps the map valid and each flag in step with exactly one owner |
| Attachment.HeldSessionExists | crates/novamux/src/session_service.rs:262-264 | a connection in the attached loop never finds its session gone |
| AttachmentLaws.FlagCountsOwners | crates/novamux/src/session_service.rs:208-249 | in every reachable state the owners of a session number one if its flag is set and none if not, over all interleavings |
| AttachmentLaws.AttachGrantedIff | crates/novamux/src/session_service.rs:219-239 | an attach is granted exactly when the session exists and no connection owns it |
| AttachmentRuns.RefusedBecause | crates/novamux/src/session_service.rs:224-238 | an attach is refused as not found if there is no such session, as a conflict if a connection owns it, and otherwise not |
| AttachmentRuns.ConnectionStarts | crates/novamux/src/session_service.rs:208-212 | a new connection waits for a request and is over if none comes |
| AttachmentRuns.ServedOnce | crates/novamux/src/session_service.rs:213-240 | a connection is served one request, unless that is an attach that is granted |
| AttachmentRuns.ConfirmedHolds | crates/novamux/src/session_service.rs:241-242 | a reserved connection whose confirmation is written enters the attached loop |
| AttachmentRuns.HolderStaysIff | crates/novamux/src/session_service.rs:257-294 | a holder stays in the attached loop exactly if its request is no detach, every call it needs succeeds, at most 32 panes are to be shown and the answer is written |
| AttachmentRuns.DetachFrees | crates/novamux/src/session_service.rs:243-287 | a detach frees the session, whether or not its confirmation is written |
| AttachmentRuns.ListingCountsOwners | crates/novamux/src/session_service.rs:49-55 | in every reachable state a listing states for each session how many connections own it |
| AttachmentLaws.OnlyTheHolderChangesPanes | crates/novamux/src/session_service.rs:208-295 | no step of a connection that does not hold a session changes its panes, PTYs or viewport |
| AttachmentLaws.SessionsPersist | crates/novamux/src/session_service.rs:208-295 | over any run no session is lost or renamed, no pane identifier is used again, and no PTY loses input |
| AttachmentLaws.RegistryAlwaysAgrees | crates/novamux/src/session_service.rs:208-295 | in every reachable state a session's registry has exactly the panes of its tree |
| AttachmentRuns.SpawnsNeverShared | crates/novamux/src/session_service.rs:208-295 | in every reachable state the panes of a session have PTYs from different spawns that were made for it |
| Isolation.HolderIsIsolated | crates/novamux/src/session_service.rs:241-295 | as long as a client is in the attached loop, its phase and its whole session are what its own steps alone would have made of them, whatever other connections do |
| AttachmentLaws.SnapshotKeepsHolderIff | crates/novamux/src/session_service.rs:265-293 | a snapshot request keeps its holder attached exactly when the answer is written and there are at most 32 panes |
| AttachmentRuns.LoopEndsInRelease | crates/novamux/src/session_service.rs:242-248 | over every run, its own steps included, a connection in the attached loop is the only owner of its session until a step of the run clears the flag, after which the session exists and nobody owns it |
| AttachmentRuns.DisconnectReleasesIff | crates/novamux/src/session_service.rs:239-248 | a client that disconnects gives its session back exactly if `Attached` had been written before |
| AttachmentRuns.AbandonedIffUnconfirmed | crates/novamux/src/session_service.rs:239-241 | over every run a reservation is lost exactly if some step failed to write its confirmation |
| AttachmentLaws.ReleaseFrees | crates/novamux/src/session_service.rs:243-247 | the release leaves the session without flag and without owner |
| AttachmentLaws.StuckIff | crates/novamux/src/session_service.rs:239-249 | a flag that nobody is left to clear belongs exactly to a connection whose confirmation could not be written |
| AttachmentLaws.StuckForever | crates/novamux/src/session_service.rs:239-241 | such a flag stays set over every run, and nobody else ever owns the session |
| AttachmentLaws.DisconnectCanLeakReservation | crates/novamux/src/session_service.rs:239-241 | a disconnect before the confirmation is written leaves the reservation behind, contrary to the security documentation |
| AttachmentLaws.CreateAddsFreeSession | crates/novamux/src/session_service.rs:398-413 | while there is room, a new name whose PTY can be spawned gives a session that nobody owns |
| Frontends.ExchangeIsHandle | crates/novamux/src/session_service.rs:469-472 | an exchange through encoder, stream and decoder is the daemon's handling of that request |
| Frontends.LocalByte | crates/novamux/src/tui.rs:391-410 | every key byte keeps the local application's tree and registry in agreement |
| Keystrokes.KeyDelivers | crates/novamux/src/tui.rs:391-397 | for a key that is no command, exactly the bytes the router forwards reach the focused pane, in order, and nothing else changes |
| Keystrokes.EscapedKeyDelivers | crates/novamux/src/tui.rs:391-397 | any bytes typed with each Ctrl-B doubled reach the focused pane as they are |
| Keystrokes.BytesCompose | crates/novamux/src/tui.rs:391-405 | the bytes of a key act one after the other until the application has ended |
| Keystrokes.PercentSplits | crates/novamux/src/tui.rs:437-460 | Ctrl-B % puts a new pane beside the focused one, and fails exactly if a call does |
| Keystrokes.QuoteSplits | crates/novamux/src/tui.rs:437-460 | Ctrl-B " puts a new pane below the focused one, and fails exactly if a call does |
| Keystrokes.OFocuses | crates/novamux/src/tui.rs:445 | Ctrl-B o focuses the next pane in visual order, or the first after the last |
| Keystrokes.XCloses | crates/novamux/src/tui.rs:446-473 | Ctrl-B x takes the focused pane and its PTY away unless it is the last, and fails exactly if the termination does |
| Keystrokes.OtherCommandsTyped | crates/novamux/src/tui.rs:447-449 | Ctrl-B d and Ctrl-B q stop the application and Ctrl-B [ starts copy mode, without any other effect |
| Keystrokes.CopyModeShields | crates/novamux/src/tui.rs:387-390 | in copy mode no key reaches a pane, the router or a command |
| Keystrokes.EventsAreBytes | crates/novamux/src/tui.rs:382-415 | outside copy mode a key is its bytes, and without an event nothing happens |
| Keystrokes.WindowEffect | crates/novamux/src/tui.rs:407-410 | a new window size is taken over exactly if every PTY can be resized, and changes no pane, focus or input |
| Keystrokes.WindowFits | crates/novamux/src/tui.rs:475-490 | after it every PTY fits its pane above the status row of the new window |
| Keystrokes.StartEffect | crates/novamux/src/tui.rs:346-365 | the application starts with one focused, unwritten pane fitted to the window, exactly if a spawn and a resize succeed |
| Frontends.FirstExited | crates/novamux/src/tui.rs:418-424 | the pane that is reaped is the first exited one in visual order, if there is any |
| Frontends.LocalTurn | crates/novamux/src/tui.rs:367-435 | one turn of the event loop, reaping included, keeps tree and registry in agreement |
| LocalRuns.ReapEffect | crates/novamux/src/tui.rs:418-433 | reaping takes exactly the first exited pane out of the tree, and never the last pane |
| LocalRuns.TurnReaps | crates/novamux/src/tui.rs:367-433 | a turn closes the first pane in visual order whose shell has exited, and terminates its PTY, unless a key in copy mode ended it or one pane is left |
| LocalRuns.TurnIsEvent | crates/novamux/src/tui.rs:367-433 | otherwise a turn is its event |
| LocalRuns.TurnsFollow | crates/novamux/src/tui.rs:367-435 | over any turns, whatever is typed, fails or exits, no closed pane comes back, every remaining pane keeps its PTY and input, and no two panes share a spawn |
| LocalRuns.TurnsAreEvents | crates/novamux/src/tui.rs:367-435 | as long as no shell exits, a run of turns is the run of their events |
| Frontends.RemoteByte | crates/novamux/src/tui.rs:113-133 | every key byte keeps the hosted session's tree and registry in agreement |
| ClientRuns.ExchangeOutcome | crates/novamux/src/session_service.rs:469-472 | an exchange brings the screen of the session as it now is, or ends the client, and exactly when |
| ClientRuns.ClientDrawsSession | crates/novamux/src/tui.rs:68-145 | over any events, what a running client draws is what the daemon's session is, with the texts of its latest exchange |
| ClientRuns.EventSends | crates/novamux/src/tui.rs:107-145 | a client with nothing to do asks for a new screen, a new window is reported, and copy mode sends nothing |
| InStep.ResizeHostInStep | crates/novamux/src/session_service.rs:57-70 | hosts that differ only in PTY sizes still do after a resize, and not even in those when the area is the same |
| InStep.SplitHostInStep | crates/novamux/src/session_service.rs:111-124 | hosts that differ only in name and PTY sizes still do after a split, whatever fails |
| InStep.CloseHostInStep | crates/novamux/src/session_service.rs:126-136 | hosts that differ only in name and PTY sizes still do after a close, whatever fails |
| Simulation.ByteAgrees | crates/novamux/src/tui.rs:113-133 | one key byte has the same effect in both front ends, or cuts the client off from a session of 33 panes |
| Simulation.EventAgrees | crates/novamux/src/tui.rs:100-145 | one terminal event, a key, a new window size or none, has the same effect in both front ends, or cuts the client off from a session of 33 panes |
| Simulation.FrontEndsAgree | crates/novamux/src/tui.rs:113-145 | for every list of events: the front ends agree at the end if the panes always fit a snapshot, and otherwise the client has been cut off |
| Simulation.FrontEndsDoTheSame | crates/novamux/src/tui.rs:367-451 | in that case both have the same tree, focus and next identifier, every pane the same input, and both run, have stopped or have failed alike |
| Simulation.FrontEndsStartAlike | crates/novamux/src/tui.rs:346-365 | they agree from the start, the application on its own session and the client on one just created |
| Simulation.TooManyPanesShutOut | crates/novamux/src/tui.rs:68-72 | a client that attaches to a session of more than 32 panes fails at its first exchange and leaves the panes as they are |
| SharedDaemon.TurnMeetsExchange | crates/novamux/src/session_service.rs:469-472 | an exchange of the client is one turn of its connection in the shared daemon, and ends both alike |
| SharedDaemon.SharedFrontEndsAgree | crates/novamux/src/tui.rs:100-145 | a client of a daemon shared with any other connections, whatever steps they take between its requests, leaves its session as the local application is after the same events, or has been cut off from 33 panes |
| SharedDaemon.SharedRunExists | crates/novamux/src/session_service.rs:257-294 | for every client of a shared daemon and all events there is such a run |
| FrontendObjects.App.Start | crates/novamux/src/tui.rs:346-365 | the application object's state after start |
| FrontendObjects.App.Split | crates/novamux/src/tui.rs:453-460 | the application's panes after a split, whatever fails |
| FrontendObjects.App.RunCommand | crates/novamux/src/tui.rs:437-451 | the application's whole new state for every command |
| FrontendObjects.App.HandleBytes | crates/novamux/src/tui.rs:391-410 | the byte loop has the specified effect and stops with the application |
| FrontendObjects.App.HandleEvent | crates/novamux/src/tui.rs:377-416 | the application's whole new state for one event |
| FrontendObjects.App.ReapExited | crates/novamux/src/tui.rs:418-433 | the application's whole new state after the loop over exited panes |
| FrontendObjects.App.Turn | crates/novamux/src/tui.rs:377-433 | the application's whole new state after one turn, which a key in copy mode ends before the loop over exited panes |
| FrontendObjects.AttachedClient.Exchange | crates/novamux/src/session_service.rs:469-472 | an exchange of the client object with the session at the other end |
| FrontendObjects.AttachedClient.HandleBytes | crates/novamux/src/tui.rs:113-133 | the byte loop has the specified effect and stops with the client |
| FrontendObjects.AttachedClient.HandleEvent | crates/novamux/src/tui.rs:100-145 | the client's and the session's whole new state for one event |
| Config.FoldedPrefix | crates/novamux/src/config.rs:379-464 | a line that is refused is refused with the same error whatever follows it |
| Config.ParseLines | crates/novamux/src/config.rs:379-466 | the loop over lines computes the specified settings or the first error |
| Config.Parse | crates/novamux/src/config.rs:368-466 | the parser refuses sources beyond 16384 bytes or 64 lines and otherwise computes the specified settings or the first error |
| Config.AcceptedIff | crates/novamux/src/config.rs:379-464 | lines are accepted exactly when each is acceptable by itself and no key is set twice |
| Config.AcceptedIsEffect | crates/novamux/src/config.rs:379-466 | the settings of an accepted file are the changes its lines ask for, applied in order |
| Config.AcceptedIsDeclared | crates/novamux/src/config.rs:368-467 | the settings of an accepted file are those its lines declare, each looked up by its key; order matters only between the theme and the colors |
| Config.KeysAreKinds | crates/novamux/src/config.rs:405-464 | keys and kinds of settings correspond one to one |
| Config.OwnLineWins | crates/novamux/src/config.rs:405-460 | a color comes from its own line if no theme line follows it |
| Config.ThemeLineWins | crates/novamux/src/config.rs:405-460 | a color comes from the theme line if its own line does not follow that |
| Config.UnsetColor | crates/novamux/src/config.rs:231-243 | a color that no line sets has its default |
| Config.OwnedMeans | crates/novamux/src/config.rs:422-454 | a setting with a key of its own is what its line says wherever the line stands, or its default if there is none |
| Config.KeysOwnSettings | crates/novamux/src/config.rs:422-454 | animation, screensaver, idle time and scene style are such settings |
| Config.ChangesAreKeyed | crates/novamux/src/config.rs:404-462 | each kind of change has one key |
| Config.AtMostElevenSettings | crates/novamux/src/config.rs:400-462 | an accepted file holds at most eleven settings |
| Config.ColorAcceptedIff | crates/novamux/src/config.rs:477-506 | a color is accepted exactly if it is a name, # and six hexadecimal digits, or such a form with a plus sign for a leading digit |
| Config.PlusSignAccepted | crates/novamux/src/config.rs:493-499 | a concrete color with plus signs that is accepted, contrary to the documentation |
| ConfigValues.LimitsAre | crates/novamux/src/config.rs:368-377 | a source of more than 16384 bytes is refused, and one of more than 64 lines at line 65 |
| ConfigValues.RefusedBecause | crates/novamux/src/config.rs:381-403 | the first line that is refused is reported with its number and the first reason that applies |
| ConfigValues.ValueRefused | crates/novamux/src/config.rs:405-464 | a key that is none of the eleven is unknown, and a known one with a value that means nothing has a bad value |
| ConfigValues.NumberReadIff | crates/novamux/src/config.rs:444-447 | exactly the numbers up to 65535 are read, by their decimal digits, with or without a plus sign |
| ConfigValues.IdleReadIff | crates/novamux/src/config.rs:443-451 | the idle time is read exactly if it is a number from 10 to 3600, and is that number |
| ConfigValues.ColorReads | crates/novamux/src/config.rs:494-500 | `#` and three components in hexadecimal digits of either case are that color, red first |
| ConfigValues.ComponentReads | crates/novamux/src/config.rs:495 | a component is its two digits, most significant first; a plus sign counts for nothing |
| ConfigValues.NameReadsIff | crates/novamux/src/config.rs:478-493 | a color name is read as that color and as no other |
| ConfigValues.WordsReadIff | crates/novamux/src/config.rs:423-454 | the words of animation, screensaver and scene style |

## Left out

- PTY processes, their threads and the terminal emulator: a PTY is the number of the spawn that made it, the bytes
  written to it and its size; what a terminal shows is an arbitrary valid text. A write that fails delivers nothing
  here, where the source may have delivered a part.
- Lock poisoning and panics: a snapshot always obtains its texts and every lock is granted.
- SplitHost: with no pane identifier left the source panics before it changes anything; here the split fails.
- Sockets, file permissions, peer credentials, stale sockets, daemon start, timeouts, retries and the command line:
  input and output outside the modelled logic.
- Partial writes of a frame: a response reaches its client whole or the connection ends.
- Overflow of 32-bit lengths in `frame` and `unframe`: they are capped at 8192 bytes first, or the sum is exact here
  and refused for the same reason.
- Polling the window size: the window size that commands use is the one of the last resize event or of the start; the
  source asks the terminal for it at the top of every turn.
- Rendering, themes on screen, animation, the screensaver and idle input: user interface. An event is a key that
  reaches the router or leaves copy mode, a new window size, or none.
- Copy-mode scrolling, search and the mapping from keys to bytes: single-branch tables. A key is any byte string, and
  whether it leaves copy mode is part of the event.
- FrontEndsAgree: shells that exit by themselves are not among its events, because only the local application closes
  their panes; runs of the local application in which they do are those of `LocalTurns`.
- SharedFrontEndsAgree: the operating system answers the calls made for the client's session by one function; for the
  sessions of other connections it may differ at every step.
- Reading the configuration file, trimming lines and splitting them at the equals sign: a line is given as too long,
  ignored, without equals sign, with an empty part, or as key and value.
- ParseColor: values are ASCII; the source slices a color by byte and panics when a slice would cut a character.
- Shutdown of the local application, which terminates all PTYs and ignores failures: one loop without a result.
- The palettes of the named themes are a table; no law says which colors they are.
