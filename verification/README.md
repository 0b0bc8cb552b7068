# Meshtastic Python client: verified core

This project models the parts of the Meshtastic Python client and of its build
scripts whose correctness is hard to see by reading one function, and proves what
they are for. Each area below names its modules, the central definitions, and the
theorem a maintainer would rely on.

**Serial framing** (`Framing`, `FramingUnits`, `StreamLink`). `Framing.Parse` reads a
whole byte stream: length-prefixed frames, log bytes, and the undecided rest.
`FramingUnits` says what it finds without it: every stream is packets, characters and
three kinds of malformed bits, spelled out in bytes, and can be read in one way only.
The `Reader` class is the byte-at-a-time reader with its receive buffer and current log
line; its `Valid()` ties everything delivered so far to `Parse` of everything read so
far. `Exchange` sends payloads and log bytes through a port that may write partially,
reads the bytes back, and ends with exactly what was sent.

**Link lifecycle** (`LinkLifecycle`, `LinkRuns`, `LinkHistory`). A state machine with
one step per critical section of connect, close, the reader thread and the heartbeat
callbacks, interleaved arbitrarily. `Inv` is inductive; `LinkRuns` states safety over
whole runs: one reader alive, a reader closes only its own stream, nothing reopens
during a close, and no heartbeat is in flight or starts after the close that flipped the
closing flag has waited, until a connect that began after that close ended.
`LinkHistory` says what each field tells about the run behind it, and that a close in
progress can always be brought to its end.

**Signature compatibility** (`SignatureShape`, `SignatureCalls`, `SignatureText`,
`SignaturePrinter`, `SignatureRoundTrip`, `SignatureMisread`, `SignatureBrackets`,
`SignatureAccept`, `SignatureExact`). `Binds` is call binding after section 6.3.4
(Calls) and parameter kinds after section 8.7 (Function definitions) of the Python
Language Reference. The greedy comparison is sound for it, is a preorder, and is exact
for the old signatures that have only positional-or-keyword parameters and for no
others; what it accepts is also told in names, kinds and flags alone
(`SignatureAccept`). Provided every printed parameter but the last closes the brackets
it opens, and nothing behind a comma outside brackets is blank or a bare marker,
printing a function and parsing the text recovers its parameters exactly if the printed
parameters hold no comma, and no `=` without a default, outside brackets; so `Gate`,
from two functions through two texts to a verdict, is a statement about calls.

**Proto sources** (`ProtoMask`, `ProtoMaskExact`, `ProtoMaskSpans`, `ProtoScan`,
`ProtoTokens`, `ProtoInject`, `ProtoOptionTexts`, `ProtoPass`, `ProtoFields`,
`ProtoPassRuns`, `ProtoPassPlaces`, `ProtoDeclarations`, `ProtoNesting`,
`ProtoFieldRuns`, `ProtoInjector`, `ProtoImport`, `ProtoInsert`, `NamespacePatterns`,
`NamespaceGrammar`, `NamespaceShift`, `NamespaceSymbols`, `NamespaceRewrite`,
`NamespacePasses`, `NamespaceIdempotence`, `NamespaceLiterals`, `NamespaceStrings`,
`NamespaceMultiLine`, `NamespaceWholeRun`, `NamespaceRewriter`). The two comment and
string maskers agree on well-formed sources. Comments, literals, field declarations,
headers and the statements to relocate are spelled out as texts, apart from the matchers
that find them. The option injector only inserts, inserts every demanded option once, on
the line that closes its field's option block, and can be undone; that the insertion
falls into the field's own declaration holds for one field a line, see below. The
namespace rewriter replaces its matches as if all at once, is idempotent, and leaves
comments and unrelated strings alone; its proofs rest on one fact (`ProtoInsert`): text
that opens and closes nothing can be put after a visible character without changing how
the rest is tokenised.

**Decision procedures** (`ChannelSets`, `Readback`, `OutputCapture`, `Utf8`,
`VersionRanges`, `PacketIds`, `ConnectRetry`). Channel-set matching is equality of what
it compares; a VERIFIED readback is backed by replies this operation captured; captured
output is the longest UTF-8 prefix (section 3 of RFC 3629) that fits the budget; reduced
version ranges admit the same releases (PEP 440, final releases and ordered comparison);
1024 consecutive packet ids differ; connect retries respect their attempt and time
budgets.

Nine claims turn out false of the code as it stands. Each is stated with an input that
shows it and with a condition under which the code does what it promises, which is exact
unless said otherwise:

- The maskers disagree on an unclosed string (`ProtoMask.UnclosedStringDiffers`). On sources
  without multi-line literals they agree if and only if the source is well-formed
  (`ProtoMaskExact.MaskersAgreeExactly`). With such literals they agree if the further
  lines are blank (`ProtoMaskSpans.ToleratedAgree`) and differ if one shows something at the
  start of its second line (`ExposedDiffer`); other such sources are not decided here.
- A `package` line inside a multi-line literal is rewritten although the script's header
  says string literals stay unchanged (`NamespaceMultiLine.MultiLineLiteralIsRewritten`).
  The script keeps a literal if and only if none of its four passes has a target in it
  (`NamespaceWholeRun.EachKeptExactly`, `AllKeptExactly`); a pass keeps those that no import
  opens if and only if it has no target in them (`NamespaceMultiLine.OthersKeptExactly`).
- A default such as `','` is read back as two parameters (`SignatureRoundTrip.CommaDefaultMisread`).
  Where every printed parameter but the last closes the brackets it opens, and no piece
  behind a top-level comma is blank, `/` or `*`, reading back recovers the parameters if and
  only if every printed parameter is free of top-level commas and shows a top-level `=` exactly for a default (`SignatureMisread.RoundTripExactly`,
  and `RoundTripOfTexts` in terms of its texts).
- A default such as `'('` swallows the parameters behind it (`SignatureBrackets.OpenDefaultMisread`).
  Where no printed parameter has a top-level comma or a closing bracket too many, reading
  back recovers the parameters if and only if every parameter but the last closes its
  brackets, and the same holds of `=` (`SignatureBrackets.RoundTripOfNested`). With stray
  commas and open brackets together, two wrongs can make a right (`StrayTextsCancel`).
- The options of a field can land in the brackets of another one on the same line, and the
  second field of a line is never looked at (`ProtoDeclarations.CrowdedLineMisplaces`,
  `SecondFieldUnseen`). They land in the field's own declaration if and only if its line
  opens no bracket, or the declaration ends behind the line that closes the option block, or
  no further bracket follows its end on the line where it ends
  (`ProtoDeclarations.OwnDeclarationExactly`).
- An empty message on one line is taken to enclose everything behind it
  (`ProtoNesting.EmptyMessageStaysOpen`). A line keeps the nesting right in every context if
  and only if its braces come to the one header or closing brace the pass sees
  (`ProtoNesting.LineTracksExactly`); where all do, the message names used for a field are
  those of the enclosing messages (`ContextIsNesting`).
- The import line can be added inside a block comment (`ProtoImport.ImportInComment`). It is
  visible if and only if no comment is open where it goes, for option values without quotes
  and slashes (`ProtoImport.ImportVisibleExactly`).
- Changes no call can tell are reported (`SignatureCalls.KeywordReorderIsReported`,
  `SignatureExact.FalseAlarm`). The comparison is exact if and only if the old signature is
  plain (`SignatureExact.ExactForPlainOnly`).
- A floor of `0` is rejected against no floor, and two empty ranges written differently,
  although they admit the same releases (`VersionRanges.ZeroFloorIsRejected`,
  `EmptyRangesAreRejected`). Those are the only misjudged pairs (`VersionRanges.MatchingExact`).

`dafny verify dfyconfig.toml` checks the whole project.

## Model

| member | source | states |
|---|---|---|
| Framing.PieceStable | meshtastic/stream_interface.py:668-712 | once a frame, log byte or rejected header is decided, later bytes cannot change the decision |
| Framing.ParseRestPending | meshtastic/stream_interface.py:668-712 | what parsing leaves over is always an undecided prefix of one frame |
| Framing.ParseAppend | meshtastic/stream_interface.py:663-712 | parsing in chunks, carrying the rest, gives the events of parsing the whole stream |
| Framing.FramePiece | meshtastic/stream_interface.py:476-497 | a framed payload in front of any bytes is delivered as itself and the bytes after it are parsed afresh; an empty payload vanishes |
| Framing.DeliveredIffNonEmpty | meshtastic/stream_interface.py:695-699 | a frame that fits comes out as its payload if and only if the payload is not empty |
| Framing.ItemDelivered | meshtastic/stream_interface.py:668-712 | one framed message, or one log byte other than the start byte, parses to exactly that event |
| Framing.Delivery | meshtastic/stream_interface.py:476-497 | any interleaving of framed messages and log bytes parses to exactly those events in order with an empty buffer |
| Framing.PendingBound | meshtastic/stream_interface.py:24-27 | the buffer never holds more than 515 bytes between steps and starts with the start byte |
| Framing.DebtShrinks | meshtastic/stream_interface.py:668-712 | every byte other than the start byte brings the reader one byte closer to an empty buffer |
| Framing.DebtPaid | meshtastic/stream_interface.py:668-712 | as many such bytes as are still owed empty the buffer, from any pending state |
| Framing.Resynchronised | meshtastic/stream_interface.py:668-712 | after any 515 bytes other than the start byte the buffer is empty and the next frame is decoded intact |
| Framing.ResyncBoundIsTight | meshtastic/stream_interface.py:24-27 | 514 such bytes are not always enough |
| Framing.RepeatedStart | meshtastic/stream_interface.py:683-690 | any number of extra start bytes in front of a frame loses nothing |
| FramingUnits.PacketParsed | meshtastic/stream_interface.py:695-712 | the four header bytes, spelled out, and 1 to 512 bytes are delivered as that payload, and parsing goes on behind them |
| FramingUnits.BadLengthDropped | meshtastic/stream_interface.py:693-698 | a header with length 0 or above 512 is dropped, with nothing handed on and nothing else lost |
| FramingUnits.BadStartDropped | meshtastic/stream_interface.py:683-690 | a start byte followed by neither start byte is dropped with the byte behind it |
| FramingUnits.ExtraStartDropped | meshtastic/stream_interface.py:683-690 | of two start bytes the first is dropped |
| FramingUnits.CharacterParsed | meshtastic/stream_interface.py:675-681 | any other byte is one byte of log text |
| FramingUnits.EveryStreamReads | meshtastic/stream_interface.py:663-712 | every stream is a sequence of packets, characters, malformed headers, false starts and extra start bytes, and an undecided beginning of a packet |
| FramingUnits.ReadingIsParse | meshtastic/stream_interface.py:663-712 | however a stream is taken apart so, the parser finds exactly those packets and characters and the same end |
| FramingUnits.ParseExactly | meshtastic/stream_interface.py:663-712 | the parse of any stream is a result if and only if the stream can be taken apart into units with that result |
| FramingUnits.EventsStand | meshtastic/stream_interface.py:663-712 | for any stream, every frame has 1 to 512 bytes and stands in it behind its header, every log byte is one of its bytes and no start byte, in order and without overlap |
| StreamLink.WriteBytes | meshtastic/stream_interface.py:346-400 | it fails exactly if the port is closed or a write, the deadline or the flush goes wrong; success means every byte was written once and in order, failure leaves a prefix written |
| StreamLink.SendToRadio | meshtastic/stream_interface.py:476-497 | too large a payload is refused with nothing written; otherwise it fails exactly as the write does, and the port receives exactly the frame, or a prefix of it on failure |
| StreamLink.LogTextConcat | meshtastic/stream_interface.py:569-595 | the text of two stretches of log bytes is the two texts in a row |
| StreamLink.LogTextSpelled | meshtastic/stream_interface.py:569-595 | log text is the bytes themselves for ASCII and a question mark for every other byte |
| StreamLink.CarriageReturnVanishes | meshtastic/stream_interface.py:569-595 | a carriage return leaves no trace in the log text |
| StreamLink.UnitsSorted | meshtastic/stream_interface.py:663-712 | the frames and log bytes of a stream taken apart are its packets and its characters |
| StreamLink.Reader.HandleLogByte | meshtastic/stream_interface.py:569-595 | the lines handed on plus the line in progress grow by exactly the decoded byte, carriage returns dropped; no line holds a newline |
| StreamLink.StepParse | meshtastic/stream_interface.py:668-712 | on a pending buffer plus one byte, parsing either waits, or consumes everything, or keeps one repeated start byte |
| StreamLink.Reader.Step | meshtastic/stream_interface.py:665-712 | one iteration of the loop moves the buffer, the frames and the log text as parsing the buffer and the new byte does |
| StreamLink.Reader.HandleByte | meshtastic/stream_interface.py:663-712 | after every byte, all deliveries so far are those of parsing all input so far |
| StreamLink.Reader.ValidIsExplained | meshtastic/stream_interface.py:663-712 | at any time the input is a sequence of units whose packets and characters are what was handed on, and the buffer is its undecided end |
| StreamLink.Reader.Run | meshtastic/stream_interface.py:597-715 | the same for a whole stream, however it arrives, and said without the parser: malformed bits hand on nothing |
| StreamLink.EventsOfItems | meshtastic/stream_interface.py:476-497 | the frames and log bytes of a stream of items are the items' payloads and bytes |
| StreamLink.Exchange | meshtastic/stream_interface.py:346-400 | payloads and log bytes written through a port with arbitrary partial writes are read back exactly, in order, with an empty buffer, unless the port is closed or something goes wrong |
| LinkLifecycle.InitialInv | meshtastic/stream_interface.py:250-282 | an interface that has just been constructed satisfies the invariant, with or without a stream opened by a subclass |
| LinkLifecycle.LockHeldStep | meshtastic/stream_interface.py:250-282 | the connect lock is held exactly by the thread inside connect |
| LinkLifecycle.CloseExclusiveStep | meshtastic/stream_interface.py:540-550 | one close at a time, never together with a connect, with the exit flag up throughout |
| LinkLifecycle.ReaderOwnsStreamStep | meshtastic/stream_interface.py:258-282 | at most one reader is alive and the open stream is the one it was started for |
| LinkLifecycle.InflightCountedStep | meshtastic/mesh_interface.py:1784-1804 | the in-flight counter is the number of heartbeat sends in flight |
| LinkLifecycle.WaitersClosingStep | meshtastic/mesh_interface.py:565-579 | a close that waits or has waited keeps the closing flag up, and a finished wait means no send in flight |
| LinkLifecycle.FinishersQuietStep | meshtastic/mesh_interface.py:565-579 | sends outlive the closing flag only while some close waits for them, unless a wait was cut short |
| LinkLifecycle.LostCountedStep | meshtastic/mesh_interface.py:1749-1755 | every step keeps up-transitions equal to lost events plus one if connected |
| LinkLifecycle.InvStep | meshtastic/stream_interface.py:250-550 | every step of every thread keeps the whole invariant |
| LinkRuns.RunInv | meshtastic/stream_interface.py:250-550 | the invariant holds in every reachable state |
| LinkRuns.LostBalance | meshtastic/mesh_interface.py:1742-1837 | in every reachable state, up-transitions equal connection-lost events decided plus one if connected |
| LinkRuns.OneReader | meshtastic/stream_interface.py:258-282 | in every reachable state at most one reader thread is alive |
| LinkRuns.ReaderClosesOwnStream | meshtastic/stream_interface.py:334-344 | a reader's exit closes no stream generation but the one it was started for |
| LinkRuns.CloseHolds | meshtastic/stream_interface.py:540-550 | while a close is in progress the exit flag stays set, no stream is opened, no connect prepares and no reader starts |
| LinkRuns.WaitedIsQuiet | meshtastic/mesh_interface.py:576-579 | at the end of the wait nothing is in flight and the closing flag is up |
| LinkRuns.QuietStep | meshtastic/mesh_interface.py:1784-1799 | no step but preparing a connect can start a heartbeat in a quiet state |
| LinkRuns.HeartbeatQuiescence | meshtastic/mesh_interface.py:565-579 | after the wait no heartbeat send is in flight or starts until a connect prepares |
| LinkRuns.QuietUntilLaterConnect | meshtastic/stream_interface.py:250-268 | a connect that prepares after the wait was entered after that close finished |
| LinkRuns.CloseReturnsQuiet | meshtastic/mesh_interface.py:553-598 | a close returns in a quiet state, unless since the last connect prepared some close left its wait by an exception |
| LinkRuns.SecondCloseReturnsEarly | meshtastic/stream_interface.py:540-542 | a second close during the first returns at once, with a send still in flight in a concrete run |
| LinkHistory.StreamOpens | meshtastic/stream_interface.py:258-282 | a connect that is let in and opens a stream gives it a generation of its own, and it stays open until something drops it |
| LinkHistory.GoneUntilOpened | meshtastic/stream_interface.py:334-344 | when a close or a reader exit ends there is no stream, and none until a later connect opens a new one |
| LinkHistory.CloseEnds | meshtastic/stream_interface.py:540-550 | the close that ends is the one in progress; it leaves no close, no stream, and the exit flag up |
| LinkHistory.FlagsSince | meshtastic/mesh_interface.py:1742-1837 | connected, closing and the exit flag are up exactly if the step that raises them has happened and none that lowers them since |
| LinkHistory.EventsCounted | meshtastic/mesh_interface.py:1742-1837 | established events are exactly the publications reached while not closing, lost events the losses while connected |
| LinkHistory.UpsAccounted | meshtastic/mesh_interface.py:1806-1837 | every up-transition is decided on exactly once, published or not, or its thread is still on the way to deciding |
| LinkHistory.CloseCanFinish | meshtastic/mesh_interface.py:553-598 | from every reachable state with a close in progress it can finish without any new operation, and leaves no stream |
| LinkHistory.ConnectCanComplete | meshtastic/stream_interface.py:250-282 | an idle thread can connect whenever no close, no lock and no live reader stands in the way, and then all is set for the reader |
| LinkHistory.ConnectedCanPublish | meshtastic/mesh_interface.py:1784-1837 | a first configuration can mark, beat and publish, and counts one established event |
| LinkHistory.ReaderCanLeave | meshtastic/stream_interface.py:334-344 | a reader that loses its connection can leave, disconnected and with its stream closed |
| SignatureShape.FirstMatchFrom | bin/compare_api_surfaces.py:243-262 | scanning on from a position finds the first match of what remains |
| SignatureShape.CompatibleStep | bin/compare_api_surfaces.py:240-277 | one round of the greedy scan: match, check what was skipped, go on behind it |
| SignatureShape.FindMatch | bin/compare_api_surfaces.py:243-262 | the inner loop returns the first parameter of that name, or none |
| SignatureShape.StepBreaks | bin/compare_api_surfaces.py:253-272 | a matched parameter is accepted exactly if it replaces the old one and everything skipped may be inserted |
| SignatureShape.IsBreakingSignatureChange | bin/compare_api_surfaces.py:229-277 | the loop's verdict is the negation of the recursive compatibility relation, aliases included |
| SignatureCalls.CompatibleEmbeds | bin/compare_api_surfaces.py:240-277 | an accepted change embeds the old parameters in order into the new ones, and every leftover is harmless where it stands |
| SignatureCalls.EmbedsCompatible | bin/compare_api_surfaces.py:240-277 | conversely, any such embedding makes the greedy scan accept |
| SignatureAccept.AcceptedExactly | bin/compare_api_surfaces.py:240-277 | a change is accepted if and only if every old parameter is still there with its kind and no new requirement, in the old order, and every new one is optional and, if positional, behind all old ones |
| SignatureAccept.RelaxingAccepted | bin/compare_api_surfaces.py:269-273 | making parameters of any kind optional is not breaking |
| SignatureAccept.AddingAccepted | bin/compare_api_surfaces.py:262-277 | nor is adding an optional parameter that cannot be passed by position, anywhere |
| SignatureAccept.AliasIsRenaming | bin/compare_api_surfaces.py:243-254 | with approved aliases the verdict is the one on the new signature with every alias replaced by its old name |
| SignatureAccept.AliasOneWay | bin/compare_api_surfaces.py:250-252 | an alias stands for the old name it is approved for, and not the other way round |
| SignatureCalls.CompatibleReflexive | bin/compare_api_surfaces.py:240-277 | an unchanged signature of distinct names is accepted |
| SignatureCalls.CompatibleTransitive | bin/compare_api_surfaces.py:240-277 | accepting each step of two releases means accepting the whole change |
| SignatureCalls.PositionalsStayInPlace | bin/compare_api_surfaces.py:253-277 | in an accepted change every old positional parameter keeps its position |
| SignatureCalls.SurvivingPositional | bin/compare_api_surfaces.py:253-277 | an argument passed by position still reaches the same parameter |
| SignatureCalls.SurvivingKeyword | bin/compare_api_surfaces.py:253-277 | an argument passed by keyword still reaches the same name, or leaves an old `**kwargs` for a parameter of that name |
| SignatureCalls.SurvivingRequired | bin/compare_api_surfaces.py:270-277 | a call that bound before fills every parameter the new signature requires |
| SignatureCalls.CompatibleCallsSurvive | bin/compare_api_surfaces.py:164-277 | soundness: if the change is not breaking, every call that binds on the old signature binds on the new one and delivers its arguments to the same parameters |
| SignatureCalls.PlainExact | bin/compare_api_surfaces.py:229-277 | for an old signature of positional-or-keyword parameters the verdict is exact: not breaking if and only if every call survives |
| SignatureCalls.KeywordReorderIsReported | bin/compare_api_surfaces.py:240-277 | a false alarm: reordering keyword-only parameters is reported although no call can see it |
| SignatureExact.FalseAlarm | bin/compare_api_surfaces.py:229-277 | every other legal signature has a change no call can tell that is reported: renaming a variadic, relaxing the last positional-only parameter, or opening the first keyword-only one |
| SignatureExact.ExactForPlainOnly | bin/compare_api_surfaces.py:229-277 | for a legal old signature the verdict is right on every legal change if and only if all its parameters are positional-or-keyword |
| SignatureText.FindTopLevelChar | bin/compare_api_surfaces.py:65-90 | the depth-counting loop finds the first target outside all brackets, or -1 |
| SignatureText.SegmentsRejoin | bin/compare_api_surfaces.py:93-128 | the pieces joined with commas are the text: splitting loses and adds nothing |
| SignatureText.SplitTopLevelParams | bin/compare_api_surfaces.py:93-128 | the splitting loop returns the stripped pieces between top-level commas |
| SignatureText.CutAndStrip | bin/compare_api_surfaces.py:103-128 | the loop over characters cuts at every top-level comma and strips each piece |
| SignatureText.ParseSignatureShape | bin/compare_api_surfaces.py:164-226 | the parsing loop computes the specified shape, `/` and `*` markers included |
| SignatureText.ParseTokens | bin/compare_api_surfaces.py:175-226 | the loop over tokens switches to keyword-only behind the first star and makes everything before `/` positional-only |
| SignatureText.MarkersSkipped | bin/compare_api_surfaces.py:175-226 | blank pieces, `/` and `*` are read as no parameter, and only the star switches to keyword-only |
| SignaturePrinter.PatchedDone | bin/extract_api_surface.py:150-175 | when both index loops are through, every positional token carries its own default and the `/` marker none |
| SignaturePrinter.DefaultsInOrder | bin/extract_api_surface.py:150-175 | the defaults are printed with the last positional parameters, in their order, and with no others |
| SignaturePrinter.TokensInOrder | bin/extract_api_surface.py:133-208 | place by place: positional-only, `/`, ordinary, the star, keyword-only each with its own default, the double star |
| SignaturePrinter.ApplyDefaults | bin/extract_api_surface.py:150-175 | the two loops over computed indices give the last parameters the defaults, in order, across the `/` marker |
| SignaturePrinter.PrintPositional | bin/extract_api_surface.py:137-157 | the positional parameters are printed in order, with `/` behind the positional-only ones |
| SignaturePrinter.PrintKeywords | bin/extract_api_surface.py:188-204 | each keyword-only parameter is printed with its own annotation and default |
| SignaturePrinter.SignatureFromFunction | bin/extract_api_surface.py:133-208 | the printer computes the specified text |
| SignatureRoundTrip.SplitJoined | bin/compare_api_surfaces.py:93-128 | tokens that close their brackets, joined by ", ", are cut as if each were split on its own |
| SignatureRoundTrip.ParamTextShape | bin/compare_api_surfaces.py:186-226 | a printed parameter is read with its own name whatever text follows, and as required exactly if it shows no top-level `=` |
| SignatureRoundTrip.StarredAnnotated | bin/compare_api_surfaces.py:186-226 | an annotated `*args` or `**kwargs` is read with its own name and kind |
| SignatureRoundTrip.RunShape | bin/compare_api_surfaces.py:164-226 | a run of ordinary tokens reads as the parameters it prints |
| SignatureRoundTrip.ReadBack | bin/extract_api_surface.py:133-208 | a printed list without top-level commas, in which every parameter but the last closes its brackets, is read as its own parameters, in order and of the right kinds, markers included |
| SignatureRoundTrip.RoundTrip | bin/extract_api_surface.py:133-208 | if moreover `=` shows exactly where a default is, parsing recovers every name, kind and required flag |
| SignatureRoundTrip.ParamsCanonical | bin/extract_api_surface.py:133-208 | the parameters of a function definition are in canonical kind order |
| SignatureRoundTrip.Gate | bin/compare_api_surfaces.py:164-277 | print both, parse both, compare: a pass means every call of the old function survives, and for plain old functions a report means some call breaks |
| SignatureRoundTrip.CommaDefaultMisread | bin/compare_api_surfaces.py:93-128 | a default with a comma outside brackets, such as `','`, is read as two parameters |
| SignatureMisread.CutCount | bin/compare_api_surfaces.py:93-226 | cutting the printed list yields at least one parameter per printed parameter, and no more exactly if there is no top-level comma |
| SignatureMisread.RoundTripExactly | bin/compare_api_surfaces.py:93-226 | where every printed parameter but the last closes its brackets, and no piece behind a top-level comma is blank or a marker: what is printed is read back if and only if no printed parameter holds a top-level comma, and a top-level `=` shows exactly where a default is |
| SignatureMisread.RoundTripOfTexts | bin/compare_api_surfaces.py:93-226 | for balanced texts: if and only if no annotation or default has a top-level comma and no annotation without a default a top-level `=` |
| SignatureBrackets.Swallowed | bin/compare_api_surfaces.py:93-128 | no separator behind an open bracket cuts the list, as long as no bracket is closed too often |
| SignatureBrackets.SplitUpTo | bin/compare_api_surfaces.py:93-128 | the list is cut behind each parameter up to the first that leaves a bracket open, and the rest is one piece |
| SignatureBrackets.OpenBeforeSlash | bin/compare_api_surfaces.py:164-226 | a bracket left open in front of the `/` swallows it, and the parameters before it are read as the wrong kind |
| SignatureBrackets.OpenBehindSlash | bin/compare_api_surfaces.py:164-226 | a bracket left open behind it makes the parser read fewer parameters than declared |
| SignatureBrackets.RoundTripOfNested | bin/compare_api_surfaces.py:93-226 | where no printed parameter has a top-level comma or a closing bracket too many: what is printed is read back if and only if every parameter but the last closes its brackets, and `=` shows exactly where a default is |
| SignatureBrackets.OpenDefaultMisread | bin/compare_api_surfaces.py:93-128 | `def f(a='(', b=1)` meets every other condition and at most one parameter is read |
| SignatureBrackets.StrayTextsCancel | bin/compare_api_surfaces.py:93-226 | with a stray comma and an open bracket the pieces are wrong and still the declared parameters are read, so neither condition alone is necessary |
| ProtoMask.PositionsExact | bin/inject_nanopb_options.py:262-268 | the reported offsets are exactly the places where the masked line shows that character |
| ProtoMask.MaskersAgree | bin/fixup_protobuf_namespace.py:41-62 | on a source whose strings close on their line and whose block comments close, the line masker folded over the lines is the whole-file masker |
| ProtoMask.UnclosedStringDiffers | bin/inject_nanopb_options.py:244-260 | an unclosed quote is a string to one masker and code to the other |
| ProtoMaskExact.MaskersAgreeExactly | bin/fixup_protobuf_namespace.py:41-62 | on a source without multi-line literals the two maskers agree if and only if every quote closes on its line and every block comment closes |
| ProtoMaskExact.MultiLineCanAgree | bin/inject_nanopb_options.py:244-260 | a multi-line literal on which they agree although the source is not well-formed |
| ProtoMaskExact.MultiLineCanDiffer | bin/inject_nanopb_options.py:244-260 | and one on which they differ |
| ProtoMaskSpans.ToleratedAgree | bin/fixup_protobuf_namespace.py:41-62 | the maskers agree on sources that are well-formed but for literals that span lines and are blank from their second line on |
| ProtoMaskSpans.ExposedDiffer | bin/inject_nanopb_options.py:244-260 | they differ on sources that are well-formed up to a literal whose second line starts with something that shows |
| ProtoTokens.TokenExactly | bin/fixup_protobuf_namespace.py:41-44 | a comment or literal starts a text exactly if it is spelled as the pattern says: `//` to the end of the line, a block comment to its first closing mark, a literal of either quote with backslash pairs |
| ProtoTokens.MaskSpelled | bin/fixup_protobuf_namespace.py:47-62 | the mask blanks such tokens, literals only if asked to, and copies everything else |
| ProtoScan.BlankString | bin/inject_nanopb_options.py:244-260 | the inner loop blanks a literal up to its closing quote, escapes skipped, and nothing else |
| ProtoScan.FindClose | bin/inject_nanopb_options.py:221-231 | the search for the end of a block comment finds its first closing mark, or none |
| ProtoScan.ScanProtoCodeLine | bin/inject_nanopb_options.py:207-272 | the in-place scan returns the masked line, the carried comment state and the exact bracket and semicolon offsets |
| ProtoScan.ScanSource | bin/inject_nanopb_options.py:362-368 | scanning a well-formed source line by line yields the whole-file mask |
| ProtoInject.KeyIsSuffix | bin/inject_nanopb_options.py:135-146 | a key that matches a field is the one made of its innermost messages and its name |
| ProtoInject.MostSpecificWins | bin/inject_nanopb_options.py:149-182 | an option takes the value of the longest matching key that sets it |
| ProtoInject.WildcardOtherwise | bin/inject_nanopb_options.py:161-166 | where no matching key sets an option, the wildcard for the field name decides |
| ProtoInject.CollectFieldOptions | bin/inject_nanopb_options.py:149-182 | the merge loop computes those options and records exactly the matched keys |
| ProtoOptionTexts.OrderIsNames | bin/inject_nanopb_options.py:34-48 | the eleven options, each once, in alphabetical order of their names |
| ProtoOptionTexts.OptionsSpelled | bin/inject_nanopb_options.py:120-132 | the inserted text lists every option present as `(nanopb).name = value`, in that order, separated by commas; integer sizes as `IS_` constants, flags in lower case |
| ProtoOptionTexts.KeyMatchesExactly | bin/inject_nanopb_options.py:135-146 | a key applies exactly if it is an ending of the message names and the field, a bare field name only outside messages |
| ProtoOptionTexts.CollectedExactly | bin/inject_nanopb_options.py:149-182 | an option is collected exactly if the wildcard or some applying key sets it |
| ProtoFields.FieldNameExactly | bin/inject_nanopb_options.py:348-354 | a line declares a field of that name if and only if it is white space, perhaps `optional` or `repeated`, a type, the name, `=` and a digit, with white space as it must or may be |
| ProtoFields.OpenedScopeExactly | bin/inject_nanopb_options.py:341-343 | a line opens a scope if and only if it is `message`, `oneof` or `enum`, a name and a brace, with white space as it must or may be |
| ProtoFields.ClosesScopeExactly | bin/inject_nanopb_options.py:344-344 | a line closes a scope if and only if it is one closing brace and white space |
| ProtoFields.FieldOpensNothing | bin/inject_nanopb_options.py:408-425 | a field declaration is neither a header nor a closing brace |
| ProtoFields.FieldAsks | bin/inject_nanopb_options.py:422-440 | a declaration outside enums for which options are collected asks for exactly those |
| ProtoFields.OnlyFieldsAsk | bin/inject_nanopb_options.py:422-440 | and nothing else asks for any |
| ProtoPassRuns.StructuralOffsets | bin/inject_nanopb_options.py:207-272 | every reported bracket or semicolon is a visible one of the line |
| ProtoPassRuns.StepKeeps | bin/inject_nanopb_options.py:357-477 | one line inserts only at a visible `]` or `;`, commits what it inserts, and demands in equals demands committed plus the one still waiting |
| ProtoPassRuns.RunInvariant | bin/inject_nanopb_options.py:357-477 | over all lines so far: each is edited cleanly, and everything demanded is committed or the one pending rewrite |
| ProtoPassRuns.EditReverts | bin/inject_nanopb_options.py:391-396 | taking an inserted text out again gives the line up to white space dropped before `;` |
| ProtoPassRuns.InjectionIsReversible | bin/inject_nanopb_options.py:288-501 | when the pass succeeds it can be undone line by line, and the insertions are exactly the demands of the constrained fields, once each, in order |
| ProtoPassPlaces.DemandIsMet | bin/inject_nanopb_options.py:366-477 | the options of a constrained field are inserted on its own line if its option block closes there, otherwise on the first later line where the bracket depth is back to zero, with nothing edited in between |
| ProtoPassPlaces.HomesDiffer | bin/inject_nanopb_options.py:366-477 | that line is unique, and no two fields share it |
| ProtoPassPlaces.EditMeetsDemand | bin/inject_nanopb_options.py:366-477 | conversely every edited line is the closing line of a constrained field and receives that field's options |
| ProtoPassPlaces.InsertionsArePlaced | bin/inject_nanopb_options.py:288-501 | over a whole successful pass: every demand is met on the line that closes its field's option block, and every edit meets a demand |
| ProtoDeclarations.BracketOrEnd | bin/inject_nanopb_options.py:378-396 | on the closing line, the last `]` stands before the end of the declaration exactly if no bracket follows that end |
| ProtoDeclarations.OwnDeclarationExactly | bin/inject_nanopb_options.py:366-477 | the insertion lies in the declaration of its own field if and only if the text is not crowded: its line opens no bracket, or its declaration ends behind the closing line, or no further bracket follows its end on the line where it ends |
| ProtoDeclarations.CrowdedLineMisplaces | bin/inject_nanopb_options.py:385-391 | two fields on one line, the second with brackets: the options of the first go into the brackets of the second |
| ProtoDeclarations.SecondFieldUnseen | bin/inject_nanopb_options.py:426-445 | the second field of that line gets no options, whatever is demanded for it |
| ProtoNesting.NestApplies | bin/inject_nanopb_options.py:412-423 | a line changes every nesting of braces by one effect: so many closed, and these opened |
| ProtoNesting.LineTracksExactly | bin/inject_nanopb_options.py:412-423 | the context is updated as the braces demand, in every context, if and only if the effect of the line is the one header or closing brace the pass sees |
| ProtoNesting.ContextIsNesting | bin/inject_nanopb_options.py:366-425 | if every line is of that kind, the context at each line is the nesting of the text and its message names are the enclosing messages |
| ProtoNesting.EmptyMessageStaysOpen | bin/inject_nanopb_options.py:412-425 | an empty message on one line is pushed and never popped |
| ProtoFieldRuns.FieldIsInjected | bin/inject_nanopb_options.py:366-477 | from the text alone: a declaration outside option brackets and enums, with options collected for it under the messages around it, receives exactly those, on the line that closes its block |
| ProtoFieldRuns.OnlyFieldsInjected | bin/inject_nanopb_options.py:366-477 | a line that asks for options is such a declaration |
| ProtoFieldRuns.OneLineField | bin/inject_nanopb_options.py:441-452 | on one line without brackets, the options are put in brackets of their own in front of the first `;`, and the rest is as it was |
| ProtoFieldRuns.RefusedExactly | bin/inject_nanopb_options.py:366-490 | a file is accepted if and only if at the end of every line no more brackets were closed than opened, none is open at the end, and no constrained field has neither a bracket nor a `;` on its line |
| ProtoInjector.LinesRejoin | bin/inject_nanopb_options.py:311-501 | splitting into lines and joining is the identity |
| ProtoInjector.LastImport | bin/inject_nanopb_options.py:317-325 | the index of the last import line, or -1 |
| ProtoInjector.FirstSyntax | bin/inject_nanopb_options.py:494-499 | the index of the first syntax line, or -1 |
| ProtoInjector.CopyLines | bin/inject_nanopb_options.py:357-487 | the loop's output, errors and applied sets are those of the specified pass |
| ProtoInjector.ImportPlaced | bin/inject_nanopb_options.py:359-364 | copying with the early import gives the output with one line put at the specified place |
| ProtoInjector.InsertImport | bin/inject_nanopb_options.py:493-499 | the fallback puts the import behind the first syntax line, if there is one |
| ProtoInjector.InjectIntoProto | bin/inject_nanopb_options.py:288-501 | the injector returns the specified text or error, and the applied sets grow by exactly the keys matched by the rewritten fields |
| ProtoInjector.ImportErased | bin/inject_nanopb_options.py:359-364 | the import is one line that can be taken out again |
| ProtoInjector.InjectedFile | bin/inject_nanopb_options.py:288-501 | the injected file is the input with each demand met once on the closing line of its field's block, in its own declaration exactly if the text is not crowded there, every other line as it was, reversibly, and one import line at its stated place unless it was there |
| ProtoImport.EditKeepsState | bin/inject_nanopb_options.py:391-396 | an insertion of text without quotes and slashes leaves the comment state at the end of the line as it was |
| ProtoImport.StatesKept | bin/inject_nanopb_options.py:357-477 | so does the whole pass, for options without quotes and slashes, in front of every line |
| ProtoImport.ImportVisibleExactly | bin/inject_nanopb_options.py:317-364 | for such options, the added import is visible if and only if no block comment of the input is open where it goes |
| ProtoImport.ImportInComment | bin/inject_nanopb_options.py:317-325 | a commented-out import makes the place one inside the comment |
| ProtoImport.ContainsExactly | bin/inject_nanopb_options.py:313-315 | the test for the nanopb import finds exactly the lines in which its name stands |
| ProtoImport.ImportLineSpelled | bin/inject_nanopb_options.py:318-325 | white space, `import`, a blank and something is an import line exactly if it has a `;` |
| ProtoImport.SyntaxLineSpelled | bin/inject_nanopb_options.py:494-499 | white space, `syntax` and something up to a `;` is a syntax line |
| ProtoImport.NothingToInject | bin/inject_nanopb_options.py:306-309 | without constraints the text is returned as it is |
| ProtoInsert.HasCloseInsert | bin/fixup_protobuf_namespace.py:41-44 | harmless text moves the end of a block comment by its length or not at all |
| ProtoInsert.ClosedInsert | bin/fixup_protobuf_namespace.py:41-44 | the same for the end of a string literal |
| ProtoInsert.InsertCommutes | bin/fixup_protobuf_namespace.py:52-62 | masking commutes with a harmless insertion, and outside protected regions every protected token is unchanged |
| ProtoInsert.MaskShows | bin/fixup_protobuf_namespace.py:47-62 | a visible character of the mask is the source's own; hiding strings only hides more |
| ProtoInsert.VisibleInsert | bin/fixup_protobuf_namespace.py:52-87 | text put after a visible character is visible in both masks and changes no comment |
| NamespacePatterns.ReplacementInserts | bin/fixup_protobuf_namespace.py:19-36 | each of the four replacements is an insertion into the matched text |
| NamespaceGrammar.TargetExactly | bin/fixup_protobuf_namespace.py:27-36 | the four targets are exactly: the name in `package meshtastic ;`, an imported path under `meshtastic/` but not `meshtastic/protobuf/`, the imported `nanopb.proto`, and a root `meshtastic .` not followed by the word `protobuf` |
| NamespaceGrammar.OneSite | bin/fixup_protobuf_namespace.py:19-24 | what a pass with one target makes of the text, in the words of the script |
| NamespaceShift.PackageBack | bin/fixup_protobuf_namespace.py:27-27 | after any rewrite, a package statement still to rewrite is one of the old text, wholly on one side |
| NamespaceShift.ImportBack | bin/fixup_protobuf_namespace.py:28-31 | the same for import paths, the negative lookahead included |
| NamespaceShift.NanopbBack | bin/fixup_protobuf_namespace.py:32-35 | the same for nanopb imports |
| NamespaceSymbols.RootHigh | bin/fixup_protobuf_namespace.py:97-115 | a name that is rooted behind a rewrite was rooted before it |
| NamespaceSymbols.SymbolBack | bin/fixup_protobuf_namespace.py:36-36 | the same for qualified symbols; the rewritten one no longer matches |
| NamespacePasses.SitesExact | bin/fixup_protobuf_namespace.py:83-87 | the match list holds exactly the target positions, in order |
| NamespacePasses.NoNewTarget | bin/fixup_protobuf_namespace.py:146-164 | a rewrite by one pass leaves no target of its own or an earlier pass that was not there before, and the rewritten one is gone |
| NamespacePasses.Apart | bin/fixup_protobuf_namespace.py:83-87 | two matches never overlap |
| NamespaceRewrite.RightToLeft | bin/fixup_protobuf_namespace.py:83-87 | replacing the spans from the last to the first equals one simultaneous replacement |
| NamespaceIdempotence.PassSettles | bin/fixup_protobuf_namespace.py:65-87 | by induction over the matches, a pass leaves no target of its own or an earlier pattern |
| NamespaceIdempotence.AllSettled | bin/fixup_protobuf_namespace.py:133-164 | after the four passes none of the four patterns matches anything |
| NamespaceIdempotence.RewriteIsIdempotent | bin/fixup_protobuf_namespace.py:133-164 | rewriting twice equals rewriting once, for every source |
| NamespaceIdempotence.CommentsKept | bin/fixup_protobuf_namespace.py:133-164 | every comment is in the result byte for byte, in order, and no other, for every source |
| NamespaceIdempotence.SymbolsKeepStrings | bin/fixup_protobuf_namespace.py:118-130 | the pass over qualified symbols keeps every string, too |
| NamespaceLiterals.PiecesInsert | bin/fixup_protobuf_namespace.py:41-87 | harmless text put outside comments lengthens the literal it falls into, moves those behind it, and changes nothing else |
| NamespaceLiterals.PassPieces | bin/fixup_protobuf_namespace.py:65-87 | for every source: after a pass each comment and literal is the old one with the added text at the replacements that fell into it |
| NamespaceLiterals.TextKept | bin/fixup_protobuf_namespace.py:65-87 | a literal keeps its text exactly if no replacement falls into it |
| NamespaceLiterals.LiteralsKeptExactly | bin/fixup_protobuf_namespace.py:65-87 | a pass keeps all comments and literals if and only if none of its targets lies in a literal |
| NamespaceStrings.LiteralIsPath | bin/fixup_protobuf_namespace.py:27-35 | a one-line literal touched by a rewrite is the one an import statement opens |
| NamespaceStrings.PassLiterals | bin/fixup_protobuf_namespace.py:65-87 | on one-line literals a pass keeps every comment and literal, one for one, but those its import targets open, and these get exactly the added text |
| NamespaceStrings.StringsKept | bin/fixup_protobuf_namespace.py:133-164 | if every literal ends on its own line, comments and literals correspond one for one: each is byte-identical, or is opened by a relocated import and has exactly the relocation text put in |
| NamespaceMultiLine.OthersKeptExactly | bin/fixup_protobuf_namespace.py:65-87 | a pass keeps all comments and literals but those its import targets open if and only if every target inside a literal is inside one of those |
| NamespaceWholeRun.EachKeptExactly | bin/fixup_protobuf_namespace.py:133-164 | for every source, the script keeps comments and literals one for one, never shortens one, and keeps one byte for byte if and only if none of its four passes has a target in it |
| NamespaceWholeRun.AllKeptExactly | bin/fixup_protobuf_namespace.py:133-164 | it keeps them all if and only if no pass has a target in a literal |
| NamespaceMultiLine.MultiLineLiteralIsRewritten | bin/fixup_protobuf_namespace.py:27-27 | a source that is one multi-line literal with a package line in it, and the different literal it is rewritten to |
| NamespaceRewriter.PreviousNonWhitespace | bin/fixup_protobuf_namespace.py:90-94 | the backward loop stops at the last offset that is not white space, or -1 |
| NamespaceRewriter.IsRootQualifiedSymbol | bin/fixup_protobuf_namespace.py:97-115 | a name is not a root exactly if a word precedes it, through white space, directly or behind one dot |
| NamespaceRewriter.FindTargets | bin/fixup_protobuf_namespace.py:118-126 | the match list of a pass, the root filter included |
| NamespaceRewriter.ReplaceMatches | bin/fixup_protobuf_namespace.py:83-87 | the right-to-left loop computes the simultaneous replacement |
| NamespaceRewriter.RewriteTargetMatches | bin/fixup_protobuf_namespace.py:65-87 | one pass computes the specified text, the early return included |
| NamespaceRewriter.RewriteProtoSource | bin/fixup_protobuf_namespace.py:133-164 | the text it returns is left alone by a second run and has the same comments |
| ChannelSets.LoraConfigMatch | meshtastic/configure_verify.py:423-462 | matches exactly if the canonical LoRa forms agree: dormant fields cleared, coding rate 0 under a preset read as 5 |
| ChannelSets.HasDuplicateNames | meshtastic/configure_verify.py:405-420 | reports exactly the lists whose names are not unique |
| ChannelSets.Lookup | meshtastic/configure_verify.py:515-520 | the comprehension maps each name to its only settings |
| ChannelSets.LookupsDecide | meshtastic/configure_verify.py:515-541 | equal key sets and pairwise matches hold exactly if the secondaries agree as multisets |
| ChannelSets.WithinBothWays | meshtastic/configure_verify.py:515-541 | for unique names, inclusion both ways is equality of multisets |
| ChannelSets.VerifyChannelSetsMatch | meshtastic/configure_verify.py:465-541 | true exactly if both are non-empty with unique names, primaries and canonical LoRa forms agree, and secondaries agree in any order |
| ChannelSets.SameChannelsExactly | meshtastic/configure_verify.py:423-541 | the verdict field by field: seven compared fields of the primary and of the secondaries in any order, and the fields of the radio that have an effect |
| ChannelSets.MatchIsPartialEquivalence | meshtastic/configure_verify.py:465-541 | symmetric and transitive, and reflexive exactly on non-empty sets of unique names |
| Readback.LoraReadback | meshtastic/configure_verify.py:275-284 | requesting every field of a LoRa configuration, the readback matches exactly if the two configurations have the same canonical form |
| Readback.MatchesExactly | meshtastic/configure_verify.py:35-103 | the comparison of a leaf, by effective values: intervals, the dormant side of the modem choice, the default coding rate, flags as numbers |
| Readback.IntervalMatches | meshtastic/configure_verify.py:63-103 | two numbers for the neighbour-info interval match exactly if they are equal after reading 0 as 21600 |
| Readback.OrdinaryMatches | meshtastic/configure_verify.py:275-284 | every other leaf outside the LoRa section matches exactly if it is present and equal, flags counting as 0 and 1 |
| Readback.Operation.CaptureResponse | meshtastic/configure_verify.py:1266-1308 | the callback's whole effect: nothing when no longer accepting or for routine replies, an error for a refusal, the shared cache alone for a payload of another section, a capture for one of its own |
| Readback.Operation.Probe | meshtastic/configure_verify.py:651-658 | a request counts as answered exactly if it was refused, or its event is set and its section captured |
| Readback.Operation.WaitForSection | meshtastic/configure_verify.py:647-668 | sleeps stay within the shared deadline, the answer reflects the operation's own state, and it gives up only past the deadline |
| Readback.Operation.ReloadRequestedSections | meshtastic/configure_verify.py:671-759 | a section is reported only if unknown or the time is up, all others are captured, and a refusal carries the words that came back |
| Readback.Operation.CollectMismatches | meshtastic/configure_verify.py:1056-1095 | exactly the requested leaves that differ beyond the dormant and equivalent LoRa values and the neighbour-info default, and exactly the sections that are absent |
| Readback.Operation.Attempt | meshtastic/configure_verify.py:1325-1373 | the outcome is justified by the captures, the requests and the time |
| Readback.Operation.RetireAll | meshtastic/configure_verify.py:1374-1381 | every recorded request id is retired, in order |
| Readback.Operation.VerifyLocalConfigApply | meshtastic/configure_verify.py:1098-1381 | VERIFIED means every section was captured by this operation while accepting and every requested leaf agrees with it by effective values; a mismatch is contradicted so by a capture; a send failure is reported exactly if there was one; sleeps sum to at most the timeout; every id issued is retired on every exit |
| Utf8.EncodeConcat | meshtastic/commands.py:193-195 | encoding two texts in a row is encoding their concatenation |
| Utf8.EncodeSpelled | meshtastic/commands.py:193-195 | the table of RFC 3629: which characters take how many bytes, in which ranges, and how the bytes give the character back |
| Utf8.StrayByteIgnored | meshtastic/commands.py:195-196 | a byte that cannot start a character is skipped by the lenient decoder |
| Utf8.OnlyEncodings | meshtastic/commands.py:195-196 | the decoder takes for a character only its one encoding: no longer form, no surrogate, nothing beyond the last character |
| Utf8.FitIsLongest | meshtastic/commands.py:193-196 | the fitting prefix fits the budget and no longer prefix does |
| Utf8.FitConcat | meshtastic/commands.py:193-198 | what fits of a longer output is what fits of the first part, then of the rest with what is left |
| Utf8.CharRoundTrip | meshtastic/commands.py:195-196 | decoding the bytes of a character gives the character, whatever follows |
| Utf8.DecodeCut | meshtastic/commands.py:195-196 | decoding a cut encoding with errors ignored gives exactly the longest prefix of whole characters before the cut |
| OutputCapture.CaptureStep | meshtastic/commands.py:193-200 | one write retains exactly the part of its text that belongs to the fitting prefix of the whole output |
| OutputCapture.Capture.Write | meshtastic/commands.py:193-207 | after any write the retained text is the longest fitting prefix, `truncated` is exact, and the callable has received a prefix; it is detached exactly if it failed on retained text |
| OutputCapture.Capture.GetResult | meshtastic/commands.py:209-217 | the result is that prefix, with an exit code of 0 exactly if nothing failed |
| OutputCapture.WriteAll | meshtastic/commands.py:193-207 | a run of writes to a callable that does not fail hands it exactly the longest fitting prefix of everything |
| VersionRanges.CompareDecided | bin/smoke_distributions.py:818-828 | the comparison is decided by the first differing part under zero padding, and is 0 exactly if there is none |
| VersionRanges.CompareTransitive | bin/smoke_distributions.py:818-828 | the order is transitive, strictly if either side is strict |
| VersionRanges.CompareTotal | bin/smoke_distributions.py:818-828 | it is total up to padding |
| VersionRanges.CompareReleaseVersions | bin/smoke_distributions.py:818-828 | the padding loop computes that comparison |
| VersionRanges.TighterAdmits | bin/smoke_distributions.py:854-879 | the bound that is kept admits nothing the dropped one refuses |
| VersionRanges.ReducedMeans | bin/smoke_distributions.py:831-884 | the reduced floor and cap admit exactly what all specifiers admit, and are undefined exactly if an operator is unsupported |
| VersionRanges.PythonRangeBounds | bin/smoke_distributions.py:831-884 | the loop computes that reduction, whatever the order; other operators are refused |
| VersionRanges.ValidateRequiresPython | bin/smoke_distributions.py:887-923 | acceptance means equal admitted sets, and for supported operators equal sets mean acceptance exactly outside the misjudged pairs |
| VersionRanges.AgreeingBoundsMatch | bin/smoke_distributions.py:887-923 | bounds without a zero floor that admit the same non-empty set of releases are equal up to padding |
| VersionRanges.SameReleasesExact | bin/smoke_distributions.py:887-923 | two ranges admit the same releases if and only if both are empty, or caps match and floors match once a zero floor is dropped |
| VersionRanges.MatchingExact | bin/smoke_distributions.py:887-923 | the bounds match if and only if the releases are the same and the pair is not misjudged: two empty ranges written differently, or a zero floor against none |
| VersionRanges.ZeroFloorIsRejected | bin/smoke_distributions.py:887-923 | `>=0` admits what no specifier admits, and the gate rejects one against the other |
| VersionRanges.EmptyRangesAreRejected | bin/smoke_distributions.py:887-923 | two ranges that admit nothing are rejected against each other |
| PacketIds.IdParts | meshtastic/mesh_interface.py:1725-1734 | an id is below 2^32, its low 10 bits count on from the previous id, its high bits are the random draw |
| PacketIds.Generator.GeneratePacketId | meshtastic/mesh_interface.py:1708-1735 | each call appends the id determined by the counter and the draw |
| PacketIds.CounterAfter | meshtastic/mesh_interface.py:1725-1734 | k ids later the low 10 bits have advanced by k modulo 1024 |
| PacketIds.WindowDistinct | meshtastic/mesh_interface.py:1725-1734 | ids fewer than 1024 apart differ, whatever the draws |
| PacketIds.Burst | meshtastic/mesh_interface.py:1708-1735 | any run of the generator, from any start, has distinct ids in every window of 1024, all below 2^32 |
| PacketIds.WindowIsTight | meshtastic/mesh_interface.py:1725-1734 | in any run two ids 1024 apart are equal exactly if their random parts are, so the window cannot be longer |
| ConnectRetry.Window.PlanWithinDeadline | meshtastic/transport_retry.py:66-104 | a planned retry has attempts left and ends by the deadline |
| ConnectRetry.Connector.PlanRetry | meshtastic/serial_interface.py:343-384 | after a transient failure: exhausted only without attempts or time; otherwise the delay fits the time left, the stream is dropped, and so is a guessed path |
| ConnectRetry.Connector.Connect | meshtastic/serial_interface.py:291-385 | at most 12 attempts, each delay 1.5 seconds, or 0.25 after a closed stream, cut to the time left; the delays are slept, their sum is within the budget; success means connected with a stream, or a connect that was ignored during a close; an exception has a stated reason |
| ConnectRetry.SleepInterruptibly | meshtastic/transport_retry.py:209-251 | the predicate is asked before every sleep and once more at the end, its first true answer aborts, no sleep is longer than a slice, the whole delay passes otherwise, and a slice that is not positive is refused |

## Left out

- Threads, locks, timers, pubsub and sockets: every critical section is one atomic step and steps interleave freely; the heartbeat timer is an arbitrary callback that may fire at any time.
- A heartbeat send that itself calls close(): a thread is in one operation at a time.
- The second of two concurrent close() calls returns at once by design; `LinkRuns.SecondCloseReturnsEarly` shows it, and no quiescence is claimed for it.
- The reader's retry of transient read errors and its idle sleep: a read returns the next byte or ends the loop. What happens to a delivered frame, malformed protobuf included, is not part of this model.
- Wake bytes, waits and settling delays of connect, pyserial and its exception classes: an attempt ends as connected, cancelled, fatal or transient.
- Approved signature aliases are in the model of the comparison but outside the soundness theorem, since they accept a renamed parameter on purpose.
- SignatureMisread.RoundTripExactly: for printed parameters that, but for the last one, close the brackets they open, and whose pieces behind a top-level comma are not blank, `/` or `*`; open brackets are the subject of `SignatureBrackets.RoundTripOfNested`. Where stray commas, open brackets and surplus closing brackets come together no condition is given, since they can cancel out (`SignatureBrackets.StrayTextsCancel`). The printing of annotations and defaults themselves is taken as given text.
- SignatureRoundTrip.RoundTrip: its premises are necessary as well, see `SignatureMisread.RoundTripExactly`.
- SignatureCalls.PlainExact: exact for positional-or-keyword parameters only, because for every other legal signature a harmless change is reported (`SignatureExact.ExactForPlainOnly`).
- Regular expressions are explicit matchers; word characters and digits of proto sources are ASCII.
- The two error branches of the injector for an option block that closes without a `]` are not modelled, since a depth that returns to zero needs one (bin/inject_nanopb_options.py:381-384, 457-461).
- ProtoInjector.InjectedFile: does not promise that options land in the declaration of their own field, because they do not on a crowded line (`ProtoDeclarations.CrowdedLineMisplaces`).
- ProtoImport.ImportVisibleExactly: requires option values without quotes and slashes, which might themselves open a comment; that the pass sees an import of nanopb in a comment and then adds none is not part of this model.
- ProtoMaskSpans.ToleratedAgree: sufficient only; a multi-line literal whose further lines hold quotes or comment marks is not decided.
- Line numbers and texts inside error messages, options-file parsing, stale-option reports and the command lines of all scripts.
- ProtoInjector.InjectedFile: allows no import line at all, because the code adds none when there is neither an import nor a syntax line, or when the last import is the last line and there is no syntax line.
- NamespaceStrings.StringsKept: requires one-line literals, because a multi-line literal can be rewritten (`NamespaceMultiLine.MultiLineLiteralIsRewritten`); what a pass keeps on other sources is `NamespaceMultiLine.OthersKeptExactly`.
- A claim that every reference to the package is relocated: the root rule leaves a name alone when a word precedes it.
- LoRa fields that are neither dormant nor the coding rate, and channel settings outside the compared ones, are opaque values.
- Readback.Operation.VerifyLocalConfigApply: covers the correlated path with flat leaves; the fallback through requestConfig, enum-name coercion, repeated and nested values, and camel-case names are not modelled.
- Readback.Operation.CaptureResponse: is one step, while the source looks at the accepting flag again after the settings handler has run.
- Readback.Operation.CollectMismatches: is one step, while in the source a late duplicate reply may overwrite a captured section during the comparison.
- UTF-16 surrogates, which a Python string may hold and UTF-8 encoding refuses.
- Parsing of specifier strings and the version class of the packaging library: specifiers are operator and release pairs.
- VersionRanges.ValidateRequiresPython: rejects some ranges that admit the same releases; `VersionRanges.MatchingExact` says which.
- ConnectRetry.Connector.Connect: another thread's close during an attempt is one outcome of the attempt; the interleaving itself is the subject of `LinkRuns`.
- Bit masks and shifts of packet ids are written as remainders and products of powers of two.
- Floating-point rounding: times and delays are real numbers.
