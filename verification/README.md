# TiRPC, its message library and its test runner: a verified model

This project models, in Dafny, five parts of the repository whose behaviour spans several
functions, and proves what they are for.

**The test runner** (`3rd/cereal/unittests/doctest.h`).
A test body is a finite tree of reports and subcases. `SubcaseTree` says, with no word about the
runner, which leaves the tree has and when a path counts as passed. `SubcaseRunner` is the runner: a
stack, a set of passed paths, a level mark and a flag. It runs the body exactly max(1, number of
leaves) times, once per leaf, from left to right. `SubcaseFilters` says which subcases the filters
leave. `Glob` is the filter matcher, which remembers only the last `*` and still decides the
textbook meaning of a pattern. `ContextRun` selects, counts and judges the tests. `XmlEncode`,
`XmlWriter` and `XmlReporter` write the report. A byte-level reader (`XmlScanner`) is part of the
writer's invariant: at any moment the bytes written so far leave exactly the stacked elements open.
`XmlReport` describes the document as a tree, built from the tests without any events;
`XmlReporter.WriteReport` proves that a reader of the bytes sees the tags, attributes and texts of
that document, and nothing else; `XmlReadBack` and `Numbers` add what a reader gets that also undoes
entities, escapes and decimal notation, and `XmlContents` what it finds under which name.
`DoctestString` is the small-string class with its flag and its capacity packed into the last of 24
bytes; writing one view of the union destroys the other, in the model too.

**Multipart messages** (`3rd/cppzmq/zmq_addon.hpp`).
`MultipartCodec` has both directions of `encode` and `decode`: round trip, exactly which byte
strings decode, what is left behind by a failure, and when encoding gives back what was decoded.
`MultipartSocket` has the framing over sockets: for any conversation, with both ways of sending,
with and without more to come, and all ways of receiving interleaved, nothing is lost, made up or
reordered. `ActivePoller` has the handlers of a poller.

**Broadcast calls** (`include/tmss/RpcAsyncBroadcast.hpp`).
`Broadcast` is the protocol as a system of steps over any number of nodes, with loss, delay and
timeouts; its invariant holds after every run, and a node has run exactly what was delivered to it
and is bound there. `BroadcastMessages` carries the results over to bytes, and `BroadcastNode` is
the object itself with the sockets it owns.

**Request/response calls** (`RpcProcessRequest.hpp`, `RpcProcessResponse.hpp`).
`Serializer` is the field-by-field encoding of the portable binary archive with its round trip
between machines of either byte order; `RpcProcess` proves that a remote call returns what the bound
function returns locally.

## What the code does that its documentation does not say

- A raw `]]>` reaches character data exactly if the text begins with `]]>`, because the test
  looks for `idx > 2` (`XmlEncode.RawSectionEnd`). Section 2.4 of XML 1.0 asks for it to be
  escaped everywhere.
- Text that section 2.2 of XML 1.0 forbids gets through in exactly these cases: vertical tab, form feed,
  surrogates, U+FFFE, U+FFFF and the overlong form below (`XmlEncode.LegalOutput`). All else that is
  not a character of a document is escaped.
- The overlong form F0 80 A0 80 of U+0800 passes as valid UTF-8, and it is the only one that does
  (`XmlEncode.PassedThrough`, `XmlEncode.OverlongIsNotShortest`). Section 3 of RFC 3629 forbids it.
  That surrogates pass is admitted in the comments of the code.
- `multipart_t::send` loses the first part when there is no room (`MultipartSocket.Multipart.Send`).
- `recv_multipart_n` with a limit of 0 fails before it looks at the socket
  (`MultipartSocket.RecvMultipartN`).
- A send without parts leaves no trace on the wire, and ends no message begun before it
  (`MultipartSocket.SendMultipart`).
- A byte that is written as `\x1B` and a text that holds these four characters look alike in a report;
  texts that hold nothing like that all differ there (`XmlReadBack.UnescapeReadsBack`).
- A negative number of `subcase-filter-levels` makes the filters look at every level
  (`SubcaseFilters.NegativeLevels`).
- `last` below `first` sets no upper end to the window of tests (`ContextRun.ExecutedIsWindow`).
- Two calls of one node can be published in the opposite order, but only if the earlier one was
  reported as a timeout (`Broadcast.CallsKeepOrder`, and `Broadcast.LatePublication` for an example).
- A remote call whose result type takes up no bytes throws, and no other does
  (`RpcProcess.RemoteIsLocal`).
- A failed `RpcAsyncBroadcast::Start` leaves the node in its role with whatever could be set up;
  `Stop` then still releases everything and reports success (`BroadcastNode.RpcAsyncBroadcast.Stop`).

## Assumptions

The libraries underneath enter only through these.

- Sockets: messages are delivered whole or not at all, and only the first part of a message can be
  refused for want of room. Two connected sockets are a queue of (bytes, more) pairs.
- A reply reaches only the requester instance that sent the request; a destroyed instance receives
  nothing; a subscriber sees publications in order, possibly with gaps.
- The poller underneath stores a pointer per socket. Any of its calls may fail and then changes nothing;
  adding a socket twice fails, as do removing and modifying an unknown one.
- A communicator instance is an address that is never used again.
- Handlers run one at a time, and bindings do not change while calls are under way.

## Model

| member | source | states |
|---|---|---|
| Glob.WildCmp | 3rd/cereal/unittests/doctest.h:3463-3497 | the matcher with its single remembered star answers yes exactly for the strings that match the pattern recursively, with or without case folding; it ends, never backs up before a star was seen, and never reads past a terminator |
| Glob.StarIsSomeSuffix | 3rd/cereal/unittests/doctest.h:3477-3482 | a pattern that starts with a star matches exactly if the rest matches some suffix |
| Glob.StarAbsorbs | 3rd/cereal/unittests/doctest.h:3477-3482 | what a star pattern matches it also matches with more characters in front |
| Glob.StripLiteral | 3rd/cereal/unittests/doctest.h:3467-3474 | a stretch of pattern without stars fixes the characters it consumes, both ways |
| Glob.ForgetEarlierStar | 3rd/cereal/unittests/doctest.h:3477-3482 | on reaching another star, the answer from the earlier star's alternatives equals the answer from here, so overwriting the remembered star loses nothing |
| Glob.Backtrack | 3rd/cereal/unittests/doctest.h:3487-3490 | after a mismatch, restarting one character later at the remembered star keeps the answer |
| Glob.LastOne | 3rd/cereal/unittests/doctest.h:3493-3496 | when the string is used up only the attempt under way can still succeed |
| Glob.TrailingStar | 3rd/cereal/unittests/doctest.h:3478-3480 | a star at the end of the pattern matches all that is left; against nothing left a star can be dropped |
| Glob.WithoutWildcards | 3rd/cereal/unittests/doctest.h:3467-3474 | a pattern without `*` and `?` matches case-sensitively exactly the string equal to it, and otherwise exactly the strings of its length whose characters are equal or the two forms of one ASCII letter, given as ranges and a distance of 32 |
| Glob.QuestionMark | 3rd/cereal/unittests/doctest.h:3468-3469 | `?` takes exactly one character, whatever it is |
| Glob.SensitiveIsInsensitive | 3rd/cereal/unittests/doctest.h:3463-3497 | what matches case-sensitively matches without case sensitivity as well |
| Glob.MatchesAny | 3rd/cereal/unittests/doctest.h:3509-3517 | a name is accepted exactly if a filter matches it, or there are no filters and that counts as a match |
| Glob.WithoutFilters | 3rd/cereal/unittests/doctest.h:3509-3517 | an empty list accepts every name where it says what to take, and none where it says what to leave out |
| SubcaseTree.LeavesAreMaximal | 3rd/cereal/unittests/doctest.h:3533-3561 | leaves are exactly the paths of the tree that no other path extends |
| SubcaseTree.LeavesDiffer | 3rd/cereal/unittests/doctest.h:3542-3546 | with distinct siblings no leaf is listed twice, so visiting each listed leaf once is visiting each leaf once |
| SubcaseTree.EverySubcaseHasALeaf | 3rd/cereal/unittests/doctest.h:3533-3561 | every subcase lies on the way to some leaf |
| SubcaseTree.PassedMeans | 3rd/cereal/unittests/doctest.h:3559-3561 | after k leaves a path is in the passed set exactly if it is in the tree and all leaves at or below it are among the first k |
| SubcaseTree.HeadPassed | 3rd/cereal/unittests/doctest.h:3542-3546 | a subcase is found in the passed set exactly once all its own leaves have been run |
| SubcaseTree.PassedEnds | 3rd/cereal/unittests/doctest.h:3560-3561 | nothing has passed before the first leaf, everything after the last |
| SubcaseTree.RunIsOneChain | 3rd/cereal/unittests/doctest.h:3533-3562 | the subcases entered in run k form one chain from the top down to leaf k and back up, and nothing else is entered |
| SubcaseTree.AllRunsVisitLeaves | 3rd/cereal/unittests/doctest.h:5842-5881 | over all runs the leaves are entered one after another from left to right, each with its ancestors, none left out or repeated |
| SubcaseTree.RunIsAlong | 3rd/cereal/unittests/doctest.h:3521-3562 | run k is the body executed as written, every report included, with exactly the subcases on the way to leaf k entered |
| SubcaseFilters.PruneKeepsDistinct | 3rd/cereal/unittests/doctest.h:3525-3531 | deleting the filtered subcases keeps siblings distinct |
| SubcaseFilters.PruneWithoutFilters | 3rd/cereal/unittests/doctest.h:3525-3531 | without filters nothing is deleted |
| SubcaseFilters.RejectsMeans | 3rd/cereal/unittests/doctest.h:3525-3531 | a subcase is rejected exactly if the filters look at its level and its name matches no pattern of a non-empty list of what to take, or some pattern of the other list |
| SubcaseFilters.SurvivingPaths | 3rd/cereal/unittests/doctest.h:3525-3531 | a path is left in the tree exactly if it was there and every name on it, as far as the filters look, matches a pattern of the first list or that list is empty, and matches none of the second |
| SubcaseFilters.FirstLevels | 3rd/cereal/unittests/doctest.h:3526 | for a number of levels that is not negative those are the names at the first so many places |
| SubcaseFilters.NegativeLevels | 3rd/cereal/unittests/doctest.h:3526 | a negative number of levels means all places, up to a depth of 2^63, since the comparison is unsigned |
| SubcaseFilters.DistinctMeans | 3rd/cereal/unittests/doctest.h:3542-3546 | what is asked of a tree: no two subcases side by side share their signature, at any depth |
| SubcaseRunner.Run | 3rd/cereal/unittests/doctest.h:3533-3562 | within one run of a body the level mark never falls, the re-enter flag is never withdrawn, and the stack ends as it began |
| SubcaseRunner.RunPruned | 3rd/cereal/unittests/doctest.h:3525-3531 | a run under filters is the unfiltered run of the tree without the rejected subcases, whatever the state it starts in |
| SubcaseRunner.RunKeepsFlag | 3rd/cereal/unittests/doctest.h:3533-3537 | in every run the flag is set only when a level above the current one has been used up |
| SubcaseRunner.NothingMoreEntered | 3rd/cereal/unittests/doctest.h:3533-3551 | once the flag is set nothing is entered any more, under any filter: only reports are added |
| SubcaseRunner.RunSpent | 3rd/cereal/unittests/doctest.h:3533-3537 | once a subcase has been entered on a level nothing later on that level is entered; the flag is set exactly if something was there |
| SubcaseRunner.RunFresh | 3rd/cereal/unittests/doctest.h:3533-3561 | if the first k leaves have passed, a run goes to leaf k, reports what lies on the way, then has k+1 leaves passed, and asks for another run exactly if a leaf is left |
| SubcaseRunner.RunPastPassed | 3rd/cereal/unittests/doctest.h:3539-3546 | a subcase whose leaves have all passed is stepped over without a trace |
| SubcaseRunner.NextIsEntered | 3rd/cereal/unittests/doctest.h:3539-3551 | the first subcase that has not passed is entered, and inside it again the first k leaves have passed |
| SubcaseRunner.RunIntoNext | 3rd/cereal/unittests/doctest.h:3548-3562 | it is left again with the stack restored and its passed leaf recorded |
| SubcaseRunner.LeavingMarksPassed | 3rd/cereal/unittests/doctest.h:3559-3562 | leaving adds the subcase itself to the passed set exactly if that was its last leaf |
| SubcaseRunner.OneTurn | 3rd/cereal/unittests/doctest.h:5842-5881 | one turn of the loop, filters included, takes k passed leaves to k+1 and sets the flag exactly if one is left |
| SubcaseRunner.ContextState.EnterSubcase | 3rd/cereal/unittests/doctest.h:3521-3552 | the constructor's whole new state: filters first, then the level test, then the passed set |
| SubcaseRunner.ContextState.LeaveSubcase | 3rd/cereal/unittests/doctest.h:3557-3574 | the destructor's whole new state, for bodies that throw nothing |
| SubcaseRunner.ContextState.Tell | 3rd/cereal/unittests/doctest.h:5765-5896 | each event is told once and in order, and the counters agree with the assertions told since the test began |
| SubcaseRunner.ContextState.StartCounting | 3rd/cereal/unittests/doctest.h:5830-5832 | the counters start over with each test |
| SubcaseRunner.ContextState.ExecuteBody | 3rd/cereal/unittests/doctest.h:5857-5858 | running a body with its nested subcases in place is the run defined on values |
| SubcaseRunner.ContextState.Turn | 3rd/cereal/unittests/doctest.h:5842-5858 | one turn of the loop on the real state: one more leaf has passed, and the flag says exactly whether one is left |
| SubcaseRunner.ContextState.RunTest | 3rd/cereal/unittests/doctest.h:5834-5881 | the loop ends, runs the body max(1, number of leaves that the filters leave) times in leaf order, and leaves every path passed and the stack empty; without filters those are the leaves of the body as written |
| ContextRun.ExecutedIsWindow | 3rd/cereal/unittests/doctest.h:5789-5795 | the tests that run are a contiguous window of those that pass the filters; `last` below `first` means no upper end |
| ContextRun.WindowCons | 3rd/cereal/unittests/doctest.h:5789-5795 | one more passing test in front shifts the window by one |
| ContextRun.PassesMeans | 3rd/cereal/unittests/doctest.h:5772-5787 | a test passes exactly if it is not marked to be skipped, or that is overridden, and file, suite and name each match a pattern of what to take, if there is one, and none of what to leave out |
| ContextRun.WithoutFilters | 3rd/cereal/unittests/doctest.h:5772-5787 | without filters exactly the tests that are not marked to be skipped pass |
| ContextRun.AllTestsRun | 3rd/cereal/unittests/doctest.h:5772-5795 | without filters and in the default range all of those run |
| ContextRun.DecoratorsMean | 3rd/cereal/unittests/doctest.h:2983-2999 | each decorator on its own: a test that should fail is judged the other way round, one that may fail never fails for its failures, and a number of expected failures must be met exactly |
| TestModel.CountsMean | 3rd/cereal/unittests/doctest.h:4086-4094 | the two counters count exactly the reports that are no warnings, and the messages and failed assertions among them |
| ContextRun.Finalize | 3rd/cereal/unittests/doctest.h:2960-2999 | a test case counts as failed as its decorators promise: should_fail, may_fail and expected_failures, in this order of precedence, whatever other reasons there are; an exact number of expected failures excuses even an exception or a timeout |
| ContextRun.OwnCounts | 3rd/cereal/unittests/doctest.h:2963-2967 | a test case adds to the totals exactly the assertions of its own body |
| ContextRun.EventsAddUp | 3rd/cereal/unittests/doctest.h:5768-5893 | the test cases told to start are those that run, in order; all others are told to be skipped; and the counts told with the test cases add up to those of the run |
| ContextRun.Context.Filters | 3rd/cereal/unittests/doctest.h:5772-5787 | a test case is skipped exactly if it is marked so, or fails one of the six filter lists |
| ContextRun.Context.Execute | 3rd/cereal/unittests/doctest.h:5824-5887 | one test case tells its start, all its runs and its end with its own counts, and updates the totals |
| ContextRun.Context.RunTests | 3rd/cereal/unittests/doctest.h:5768-5893 | every test is either run or reported as skipped, in order, and the four totals are those of the tests that ran |
| ContextRun.Context.Run | 3rd/cereal/unittests/doctest.h:5765-5896 | the whole event trace of a run, ending with the true totals |
| XmlEncode.LeadByte | 3rd/cereal/unittests/doctest.h:4352-4376 | the masks recover length and payload of a lead byte; the internal errors occur exactly for bytes that cannot lead |
| XmlEncode.NextByte | 3rd/cereal/unittests/doctest.h:4459-4460 | the shift, or and masks append six bits, and accept exactly the continuation bytes |
| XmlEncode.ValueOfUtf8 | 3rd/cereal/unittests/doctest.h:4452-4461 | decoding the shortest form of a value as section 3 of RFC 3629 lays it out gives the value |
| XmlEncode.Utf8OfValue | 3rd/cereal/unittests/doctest.h:4452-4472 | bytes of the right pattern and a value that needs their length are that value's shortest form |
| XmlEncode.TestIsExact | 3rd/cereal/unittests/doctest.h:4463-4472 | the rejection test accepts exactly the shortest forms of 0x80..0x10FFFF and F0 80 A0 80 |
| XmlEncode.EncodeSequence | 3rd/cereal/unittests/doctest.h:4434-4482 | the bit-level loop finds exactly the acceptable sequences, never reads past the end and never reaches an internal error |
| XmlEncode.EncodeUnit | 3rd/cereal/unittests/doctest.h:4398-4483 | what is written for the byte at hand, and how many bytes it stands for |
| XmlEncode.EncodeTo | 3rd/cereal/unittests/doctest.h:4393-4485 | the loop writes the reference encoding, unit by unit |
| XmlEncode.EscapesMean | 3rd/cereal/unittests/doctest.h:4420-4482 | a byte is escaped exactly if it is one of the control characters, or has its high bit set and begins no acceptable sequence |
| XmlEncode.WrittenAt | 3rd/cereal/unittests/doctest.h:4393-4485 | in the output an escaped byte is `\x` and two characters from 0-9 and A-F that read as a base-16 number give the byte; an acceptable sequence and any other character stand for themselves |
| XmlEncode.MarksWrittenAt | 3rd/cereal/unittests/doctest.h:4398-4416 | `<`, `&`, `>` and `"` are written as their entities or as themselves, depending on what stands before and on the mode |
| XmlEncode.EscapeWritten | 3rd/cereal/unittests/doctest.h:4378-4384 | the same on the whole output: where the encoder comes to an escaped byte, the output reads as that escape followed by the rest |
| XmlEncode.AsciiIsMet | 3rd/cereal/unittests/doctest.h:4393-4485 | the encoder comes to every ASCII byte: none is swallowed by a sequence before it |
| XmlEncode.PassedThrough | 3rd/cereal/unittests/doctest.h:4434-4482 | a multi-byte sequence is passed through exactly if it is the shortest form of a value in 0x80..0x10FFFF or F0 80 A0 80 |
| XmlEncode.ExpandInvertsEncode | 3rd/cereal/unittests/doctest.h:4397-4416 | if nothing was hex-escaped, expanding the entities gives the text back, in both modes |
| XmlEncode.EncodingIsSafe | 3rd/cereal/unittests/doctest.h:4399-4431 | for every input the output holds no `<`, none of the escaped control characters and, in attributes, no `"`; only the empty text encodes to nothing |
| XmlEncode.RawSectionEnd | 3rd/cereal/unittests/doctest.h:4403-4409 | a raw `]]>` is in the output exactly if the input begins with one |
| XmlEncode.RawSectionEndWitness | 3rd/cereal/unittests/doctest.h:4403-4409 | the text `]]>` itself is such an input |
| XmlEncode.OverlongIsNotShortest | 3rd/cereal/unittests/doctest.h:4466-4469 | F0 80 A0 80 is the shortest form of no value |
| XmlEncode.SequenceIsLegal | 3rd/cereal/unittests/doctest.h:4463-4481 | a sequence that is passed through is a character of section 2.2 of XML 1.0 exactly if it is no surrogate, not U+FFFE or U+FFFF, and not F0 80 A0 80 |
| XmlEncode.UnitIsLegal | 3rd/cereal/unittests/doctest.h:4398-4483 | what is written for one byte or sequence is legal text exactly if nothing forbidden begins in it |
| XmlEncode.LegalOutput | 3rd/cereal/unittests/doctest.h:4393-4485 | the output is text that section 2.2 of XML 1.0 allows exactly if nowhere in the input there is a vertical tab, a form feed, a surrogate, U+FFFE, U+FFFF or F0 80 A0 80 |
| XmlScanner.ScannedTagsNest | 3rd/cereal/unittests/doctest.h:4525-4558 | whatever bytes are read, the tags seen nest, and the elements reported open are those the tags leave open |
| XmlScanner.WhiteAround | 3rd/cereal/unittests/doctest.h:4578-4588 | indentation and newlines around a text do not change the text that is read |
| XmlScanner.ScanStart | 3rd/cereal/unittests/doctest.h:4530-4538 | `<` and a name open a tag to the reader |
| XmlScanner.ScanAttribute | 3rd/cereal/unittests/doctest.h:4561-4576 | the bytes of an attribute are read back as its name and value |
| XmlScanner.ScanSelfClose | 3rd/cereal/unittests/doctest.h:4549-4552 | `/>` ends the open tag and its element |
| XmlScanner.ScanEnd | 3rd/cereal/unittests/doctest.h:4553-4555 | an end tag with the innermost name ends that element |
| XmlWriter.XmlWriter.constructor | 3rd/cereal/unittests/doctest.h:4520-4523 | after the declaration a reader has seen no element and nothing is open |
| XmlWriter.XmlWriter.EnsureTagClosed | 3rd/cereal/unittests/doctest.h:4607-4612 | the tag is closed, its element stays open |
| XmlWriter.XmlWriter.NewlineIfNecessary | 3rd/cereal/unittests/doctest.h:4618-4623 | a pending newline is written and means nothing to the reader |
| XmlWriter.XmlWriter.StartElement | 3rd/cereal/unittests/doctest.h:4530-4538 | the exact bytes; a reader sees one more start tag and exactly one more open element; the indent is two spaces per open element |
| XmlWriter.XmlWriter.EndElement | 3rd/cereal/unittests/doctest.h:4546-4559 | the exact bytes in both forms; a reader sees the innermost element end |
| XmlWriter.XmlWriter.WriteAttribute | 3rd/cereal/unittests/doctest.h:4561-4571 | a reader sees the encoded attribute, or nothing for an empty name or value |
| XmlWriter.XmlWriter.WriteBoolean | 3rd/cereal/unittests/doctest.h:4573-4576 | a reader sees `true` or `false` |
| XmlWriter.XmlWriter.WriteText | 3rd/cereal/unittests/doctest.h:4578-4588 | the exact bytes; whatever the text, the tags and attributes read are those before; as the first thing in an element it is read back trimmed, and later on it only lengthens the text under way |
| XmlWriter.XmlWriter.Close | 3rd/cereal/unittests/doctest.h:4525-4528 | the destructor ends all that is open, so after any legal calls the whole output nests |
| XmlWriter.XmlWriter.TagsAreOpen | 3rd/cereal/unittests/doctest.h:4530-4559 | in every valid state the tags written leave exactly the stacked elements open |
| XmlReport.BodyBecomes | 3rd/cereal/unittests/doctest.h:4795-4849 | the events of one run of a body become the nested `SubCase`, `Expression` and `Message` elements of that run |
| XmlReport.RunsBecome | 3rd/cereal/unittests/doctest.h:4771-4805 | so do all runs of a body one after another; re-entering leaves no mark |
| XmlReport.CaseBecomes | 3rd/cereal/unittests/doctest.h:4766-4785 | the events of a test case become its `TestCase` element with its results last |
| XmlReport.SuitesGroup | 3rd/cereal/unittests/doctest.h:4659-4675 | opening and ending a suite whenever the name changes groups neighbouring test cases into `TestSuite` elements |
| XmlReport.TestsBecome | 3rd/cereal/unittests/doctest.h:4659-4857 | the events of all tests, skipped ones included, become the listed entries |
| XmlReport.ReportIsDocument | 3rd/cereal/unittests/doctest.h:4722-4857 | the tags for the whole trace of a run are those of one `doctest` element built from the tests |
| XmlReport.FlattenNests | 3rd/cereal/unittests/doctest.h:4722-4857 | the tags of an element leave open what was open before it |
| XmlReadBack.AttributeReadBack | 3rd/cereal/unittests/doctest.h:4561-4571 | an attribute value in which nothing was hex-escaped is read back exactly |
| XmlReadBack.WordsReadBack | 3rd/cereal/unittests/doctest.h:4578-4588 | so is a text, without the white space around it |
| XmlReadBack.ExpandTrim | 3rd/cereal/unittests/doctest.h:4399-4416 | expanding entities and trimming can be done in either order |
| XmlReadBack.OriginalReadBack | 3rd/cereal/unittests/doctest.h:4722-4857 | expanding what was read from a document gives the document with its entities expanded |
| XmlReadBack.WordedReadBack | 3rd/cereal/unittests/doctest.h:4819-4849 | an element written with a text holds the original text |
| XmlReadBack.UnescapeReadsBack | 3rd/cereal/unittests/doctest.h:4378-4485 | a reader that undoes entities and escapes gets any text back, in both modes, exactly if the text holds no `\x` with two hexadecimal digits of its own |
| Numbers.DecimalReadsBack | 3rd/cereal/unittests/doctest.h:4313-4318 | a left-to-right reader gets every number back; a minus sign is there exactly for negative ones, all else are digits, and there is no leading zero |
| XmlContents.FindNumberIn | 3rd/cereal/unittests/doctest.h:4313-4318 | a reader that looks a number attribute up by its name gets the number |
| XmlContents.FindText | 3rd/cereal/unittests/doctest.h:4561-4571 | one that looks a text up gets it, or nothing for an empty one, exactly if it holds nothing that looks like an escape |
| XmlContents.FindFlag | 3rd/cereal/unittests/doctest.h:4573-4576 | a flag is found as `true` or `false` |
| XmlContents.FindPlace | 3rd/cereal/unittests/doctest.h:4680-4682 | file and line are found; the line is 0 if line numbers are not wanted |
| XmlContents.OptionsRead | 3rd/cereal/unittests/doctest.h:4735-4744 | each of the nine options is found under its own name |
| XmlContents.RootRead | 3rd/cereal/unittests/doctest.h:4726-4733 | the program is found, and its version unless that is not wanted |
| XmlContents.CaseRead | 3rd/cereal/unittests/doctest.h:4677-4688 | everything about a test case is found under its own name, and the marks of its decorators exactly if they are set |
| XmlContents.SkippedRead | 3rd/cereal/unittests/doctest.h:4851-4857 | a test case is marked as skipped exactly if it did not run |
| XmlContents.SubCaseRead | 3rd/cereal/unittests/doctest.h:4795-4803 | name and place of a subcase are found |
| XmlContents.ExpressionRead | 3rd/cereal/unittests/doctest.h:4814-4818 | outcome, kind and place of an assertion are found |
| XmlContents.PartsRead | 3rd/cereal/unittests/doctest.h:4819-4832 | each part of an assertion is there exactly if it applies, with all active contexts behind in their order |
| XmlContents.ReportedLogs | 3rd/cereal/unittests/doctest.h:4807-4849 | an assertion is reported exactly if it fails or successes are wanted, a message always |
| XmlContents.CaseResultsRead | 3rd/cereal/unittests/doctest.h:4773-4785 | the counts of a test case are found, and its expected failures exactly if there are any |
| XmlContents.CasesResultsRead | 3rd/cereal/unittests/doctest.h:4755-4761 | so are those of the run, and the number of skipped test cases unless that is not wanted |
| XmlContents.SuitesHoldAll | 3rd/cereal/unittests/doctest.h:4659-4675 | the suites hold all reported test cases in order, each in a suite of its own suite's name, and a new suite begins exactly where the name changes |
| XmlContents.EntriesRead | 3rd/cereal/unittests/doctest.h:5768-5893 | the test cases reported as run are those that ran, in order; with the summary of skipped ones every test case is listed |
| XmlReporter.XmlReporter.LogContexts | 3rd/cereal/unittests/doctest.h:4644-4655 | one `Info` element with its text per active context, in order |
| XmlReporter.XmlReporter.OptionAttributes | 3rd/cereal/unittests/doctest.h:4735-4744 | the nine options, each under its own name and in order |
| XmlReporter.XmlReporter.ChangeSuite | 3rd/cereal/unittests/doctest.h:4660-4674 | the open suite ends exactly if the next test case belongs to another, and that one begins |
| XmlReporter.XmlReporter.CaseAttributes | 3rd/cereal/unittests/doctest.h:4677-4688 | name, place and description of the test case, and its decorators as far as they are set |
| XmlReporter.XmlReporter.TestCaseStartImpl | 3rd/cereal/unittests/doctest.h:4659-4689 | suite change, then the open `TestCase` tag with all its attributes; the test case is remembered |
| XmlReporter.XmlReporter.TestRunStart | 3rd/cereal/unittests/doctest.h:4722-4745 | the open `doctest` element with a complete `Options` element in it |
| XmlReporter.XmlReporter.ResultElements | 3rd/cereal/unittests/doctest.h:4751-4761 | the two elements with the totals of the run |
| XmlReporter.XmlReporter.TestRunEnd | 3rd/cereal/unittests/doctest.h:4747-4764 | the last suite, if any, ends, the totals follow, and `doctest` ends |
| XmlReporter.XmlReporter.TestCaseStart | 3rd/cereal/unittests/doctest.h:4766-4769 | a `TestCase` element is open afterwards |
| XmlReporter.XmlReporter.TestCaseEnd | 3rd/cereal/unittests/doctest.h:4773-4785 | the counts of the test case, then its end |
| XmlReporter.XmlReporter.SubcaseStart | 3rd/cereal/unittests/doctest.h:4795-4803 | a `SubCase` element with name and place is open afterwards |
| XmlReporter.XmlReporter.SubcaseEnd | 3rd/cereal/unittests/doctest.h:4805 | the innermost element, which is that `SubCase`, ends |
| XmlReporter.XmlReporter.AssertionElements | 3rd/cereal/unittests/doctest.h:4819-4829 | expression, exception, expected exception, expected message and expansion, each in its own element and only where it applies |
| XmlReporter.XmlReporter.LogAssert | 3rd/cereal/unittests/doctest.h:4807-4834 | nothing for an unwanted success; otherwise an `Expression` element with each text in its own element |
| XmlReporter.XmlReporter.LogMessage | 3rd/cereal/unittests/doctest.h:4836-4849 | a `Message` element with its text and contexts |
| XmlReporter.XmlReporter.TestCaseSkipped | 3rd/cereal/unittests/doctest.h:4851-4857 | a complete `TestCase` element marked as skipped, unless skipped ones are not wanted |
| XmlReporter.XmlReporter.Notify | 3rd/cereal/unittests/doctest.h:4659-4857 | for every event the reader sees exactly the tags laid down for it |
| XmlReporter.XmlReporter.Report | 3rd/cereal/unittests/doctest.h:5765-5896 | so for every trace whose tags nest |
| XmlReporter.WriteReport | 3rd/cereal/unittests/doctest.h:5765-5896 | running any tests and reporting them writes bytes in which a reader finds exactly the document of the tests that ran, with nothing left open; expanding entities, it finds that document expanded |
| XmlReporter.DocumentNests | 3rd/cereal/unittests/doctest.h:4722-4857 | that document is well nested |
| DoctestString.Grown | 3rd/cereal/unittests/doctest.h:3095-3097 | doubling in 32 bits always ends above the needed size; a wrapped or too small result is replaced by size + 1 |
| DoctestString.LastByte | 3rd/cereal/unittests/doctest.h:480 | the flag bit splits the last byte's values at 128, and the mask gives the remaining capacity |
| DoctestString.String.constructor | 3rd/cereal/unittests/doctest.h:3027-3030 | a new string is empty and in the buffer |
| DoctestString.String.FromChars | 3rd/cereal/unittests/doctest.h:3040-3051 | it holds exactly the given characters |
| DoctestString.String.Init | 3rd/cereal/unittests/doctest.h:3040-3051 | in both branches the packed size, or the size and capacity on the heap, agree with the contents |
| DoctestString.String.CopyToHeap | 3rd/cereal/unittests/doctest.h:3019-3023 | the flag survives writing the pointer view over the buffer; the block is new and just large enough |
| DoctestString.String.Clear | 3rd/cereal/unittests/doctest.h:3119-3120 | the string is empty and in the buffer, whatever it was |
| DoctestString.String.CopyFrom | 3rd/cereal/unittests/doctest.h:3015-3025 | the contents of the other string, in a block of its own if on the heap |
| DoctestString.String.Copy | 3rd/cereal/unittests/doctest.h:3053 | a copy shares nothing with the original |
| DoctestString.String.TakeFrom | 3rd/cereal/unittests/doctest.h:3118-3120 | the contents and any block change hands; the other string is empty and valid |
| DoctestString.String.Move | 3rd/cereal/unittests/doctest.h:3117-3121 | the same, for a new string |
| DoctestString.String.Assign | 3rd/cereal/unittests/doctest.h:3055-3064 | the contents of the other string, which keeps its own; assigning a string to itself changes nothing |
| DoctestString.String.MoveAssign | 3rd/cereal/unittests/doctest.h:3123-3132 | the contents of the other string, which is empty afterwards; moving a string to itself changes nothing |
| DoctestString.String.Size | 3rd/cereal/unittests/doctest.h:3145-3149 | the length of the contents, from either representation |
| DoctestString.String.Capacity | 3rd/cereal/unittests/doctest.h:3152-3156 | more than the length; 24 exactly for strings shorter than 24 |
| DoctestString.String.At | 3rd/cereal/unittests/doctest.h:3134-3142 | reading a character, the terminator included |
| DoctestString.String.SetAt | 3rd/cereal/unittests/doctest.h:3138-3142 | assigning to a character changes that one and nothing else, in either representation |
| DoctestString.String.CStr | 3rd/cereal/unittests/doctest.h:507-512 | the contents followed by a zero byte |
| DoctestString.String.AppendOnStack | 3rd/cereal/unittests/doctest.h:3071-3074 | stays in the buffer, even with all 23 characters used |
| DoctestString.String.LeaveStack | 3rd/cereal/unittests/doctest.h:3075-3087 | the characters are saved before the union is overwritten |
| DoctestString.String.AppendOnHeap | 3rd/cereal/unittests/doctest.h:3089-3092 | the block is kept and its capacity unchanged |
| DoctestString.String.GrowOnHeap | 3rd/cereal/unittests/doctest.h:3093-3109 | a new block of the grown capacity holds both parts |
| DoctestString.String.Append | 3rd/cereal/unittests/doctest.h:3066-3113 | whichever branch is taken, the contents are the two concatenated and the other string is unchanged |
| DoctestString.String.Plus | 3rd/cereal/unittests/doctest.h:3115 | a new string with the two contents concatenated |
| MultipartCodec.NetworkOrderInverse | 3rd/cppzmq/zmq_addon.hpp:77-102 | four bytes read as a length exactly if they are what is written for it |
| MultipartCodec.HeaderLayout | 3rd/cppzmq/zmq_addon.hpp:77-98 | the size in front of a part is one byte below 0xFF, and otherwise 0xFF and four bytes that read from left to right to the base 256 give the size |
| MultipartCodec.WriteNetworkOrder | 3rd/cppzmq/zmq_addon.hpp:77-88 | the four bytes, most significant first, and no others change |
| MultipartCodec.EncodedSize | 3rd/cppzmq/zmq_addon.hpp:222-234 | fails exactly if some part has 2^32 bytes or more; otherwise the exact size of the encoding |
| MultipartCodec.WritePart | 3rd/cppzmq/zmq_addon.hpp:239-253 | size and bytes of one part, behind what was written before |
| MultipartCodec.Encode | 3rd/cppzmq/zmq_addon.hpp:220-258 | fills the buffer found by the first pass exactly, never outside it, with the framing of the parts; fails exactly if a part is too large |
| MultipartCodec.Decode | 3rd/cppzmq/zmq_addon.hpp:275-302 | for any bytes the parts and the error of the reference decoding, reading only inside the buffer; parts found before an error are delivered |
| MultipartCodec.RoundTrip | 3rd/cppzmq/zmq_addon.hpp:220-302 | decoding an encoding, with any bytes behind it, gives its parts and goes on behind it |
| MultipartCodec.DecodeInvertsEncode | 3rd/cppzmq/zmq_addon.hpp:220-302 | decoding an encoding gives back the parts and consumes all of it |
| MultipartCodec.DecodesFramings | 3rd/cppzmq/zmq_addon.hpp:275-302 | decoding succeeds with given parts exactly if the bytes can be cut into frames of these parts, under either header |
| MultipartCodec.ConsumedPrefixDecodes | 3rd/cppzmq/zmq_addon.hpp:280-298 | the parts delivered before an error are the decoding of the bytes consumed |
| MultipartCodec.ConsumedPrefixIsLongest | 3rd/cppzmq/zmq_addon.hpp:280-298 | no longer prefix decodes |
| MultipartCodec.EncodeAfterDecode | 3rd/cppzmq/zmq_addon.hpp:202-302 | encoding what was decoded never makes it longer, and gives it back exactly if no five-byte header carries a length below 255 |
| MultipartSocket.MessagesFirst | 3rd/cppzmq/zmq_addon.hpp:177-188 | the parts of a message, marked as they are sent, are found as the first message in front of whatever follows |
| MultipartSocket.MessagesConcat | 3rd/cppzmq/zmq_addon.hpp:177-188 | messages already sent are not disturbed by later ones |
| MultipartSocket.FramesFuse | 3rd/cppzmq/zmq_addon.hpp:179-180 | parts sent with `sndmore` and the parts after them are one message |
| MultipartSocket.SendMultipart | 3rd/cppzmq/zmq_addon.hpp:169-190 | all parts or none; a message becomes receivable with its last part, together with parts sent before with `sndmore`; the assertion on failure holds |
| MultipartSocket.RecvMultipartN | 3rd/cppzmq/zmq_addon.hpp:45-69 | takes exactly the first message; with a limit it throws exactly if the limit is 0 or there are more parts, with that many parts written; the assertion on failure holds |
| MultipartSocket.PerformSend | 3rd/cppzmq/zmq_addon.hpp:169-190 | sending by function or by object does to the frames on the wire what it does to the messages: parts wait, join the ones waiting, or are refused |
| MultipartSocket.PerformReceive | 3rd/cppzmq/zmq_addon.hpp:45-69 | receiving by function, with or without a limit, or by object takes the first message, or the parts it had taken before it threw |
| MultipartSocket.NothingLost | 3rd/cppzmq/zmq_addon.hpp:45-190 | in any conversation the messages received and left over, with the parts of receives that threw put back, are exactly those the sends made, each with the parts sent open before it |
| MultipartSocket.WholeMessagesKept | 3rd/cppzmq/zmq_addon.hpp:169-190 | if each send ends a non-empty message and has room these are the messages sent |
| MultipartSocket.Exchange | 3rd/cppzmq/zmq_addon.hpp:45-190 | any conversation on real objects, with `send` and `send_multipart`, `recv`, `recv_multipart` and `recv_multipart_n` interleaved: every receive gives what a queue of messages would give, and what is received in all is what the sends made |
| MultipartSocket.Multipart.Recv | 3rd/cppzmq/zmq_addon.hpp:396-413 | the parts are replaced by the first message, or by nothing |
| MultipartSocket.Multipart.Send | 3rd/cppzmq/zmq_addon.hpp:416-434 | the parts go out as the end of a message and the object is empty; without room the first part is lost and the rest kept |
| MultipartSocket.Multipart.Pop | 3rd/cppzmq/zmq_addon.hpp:521-526 | the first part |
| MultipartSocket.Multipart.Remove | 3rd/cppzmq/zmq_addon.hpp:529-534 | the last part |
| MultipartSocket.Multipart.Prepend | 3rd/cppzmq/zmq_addon.hpp:437-441 | the other message's parts in front, in their order |
| MultipartSocket.Multipart.Append | 3rd/cppzmq/zmq_addon.hpp:444-448 | the other message's parts behind, in their order |
| ActivePoller.ListHandlers | 3rd/cppzmq/zmq_addon.hpp:709-713 | every handler of the map is listed, and nothing else |
| ActivePoller.ActivePoller.Add | 3rd/cppzmq/zmq_addon.hpp:674-691 | registration and map grow together, or, on any of the three failures, neither changes |
| ActivePoller.ActivePoller.Remove | 3rd/cppzmq/zmq_addon.hpp:693-698 | both shrink together, or neither changes |
| ActivePoller.ActivePoller.Modify | 3rd/cppzmq/zmq_addon.hpp:700-703 | only the events of a registration change |
| ActivePoller.ActivePoller.Perform | 3rd/cppzmq/zmq_addon.hpp:674-703 | any sequence of additions, removals and changes by a handler keeps map and registrations in agreement and leaves the list of owned handlers alone |
| ActivePoller.ActivePoller.Rebuild | 3rd/cppzmq/zmq_addon.hpp:707-715 | after sockets came or went the list is made again from the map |
| ActivePoller.ActivePoller.WaitAll | 3rd/cppzmq/zmq_addon.hpp:716 | the pointers that come back for the ready sockets are those of the handlers in the map |
| ActivePoller.ActivePoller.Wait | 3rd/cppzmq/zmq_addon.hpp:705-724 | the handlers called are those registered for the ready sockets, in order, and each is still owned when the dispatch ends, whatever the handlers did to the poller |
| Broadcast.StepKeeps | include/tmss/RpcAsyncBroadcast.hpp:196-270 | every step of a call, an answer, a reply, a timeout, a loss or a delivery keeps the invariant |
| Broadcast.RunKeeps | include/tmss/RpcAsyncBroadcast.hpp:196-270 | so does every run |
| Broadcast.ReplyIsOwn | include/tmss/RpcAsyncBroadcast.hpp:224-242 | a reply that reaches a waiting caller answers the very call it waits for, and says truly whether that call was published |
| Broadcast.NodesRunTheLog | include/tmss/RpcAsyncBroadcast.hpp:261-270 | in every run each node has run an in-order part of the publish log, each publication at most once, only under names bound there, and with the caller's arguments |
| Broadcast.NodesRunWhatArrives | include/tmss/RpcAsyncBroadcast.hpp:261-270 | after any run from the start, a node has run exactly the publications that were delivered to it and are bound there, in the order of delivery |
| Broadcast.NothingMissed | include/tmss/RpcAsyncBroadcast.hpp:266-269 | so a publication that is bound at a node has been run there exactly if it was delivered |
| Broadcast.LogGrows | include/tmss/RpcAsyncBroadcast.hpp:247-258 | what has been published stays published, in its place |
| Broadcast.CallCompletes | include/tmss/RpcAsyncBroadcast.hpp:196-258 | whatever has happened before, an idle node can make a call, and if nothing is lost it ends, with success exactly if the server has the name bound; then this call alone is published, once, and otherwise nothing |
| Broadcast.DeliveryRuns | include/tmss/RpcAsyncBroadcast.hpp:261-270 | a publication can be delivered to any node that has not gone past it, which then runs it exactly if it is bound there; no other node runs anything |
| Broadcast.AllCanBeLost | include/tmss/RpcAsyncBroadcast.hpp:206-222 | at any time everything under way can be lost and every caller can give up; then nothing is under way, nothing more was published or run, and the calls concerned timed out |
| Broadcast.NodesAgreeOnOrder | include/tmss/RpcAsyncBroadcast.hpp:261-270 | no two nodes run two publications in opposite orders |
| Broadcast.OutcomesTell | include/tmss/RpcAsyncBroadcast.hpp:205-258 | success means published exactly once, not found means never, timeout means at most once, and a name mismatch never happens |
| Broadcast.OutcomesTellBinding | include/tmss/RpcAsyncBroadcast.hpp:224-258 | a call succeeds only if the server has its name bound, and is not found only if it has not |
| Broadcast.OneRequestPerInstance | include/tmss/RpcAsyncBroadcast.hpp:206-222 | in every run each requester instance, in use or replaced, has at most one unanswered request |
| Broadcast.CallsKeepOrder | include/tmss/RpcAsyncBroadcast.hpp:205-258 | calls of one node are published in the order made, unless the earlier one timed out |
| Broadcast.LatePublication | include/tmss/RpcAsyncBroadcast.hpp:209-221 | a reachable state in which a timed-out call is published after a later call of the same node |
| CallMessages.NameRoundTrip | include/tmss/serializer/FunctionSerializer.hpp:10-36 | the name at the front of a message is read back on a machine of any byte order, whatever follows it |
| CallMessages.ArgumentsRoundTrip | include/tmss/serializer/FunctionSerializer.hpp:10-36 | and so are arguments that fit the parameters |
| BroadcastMessages.ServerFollowsProtocol | include/tmss/RpcAsyncBroadcast.hpp:247-258 | on bytes the server publishes and replies as the protocol's step says |
| BroadcastMessages.CallerFollowsProtocol | include/tmss/RpcAsyncBroadcast.hpp:224-242 | on bytes the caller concludes what the protocol's step says |
| BroadcastMessages.PublicationRunsCall | include/tmss/RpcAsyncBroadcast.hpp:299-306 | a published call runs the function bound under its name with the arguments it was made with, on machines of any byte order, and nothing where none is bound |
| BroadcastMessages.DeliverFollowsProtocol | include/tmss/RpcAsyncBroadcast.hpp:261-306 | on bytes a delivery counts as run exactly if the handler runs a function, and that is the one bound under the name, on the arguments that were serialized |
| BroadcastMessages.NodesRunTheCalls | include/tmss/RpcAsyncBroadcast.hpp:261-306 | in every run, whatever a node runs is its function for some call, with that call's own arguments |
| BroadcastNode.RpcAsyncBroadcast.constructor | include/tmss/RpcAsyncBroadcast.hpp:17-46 | a new node is stopped and holds nothing |
| BroadcastNode.RpcAsyncBroadcast.StartServer | include/tmss/RpcAsyncBroadcast.hpp:73-85 | creates a publisher and a running responder, each as far as possible |
| BroadcastNode.RpcAsyncBroadcast.StartSubscriber | include/tmss/RpcAsyncBroadcast.hpp:94-106 | a subscriber that could be created is running, also with a rejected timeout |
| BroadcastNode.RpcAsyncBroadcast.StartRequester | include/tmss/RpcAsyncBroadcast.hpp:107-115 | a requester that could be created is held, also with a rejected timeout |
| BroadcastNode.RpcAsyncBroadcast.StartClient | include/tmss/RpcAsyncBroadcast.hpp:93-116 | both of these, successful only together |
| BroadcastNode.RpcAsyncBroadcast.Start | include/tmss/RpcAsyncBroadcast.hpp:48-119 | refused without effect if started already or without a role; otherwise the handles are exactly the instances created, a client has no publisher or responder, and success means nothing failed |
| BroadcastNode.RpcAsyncBroadcast.EndThreads | include/tmss/RpcAsyncBroadcast.hpp:127-143 | the threads of a started node can always be ended |
| BroadcastNode.RpcAsyncBroadcast.DiscardAll | include/tmss/RpcAsyncBroadcast.hpp:145-164 | destroys exactly the instances held and forgets them |
| BroadcastNode.RpcAsyncBroadcast.Stop | include/tmss/RpcAsyncBroadcast.hpp:121-170 | afterwards the node holds nothing, its addresses are empty and exactly its instances are gone; it reports success exactly if the node had been started |
| BroadcastNode.RpcAsyncBroadcast.CallFunc | include/tmss/RpcAsyncBroadcast.hpp:196-243 | a timeout replaces the requester by a new instance and destroys the old one; a reply is understood as the protocol says and replaces nothing |
| BroadcastNode.RpcAsyncBroadcast.BindFunc | include/tmss/RpcAsyncBroadcast.hpp:182-187 | the name now has this function, whatever it had before |
| BroadcastNode.RpcAsyncBroadcast.ResponseProcess | include/tmss/RpcAsyncBroadcast.hpp:247-258 | the handler publishes the request unchanged exactly if its name is bound, and answers accordingly |
| BroadcastNode.RpcAsyncBroadcast.SubscribeProcess | include/tmss/RpcAsyncBroadcast.hpp:261-270 | the handler runs the function bound under the envelope on the decoded arguments, or nothing |
| BroadcastNode.RpcAsyncBroadcast.ReceiveProcess | include/tmss/RpcAsyncBroadcast.hpp:35-45 | counts receive timeouts in a row |
| BroadcastNode.OtherNodeKept | include/tmss/RpcAsyncBroadcast.hpp:48-243 | what one node does leaves the handles of another valid and its own |
| BroadcastNode.ActAmong | include/tmss/RpcAsyncBroadcast.hpp:48-243 | with several nodes in one process, one operation keeps the instances that exist equal to those held, each held once |
| BroadcastNode.RunScript | include/tmss/RpcAsyncBroadcast.hpp:48-243 | so does any sequence of starts, stops and calls on any of the nodes |
| Communicators.Communicator.Create | include/tmss/communicator/Communicator.hpp:84-100 | a new instance that never existed, or null and no change |
| Communicators.Communicator.DestroyInstance | include/tmss/communicator/Communicator.hpp:56-73 | removes the instance, and says whether there was one |
| Communicators.Communicator.StartThread | include/tmss/communicator/reqrep/Responder.hpp:13-45 | refused exactly if the thread exists |
| Communicators.Communicator.EndThread | include/tmss/communicator/reqrep/Responder.hpp:47-77 | refused exactly if it does not |
| Communicators.AddressReadsBack | include/tmss/RpcProcessRequest.hpp:22 | an address is the host, a colon, and a port that is read back |
| Communicators.AddressesDiffer | include/tmss/RpcAsyncBroadcast.hpp:61-62 | different hosts or ports have different addresses |
| Serializer.OrderIsKept | 3rd/cereal/include/cereal/archives/portable_binary.hpp:222-230 | an archive is read in the byte order it was written in, on any machine |
| Serializer.NumberInverse | 3rd/cereal/include/cereal/archives/portable_binary.hpp:239-254 | a number is read back in that order |
| Serializer.LittleEndianDigits | 3rd/cereal/include/cereal/archives/portable_binary.hpp:239-254 | in little-endian order byte i of a number is its digit i to the base 256 |
| Serializer.FlagIsFirstByteOfOne | 3rd/cereal/include/cereal/archives/portable_binary.hpp:42-46 | the first byte of an archive is what its machine finds in the first byte of the number 1 |
| Serializer.RoundTrip | include/tmss/serializer/FunctionSerializer.hpp:10-36 | every value of every type is read back in either byte order, whatever follows it |
| Serializer.RoundTripMany | include/tmss/serializer/FunctionSerializer.hpp:10-36 | so is every list of values of one type |
| Serializer.RoundTripFields | include/tmss/serializer/FunctionSerializer.hpp:10-36 | so are the fields of a tuple, or the arguments of a call |
| Serializer.DecodesEncodings | include/tmss/serializer/FunctionSerializer.hpp:10-36 | decoding a type succeeds with a value exactly if the value has the type and the bytes begin with its encoding; the rest is what follows |
| Serializer.SizelessIsEmpty | include/tmss/RpcBasicTemplate.hpp:21-32 | a value takes up no bytes exactly if its type is made of empty tuples |
| Serializer.EncodedWidth | 3rd/cereal/include/cereal/archives/portable_binary.hpp:130-155 | a byte takes one byte, a 32-bit number four, a string or list eight for its length and then what it holds, and a tuple nothing of its own |
| RpcProcess.RpcProcessResponse.StartProcess | include/tmss/RpcProcessResponse.hpp:22-39 | refused if started; otherwise succeeds exactly if the responder can be set up, which then runs |
| RpcProcess.RpcProcessResponse.StopProcess | include/tmss/RpcProcessResponse.hpp:41-57 | destroys exactly the responder held and succeeds exactly if there was one |
| RpcProcess.RpcProcessResponse.BindFunc | include/tmss/RpcProcessResponse.hpp:59-64 | the name now has this function |
| RpcProcess.RpcProcessResponse.ExecFunc | include/tmss/RpcProcessResponse.hpp:74-88 | the reply to any request, malformed ones and those from machines of the other byte order included |
| RpcProcess.RpcProcessResponse.CallProxyImpl | include/tmss/RpcProcessResponse.hpp:121-135 | the name is read again and echoed with the result on the decoded arguments |
| RpcProcess.RpcProcessRequest.ConnectNetwork | include/tmss/RpcProcessRequest.hpp:16-36 | succeeds exactly if not connected and both steps work; a rejected timeout leaves nothing behind, and the address is saved only on success |
| RpcProcess.RpcProcessRequest.DisconnectNetwork | include/tmss/RpcProcessRequest.hpp:38-48 | destroys exactly the requester held and succeeds exactly if there was one |
| RpcProcess.RpcProcessRequest.SetAutoReconnectNetwork | include/tmss/RpcProcessRequest.hpp:50-56 | sets the flag and nothing else |
| RpcProcess.RpcProcessRequest.CallFunc | include/tmss/RpcProcessRequest.hpp:65-114 | after a timeout the requester is replaced exactly if that is wanted; a reply is understood in two stages |
| RpcProcess.FirstStage | include/tmss/RpcProcessRequest.hpp:93-104 | reading a reply as one without a result sees the right name and code, and throws exactly for results without bytes |
| RpcProcess.SecondStage | include/tmss/RpcProcessRequest.hpp:110-113 | reading it with its own result type recovers the result |
| RpcProcess.AnswerToCall | include/tmss/RpcProcessResponse.hpp:74-135 | a well-typed call is answered with the bound function's result, or as not found |
| RpcProcess.RemoteIsLocal | include/tmss/RpcProcessRequest.hpp:65-114 | a remote call between machines of any byte order returns exactly the local result, not found exactly without a binding, and throws exactly for results without bytes |
| RpcProcess.OtherReplyIsMismatch | include/tmss/RpcProcessRequest.hpp:93-99 | a reply to a call of another function is recognised, except that one without bytes for its value throws |

## Left out

The test runner:

- Exceptions from test bodies, a failing `REQUIRE` among them, `abort_after`, timeouts and signals; only `ContextRun.Finalize` knows that they may have happened.
- Subcases that repeat a sibling's signature, as in loops; the tree must have distinct siblings.
- Nesting deeper than 2^31 levels; the level mark is unbounded here.
- Query modes, command line parsing, sorting and shuffling the tests (they are taken in a given order), paths cut from file names, the platform's ending of the binary name.
- XmlReporter.XmlReporter.TestCaseEnd: does not write the `duration` attribute; clocks are not modelled.
- The console and debug-window reporters, and several reporters at once.
- Case folding is that of ASCII; other locales are not modelled.
- The kinds of an assertion are given as truth values, not as bits of `assertType`.
- The reader trims spaces and newlines around a text, so white space there is not told apart.
- Some branches are methods of their own here: those of `encodeTo`, of `operator+=` and of the reporter's events.

`String`:

- `s += s`, comparison, and giving back of memory; a string is never released here.
- A total length of 2^32 - 1 or more; the sum of two lengths is assumed to fit.
- DoctestString.String.CStr: returns the bytes that can be read through the pointer, not the pointer, so writing through it is not modelled.

Multipart messages and the poller:

- Big-endian machines, where lengths are copied as they are; shifts and masks of a length are written as division and remainder.
- Total sizes of 2^64 or more.
- MultipartSocket.Multipart.Prepend: the other message must be another object; given itself the loop of the source never ends, which is not modelled.
- MultipartSocket.Multipart.Append: the same.
- Who owns the memory of a `message_t`; parts are byte strings. The typed and string forms of push and pop.
- Moving a poller, a handler that waits on its own poller, and exceptions from handlers.
- Which sockets `wait_all` reports, and in what order, is a parameter of `Wait`.

Remote calls:

- BroadcastNode.RpcAsyncBroadcast.ResponseProcess: a server whose publisher could not be set up but whose responder could is excluded when the name is bound; the source follows a null pointer there.
- A null requester after a reconnection that fails; the source follows it too.
- Calls made from several threads on one node, and bindings that change during a run.
- Nodes that stop and start while others go on; the protocol begins with all nodes started.
- The user's callback for receive timeouts, and what bound functions do besides returning a value.
- Of the supported value types: bytes, 32-bit numbers, strings, lists and tuples. Floating point and maps are not modelled.
- The four instance tables of `Communicator` are one table here, with the kind of each instance.
- The timeouts themselves; when one happens is a parameter.
