/**
  The document an XML report should be: a tree of elements built from the tests that ran,
  and its tags in order.  How the reporter gets there event by event is `XmlReporter`.
 */
module XmlReport {
  import opened Common
  import opened TestModel
  import opened SubcaseTree
  import opened SubcaseFilters
  import opened SubcaseRunner
  import opened XmlScanner
  import opened XmlNames
  import XmlWriter
  import ContextRun

  datatype Options = Options(
    binary: CString, noVersion: bool, version: CString, orderBy: CString, randSeed: nat, first: nat, last: nat,
    abortAfter: int, subcaseLevels: int, caseSensitive: bool, noThrow: bool, noSkip: bool,
    success: bool, noLineNumbers: bool, noSkippedSummary: bool)

  /** An element: its attributes, or the text it holds, and then the elements in it. */
  datatype Element = Element(name: Bytes, attributes: seq<InnerEvent>, kids: seq<Element>)

  function Flatten(e: Element): seq<XmlEvent> {
    [Start(e.name)] + e.attributes + FlattenAll(e.kids) + [End(e.name)]
  }

  function FlattenAll(es: seq<Element>): seq<XmlEvent> {
    if es == [] then [] else Flatten(es[0]) + FlattenAll(es[1..])
  }

  lemma {:induction false} FlattenConcat(a: seq<Element>, b: seq<Element>)
    ensures FlattenAll(a + b) == FlattenAll(a) + FlattenAll(b)
    decreases |a|
  {
    hide Flatten;
    if a == [] {
      assert a + b == b;
    } else {
      FlattenConcat(a[1..], b);
      assert (a + b)[0] == a[0] && (a + b)[1..] == a[1..] + b;
    }
  }

  lemma FlattenOne(e: Element)
    ensures FlattenAll([e]) == Flatten(e)
  {
    assert [e][1..] == [];
    assert Flatten(e) + [] == Flatten(e);
  }

  // ----- Elements

  ghost function Text(name: Bytes, value: CString): seq<InnerEvent> {
    XmlWriter.AttributeEvents(name, Ascii(value))
  }

  ghost function Number(name: Bytes, value: int): seq<InnerEvent> {
    XmlWriter.AttributeEvents(name, Decimal(value))
  }

  ghost function Flag(name: Bytes, value: bool): seq<InnerEvent> {
    [Attribute(name, if value then XmlWriter.TRUE_TEXT else XmlWriter.FALSE_TEXT)]
  }

  function LineOf(line: int, o: Options): int {
    if o.noLineNumbers then 0 else line
  }

  ghost function Place(file: CString, line: int, o: Options): seq<InnerEvent> {
    Text(FILENAME, file) + Number(LINE, LineOf(line, o))
  }

  /** An element with a text. */
  ghost function Worded(name: Bytes, text: CString): Element {
    Element(name, XmlWriter.WordEvents(Ascii(text)), [])
  }

  ghost function OptionAttributes(o: Options): seq<InnerEvent> {
    Text(ORDER_BY, o.orderBy) + Number(RAND_SEED, o.randSeed) + Number(FIRST, o.first)
    + Number(LAST, o.last) + Number(ABORT_AFTER, o.abortAfter)
    + Number(SUBCASE_FILTER_LEVELS, o.subcaseLevels) + Flag(CASE_SENSITIVE, o.caseSensitive)
    + Flag(NO_THROW, o.noThrow) + Flag(NO_SKIP, o.noSkip)
  }

  ghost function OptionsElement(o: Options): Element {
    Element(OPTIONS_ELEMENT, OptionAttributes(o), [])
  }

  ghost function RootAttributes(o: Options): seq<InnerEvent> {
    Text(BINARY, o.binary) + if o.noVersion then [] else Text(VERSION, o.version)
  }

  ghost function Contexts(contexts: seq<CString>): seq<Element> {
    if contexts == [] then [] else [Worded(INFO_ELEMENT, contexts[0])] + Contexts(contexts[1..])
  }

  ghost function MessageElement(log: Log, o: Options): Element
    requires log.Message?
  {
    Element(MESSAGE_ELEMENT, Text(TYPE, log.kind) + Place(log.file, log.line, o),
            [Worded(TEXT_ELEMENT, log.text)] + Contexts(log.contexts))
  }

  ghost function ExpressionElement(log: Log, o: Options): Element
    requires log.Assertion?
  {
    Element(EXPRESSION_ELEMENT, ExpressionAttributes(log, o), AssertionKids(log) + Contexts(log.contexts))
  }

  ghost function ExpressionAttributes(log: Log, o: Options): seq<InnerEvent>
    requires log.Assertion?
  {
    Flag(SUCCESS, !log.failed) + Text(TYPE, log.kind) + Place(log.file, log.line, o)
  }

  /** Assertions that hold are reported only on request. */
  ghost function LogElements(log: Log, o: Options): seq<Element> {
    if log.Message? then [MessageElement(log, o)]
    else if !log.failed && !o.success then []
    else [ExpressionElement(log, o)]
  }

  ghost function When(c: bool, name: Bytes, text: CString): seq<Element> {
    if c then [Worded(name, text)] else []
  }

  ghost function AssertionKids(log: Log): seq<Element>
    requires log.Assertion?
  {
    [Worded(ORIGINAL_ELEMENT, log.expr)]
    + When(log.threw, EXCEPTION_ELEMENT, log.exception)
    + When(log.throwsAs, EXPECTED_EXCEPTION_ELEMENT, log.exceptionType)
    + When(log.throwsWith, EXPECTED_EXCEPTION_STRING_ELEMENT, log.exceptionString)
    + When(log.normal && !log.threw, EXPANDED_ELEMENT, log.decomposed)
  }

  ghost function SubCaseAttributes(sig: Signature, o: Options): seq<InnerEvent> {
    Text(NAME, sig.name) + Place(sig.file, sig.line, o)
  }

  /** What one run of a body contributes: the chain of subcases down to leaf `k`, one inside the other. */
  ghost function BodyElements(items: seq<Item>, prefix: Path, k: nat, o: Options): seq<Element>
    requires k <= |Leaves(items, prefix)|
  {
    if items == [] then []
    else if items[0].Report? then LogElements(items[0].log, o) + BodyElements(items[1..], prefix, k, o)
    else
      var Sub(sig, body) := items[0];
      var n := |LeavesOf(sig, body, prefix)|;
      if n <= k then BodyElements(items[1..], prefix, k - n, o)
      else
        [Element(SUB_CASE_ELEMENT, SubCaseAttributes(sig, o), BodyElements(body, prefix + [sig], k, o))]
        + ReportElements(items[1..], o)
  }

  ghost function ReportElements(items: seq<Item>, o: Options): seq<Element> {
    if items == [] then []
    else (if items[0].Report? then LogElements(items[0].log, o) else []) + ReportElements(items[1..], o)
  }

  ghost function RunsElements(items: seq<Item>, runs: nat, o: Options): seq<Element>
    requires runs <= Max(1, |Leaves(items, [])|)
  {
    if runs == 0 then [] else RunsElements(items, runs - 1, o) + BodyElements(items, [], runs - 1, o)
  }

  ghost function CaseAttributes(tc: TestCase, o: Options): seq<InnerEvent> {
    Text(NAME, tc.name) + Place(tc.file, tc.line, o) + Text(DESCRIPTION, tc.description) + Text(TIMEOUT, tc.timeout)
    + (if tc.mayFail then Flag(MAY_FAIL, true) else []) + if tc.shouldFail then Flag(SHOULD_FAIL, true) else []
  }

  ghost function CaseResults(tc: TestCase, stats: CaseStats): Element {
    Element(OVERALL_RESULTS_ASSERTS_ELEMENT,
            Results(stats.asserts, stats.failed)
            + if tc.expectedFailures != 0 then Number(EXPECTED_FAILURES, tc.expectedFailures) else [], [])
  }

  ghost function Results(all: int, failed: int): seq<InnerEvent> {
    Number(SUCCESSES, all - failed) + Number(FAILURES, failed)
  }

  /** A test case and whether it ran or was skipped. */
  datatype Entry = Entry(tc: TestCase, runs: bool)

  ghost function CaseElement(e: Entry, filter: SubcaseFilter, o: Options): Element {
    if e.runs then
      var tree := Prune(e.tc.body, 0, filter);
      var events := ContextRun.BodyEvents(e.tc, filter);
      Element(TEST_CASE_ELEMENT, CaseAttributes(e.tc, o),
              RunsElements(tree, Max(1, |Leaves(tree, [])|), o)
              + [CaseResults(e.tc, CaseStats(Asserts(events), Failures(events)))])
    else
      Element(TEST_CASE_ELEMENT, CaseAttributes(e.tc, o) + Text(SKIPPED, TRUE_STRING), [])
  }

  /** The test cases that appear in the report. */
  ghost function Entries(tests: seq<TestCase>, r: ContextRun.Options, rank: nat, o: Options): seq<Entry> {
    if tests == [] then []
    else
      var rank' := if ContextRun.PassesFilters(tests[0], r) then rank + 1 else rank;
      (if rank < rank' && ContextRun.InRange(rank', r) then [Entry(tests[0], true)]
       else if o.noSkippedSummary then [] else [Entry(tests[0], false)])
      + Entries(tests[1..], r, rank', o)
  }

  ghost function SuiteAttributes(tc: TestCase): seq<InnerEvent> {
    Text(NAME, tc.suite)
  }

  /** Neighbours with the same suite name share one `TestSuite` element. */
  ghost function Suites(es: seq<Entry>, filter: SubcaseFilter, o: Options): (suites: seq<Element>)
    ensures es != [] ==> suites != []
  {
    if es == [] then []
    else
      var own, rest := CaseElement(es[0], filter, o), Suites(es[1..], filter, o);
      if |es| > 1 && es[0].tc.suite == es[1].tc.suite then
        [rest[0].(kids := [own] + rest[0].kids)] + rest[1..]
      else
        [Element(TEST_SUITE_ELEMENT, SuiteAttributes(es[0].tc), [own])] + rest
  }

  ghost function AssertResults(s: RunStats): Element {
    Element(OVERALL_RESULTS_ASSERTS_ELEMENT, Results(s.asserts, s.failed), [])
  }

  ghost function CasesResults(s: RunStats, o: Options): Element {
    Element(OVERALL_RESULTS_TEST_CASES_ELEMENT,
            Results(s.passingFilters, s.casesFailed)
            + if o.noSkippedSummary then [] else Number(SKIPPED, s.cases - s.passingFilters), [])
  }

  ghost function RunResults(s: RunStats, o: Options): seq<Element> {
    [AssertResults(s)] + [CasesResults(s, o)]
  }

  ghost function Document(tests: seq<TestCase>, r: ContextRun.Options, filter: SubcaseFilter, o: Options): Element {
    var events := ContextRun.ReportedEvents(tests, r, filter);
    Element(DOCTEST_ELEMENT, RootAttributes(o),
            [OptionsElement(o)]
            + Suites(Entries(tests, r, 0, o), filter, o)
            + RunResults(events[|events| - 1].totals, o))
  }

  // ----- The same report, event by event

  /** A new suite begins unless the last reported case belongs to the same one. */
  ghost function SuiteChange(tc: TestCase, last: Option<TestCase>): seq<XmlEvent> {
    if last.Some? && last.value.suite == tc.suite then []
    else
      (if last.Some? then [End(TEST_SUITE_ELEMENT)] else [])
      + [Start(TEST_SUITE_ELEMENT)] + SuiteAttributes(tc)
  }

  /** The tags written for one event, when `last` is the test case reported last. */
  ghost function XmlOfEvent(e: Event, last: Option<TestCase>, o: Options): seq<XmlEvent> {
    match e
    case RunStart => [Start(DOCTEST_ELEMENT)] + RootAttributes(o) + Flatten(OptionsElement(o))
    case CaseStart(tc) => SuiteChange(tc, last) + [Start(TEST_CASE_ELEMENT)] + CaseAttributes(tc, o)
    case CaseSkipped(tc) =>
      if o.noSkippedSummary then []
      else SuiteChange(tc, last) + [Start(TEST_CASE_ELEMENT)] + CaseAttributes(tc, o) + Text(SKIPPED, TRUE_STRING)
           + [End(TEST_CASE_ELEMENT)]
    case SubcaseStart(sig) => [Start(SUB_CASE_ELEMENT)] + SubCaseAttributes(sig, o)
    case SubcaseEnd => [End(SUB_CASE_ELEMENT)]
    case Logged(log) => FlattenAll(LogElements(log, o))
    case Reenter => []
    case CaseEnd(stats) =>
      (if last.Some? then Flatten(CaseResults(last.value, stats)) else []) + [End(TEST_CASE_ELEMENT)]
    case RunEnd(totals) =>
      (if last.Some? then [End(TEST_SUITE_ELEMENT)] else [])
      + FlattenAll(RunResults(totals, o)) + [End(DOCTEST_ELEMENT)]
  }

  function LastAfter(e: Event, last: Option<TestCase>, o: Options): Option<TestCase> {
    match e
    case CaseStart(tc) => Some(tc)
    case CaseSkipped(tc) => if o.noSkippedSummary then last else Some(tc)
    case _ => last
  }

  ghost function XmlOf(events: seq<Event>, last: Option<TestCase>, o: Options): seq<XmlEvent>
    decreases |events|
  {
    if events == [] then []
    else XmlOfEvent(events[0], last, o) + XmlOf(events[1..], LastAfter(events[0], last, o), o)
  }

  function LastAfterAll(events: seq<Event>, last: Option<TestCase>, o: Options): Option<TestCase>
    decreases |events|
  {
    if events == [] then last else LastAfterAll(events[1..], LastAfter(events[0], last, o), o)
  }

  /** The end of a test case is told only after its start. */
  predicate Started(events: seq<Event>, last: Option<TestCase>, o: Options)
    decreases |events|
  {
    events == [] ||
    ((events[0].CaseEnd? ==> last.Some?) && Started(events[1..], LastAfter(events[0], last, o), o))
  }

  lemma {:induction false} XmlConcat(a: seq<Event>, b: seq<Event>, last: Option<TestCase>, o: Options)
    ensures LastAfterAll(a + b, last, o) == LastAfterAll(b, LastAfterAll(a, last, o), o)
    ensures XmlOf(a + b, last, o) == XmlOf(a, last, o) + XmlOf(b, LastAfterAll(a, last, o), o)
    ensures Started(a + b, last, o) <==> Started(a, last, o) && Started(b, LastAfterAll(a, last, o), o)
    decreases |a|
  {
    hide XmlOfEvent, LastAfter;
    if a == [] {
      assert a + b == b;
    } else {
      assert (a + b)[0] == a[0] && (a + b)[1..] == a[1..] + b;
      XmlConcat(a[1..], b, LastAfter(a[0], last, o), o);
    }
  }

  lemma XmlOne(e: Event, last: Option<TestCase>, o: Options)
    ensures XmlOf([e], last, o) == XmlOfEvent(e, last, o)
    ensures LastAfterAll([e], last, o) == LastAfter(e, last, o)
    ensures Started([e], last, o) <==> (e.CaseEnd? ==> last.Some?)
  {
    hide XmlOfEvent;
    assert [e][1..] == [];
    assert XmlOf([], LastAfter(e, last, o), o) == [];
  }

  /** The events `events` become exactly the elements `es`, and leave the last test case alone. */
  ghost predicate Become(events: seq<Event>, es: seq<Element>, last: Option<TestCase>, o: Options) {
    XmlOf(events, last, o) == FlattenAll(es) && LastAfterAll(events, last, o) == last && Started(events, last, o)
  }

  lemma BecomeConcat(a: seq<Event>, es: seq<Element>, b: seq<Event>, fs: seq<Element>, last: Option<TestCase>,
                     o: Options)
    requires Become(a, es, last, o) && Become(b, fs, last, o)
    ensures Become(a + b, es + fs, last, o)
  {
    hide Started, XmlOf, LastAfterAll, FlattenAll;
    XmlConcat(a, b, last, o);
    FlattenConcat(es, fs);
  }

  lemma BecomeNothing(last: Option<TestCase>, o: Options)
    ensures Become([], [], last, o)
  {
  }

  lemma LogBecomes(log: Log, last: Option<TestCase>, o: Options)
    ensures Become([Logged(log)], LogElements(log, o), last, o)
  {
    hide LogElements;
    XmlOne(Logged(log), last, o);
  }

  lemma {:induction false} ReportsBecome(items: seq<Item>, last: Option<TestCase>, o: Options)
    ensures Become(Reports(items), ReportElements(items, o), last, o)
    decreases |items|
  {
    hide Started, XmlOf, LastAfterAll, FlattenAll, LogElements;
    BecomeNothing(last, o);
    if items != [] {
      ReportsBecome(items[1..], last, o);
      if items[0].Report? {
        LogBecomes(items[0].log, last, o);
        BecomeConcat([Logged(items[0].log)], LogElements(items[0].log, o), Reports(items[1..]),
                     ReportElements(items[1..], o), last, o);
      } else {
        BecomeConcat([], [], Reports(items[1..]), ReportElements(items[1..], o), last, o);
      }
    }
  }

  lemma {:induction false} BodyBecomes(items: seq<Item>, prefix: Path, k: nat, last: Option<TestCase>, o: Options)
    requires k <= |Leaves(items, prefix)|
    ensures Become(RunEvents(items, prefix, k), BodyElements(items, prefix, k, o), last, o)
    decreases items, 1
  {
    hide Started, XmlOf, LastAfterAll, FlattenAll, LogElements, Become;
    BecomeNothing(last, o);
    if items != [] {
      if items[0].Report? {
        LogBecomes(items[0].log, last, o);
        BodyBecomes(items[1..], prefix, k, last, o);
        BecomeConcat([Logged(items[0].log)], LogElements(items[0].log, o),
                     RunEvents(items[1..], prefix, k), BodyElements(items[1..], prefix, k, o), last, o);
      } else {
        var Sub(sig, body) := items[0];
        var n := |LeavesOf(sig, body, prefix)|;
        if n <= k {
          BodyBecomes(items[1..], prefix, k - n, last, o);
        } else {
          SubCaseBecomes(sig, body, prefix, k, last, o);
          ReportsBecome(items[1..], last, o);
          BecomeConcat([SubcaseStart(sig)] + RunEvents(body, prefix + [sig], k) + [SubcaseEnd],
                       [Element(SUB_CASE_ELEMENT, SubCaseAttributes(sig, o), BodyElements(body, prefix + [sig], k, o))],
                       Reports(items[1..]), ReportElements(items[1..], o), last, o);
        }
      }
    }
  }

  lemma {:induction false} SubCaseBecomes(sig: Signature, body: seq<Item>, prefix: Path, k: nat,
                                          last: Option<TestCase>, o: Options)
    requires k < |LeavesOf(sig, body, prefix)|
    ensures Become([SubcaseStart(sig)] + RunEvents(body, prefix + [sig], k) + [SubcaseEnd],
                   [Element(SUB_CASE_ELEMENT, SubCaseAttributes(sig, o), BodyElements(body, prefix + [sig], k, o))],
                   last, o)
    decreases body, 2
  {
    hide Started, XmlOf, LastAfterAll, FlattenAll, SubCaseAttributes, RunEvents, BodyElements;
    var inside := RunEvents(body, prefix + [sig], k);
    BodyBecomes(body, prefix + [sig], k, last, o);
    XmlOne(SubcaseStart(sig), last, o);
    XmlOne(SubcaseEnd, last, o);
    XmlConcat([SubcaseStart(sig)], inside, last, o);
    XmlConcat([SubcaseStart(sig)] + inside, [SubcaseEnd], last, o);
    FlattenOne(Element(SUB_CASE_ELEMENT, SubCaseAttributes(sig, o), BodyElements(body, prefix + [sig], k, o)));
  }

  lemma {:induction false} RunsBecome(items: seq<Item>, runs: nat, last: Option<TestCase>, o: Options)
    requires runs <= Max(1, |Leaves(items, [])|)
    ensures Become(AllRuns(items, runs), RunsElements(items, runs, o), last, o)
    decreases runs
  {
    hide Started, XmlOf, LastAfterAll, FlattenAll, Become, RunEvents, BodyElements, Leaves;
    BecomeNothing(last, o);
    if runs > 0 {
      RunsBecome(items, runs - 1, last, o);
      BodyBecomes(items, [], runs - 1, last, o);
      var before, es := AllRuns(items, runs - 1), RunsElements(items, runs - 1, o);
      if runs > 1 {
        ReenterIsSilent(last, o);
        BecomeConcat(before, es, [Reenter], [], last, o);
        assert es + [] == es;
        BecomeConcat(before + [Reenter], es, RunEvents(items, [], runs - 1), BodyElements(items, [], runs - 1, o),
                     last, o);
      } else {
        assert before + [] == before;
        BecomeConcat(before, es, RunEvents(items, [], runs - 1), BodyElements(items, [], runs - 1, o), last, o);
      }
    }
  }

  lemma ReenterIsSilent(last: Option<TestCase>, o: Options)
    ensures Become([Reenter], [], last, o)
  {
    XmlOne(Reenter, last, o);
  }

  /** One test case that ran: its events become the start of its suite, if needed, and its element. */
  lemma CaseBecomes(tc: TestCase, filter: SubcaseFilter, last: Option<TestCase>, o: Options)
    ensures XmlOf(ContextRun.CaseEvents(tc, filter), last, o)
         == SuiteChange(tc, last) + Flatten(CaseElement(Entry(tc, true), filter, o))
    ensures LastAfterAll(ContextRun.CaseEvents(tc, filter), last, o) == Some(tc)
    ensures Started(ContextRun.CaseEvents(tc, filter), last, o)
  {
    hide Started, XmlOf, LastAfterAll, FlattenAll, Asserts, Failures, CaseResults, CaseAttributes;
    hide SuiteChange, RunsElements, AllRuns, Leaves, Prune;
    var tree := Prune(tc.body, 0, filter);
    var body := ContextRun.BodyEvents(tc, filter);
    var stats := CaseStats(Asserts(body), Failures(body));
    var runs := RunsElements(tree, Max(1, |Leaves(tree, [])|), o);
    RunsBecome(tree, Max(1, |Leaves(tree, [])|), Some(tc), o);
    XmlOne(CaseStart(tc), last, o);
    XmlOne(CaseEnd(stats), Some(tc), o);
    XmlConcat([CaseStart(tc)], body, last, o);
    XmlConcat([CaseStart(tc)] + body, [CaseEnd(stats)], last, o);
    FlattenConcat(runs, [CaseResults(tc, stats)]);
    FlattenOne(CaseResults(tc, stats));
    var own := [Start(TEST_CASE_ELEMENT)] + CaseAttributes(tc, o);
    assert XmlOf(ContextRun.CaseEvents(tc, filter), last, o)
        == SuiteChange(tc, last) + own + FlattenAll(runs)
           + (Flatten(CaseResults(tc, stats)) + [End(TEST_CASE_ELEMENT)]);
    assert Flatten(CaseElement(Entry(tc, true), filter, o))
        == own + (FlattenAll(runs) + Flatten(CaseResults(tc, stats))) + [End(TEST_CASE_ELEMENT)];
  }

  /** The tags for a list of reported test cases. */
  ghost function EntriesXml(es: seq<Entry>, filter: SubcaseFilter, last: Option<TestCase>, o: Options): seq<XmlEvent>
    decreases |es|
  {
    if es == [] then []
    else
      SuiteChange(es[0].tc, last) + Flatten(CaseElement(es[0], filter, o))
      + EntriesXml(es[1..], filter, Some(es[0].tc), o)
  }

  ghost function LastOf(es: seq<Entry>, last: Option<TestCase>): Option<TestCase> {
    if es == [] then last else Some(es[|es| - 1].tc)
  }

  lemma EntriesCons(e: Entry, es: seq<Entry>, filter: SubcaseFilter, last: Option<TestCase>, o: Options)
    ensures EntriesXml([e] + es, filter, last, o)
         == SuiteChange(e.tc, last) + Flatten(CaseElement(e, filter, o)) + EntriesXml(es, filter, Some(e.tc), o)
    ensures LastOf([e] + es, last) == LastOf(es, Some(e.tc))
  {
    hide Flatten, CaseElement, SuiteChange;
    assert ([e] + es)[1..] == es;
  }

  lemma {:induction false} TestsBecome(tests: seq<TestCase>, r: ContextRun.Options, filter: SubcaseFilter, rank: nat,
                                       last: Option<TestCase>, o: Options)
    ensures var events, es := ContextRun.TestsEvents(tests, r, filter, rank), Entries(tests, r, rank, o);
            && XmlOf(events, last, o) == EntriesXml(es, filter, last, o)
            && LastAfterAll(events, last, o) == LastOf(es, last)
            && Started(events, last, o)
    decreases |tests|
  {
    hide FlattenAll, Flatten, ContextRun.CaseEvents, ContextRun.PassesFilters, CaseElement, SuiteChange, CaseAttributes;
    hide Started, XmlOf, LastAfterAll;
    hide EntriesXml, LastOf;
    NoEntries(filter, last, o);
    NothingTold(last, o);
    if tests != [] {
      var rank' := if ContextRun.PassesFilters(tests[0], r) then rank + 1 else rank;
      var runs := rank < rank' && ContextRun.InRange(rank', r);
      var own := ContextRun.OwnEvents(tests[0], runs, filter);
      var rest, es := ContextRun.TestsEvents(tests[1..], r, filter, rank'), Entries(tests[1..], r, rank', o);
      OwnBecomes(tests[0], runs, filter, last, o);
      XmlConcat(own, rest, last, o);
      if !runs && o.noSkippedSummary {
        TestsBecome(tests[1..], r, filter, rank', last, o);
        assert [] + es == es;
      } else {
        TestsBecome(tests[1..], r, filter, rank', Some(tests[0]), o);
        EntriesCons(Entry(tests[0], runs), es, filter, last, o);
      }
    }
  }

  lemma NothingTold(last: Option<TestCase>, o: Options)
    ensures XmlOf([], last, o) == [] && LastAfterAll([], last, o) == last && Started([], last, o)
  {
  }

  lemma OwnBecomes(tc: TestCase, runs: bool, filter: SubcaseFilter, last: Option<TestCase>, o: Options)
    ensures Started(ContextRun.OwnEvents(tc, runs, filter), last, o)
    ensures var own := ContextRun.OwnEvents(tc, runs, filter);
            if !runs && o.noSkippedSummary then XmlOf(own, last, o) == [] && LastAfterAll(own, last, o) == last
            else
              && XmlOf(own, last, o) == SuiteChange(tc, last) + Flatten(CaseElement(Entry(tc, runs), filter, o))
              && LastAfterAll(own, last, o) == Some(tc)
  {
    hide Started, XmlOf, LastAfterAll, ContextRun.CaseEvents, SuiteChange, CaseAttributes, Text;
    if runs {
      CaseBecomes(tc, filter, last, o);
    } else {
      XmlOne(CaseSkipped(tc), last, o);
    }
  }

  /** The tags from the first test case of an open suite on, up to the end of the last suite. */
  ghost function FromOpenSuite(es: seq<Entry>, filter: SubcaseFilter, o: Options): seq<XmlEvent>
    requires es != []
  {
    Flatten(CaseElement(es[0], filter, o)) + EntriesXml(es[1..], filter, Some(es[0].tc), o) + [End(TEST_SUITE_ELEMENT)]
  }

  lemma EntriesFromSuite(es: seq<Entry>, filter: SubcaseFilter, last: Option<TestCase>, o: Options)
    requires es != []
    ensures EntriesXml(es, filter, last, o) + [End(TEST_SUITE_ELEMENT)]
         == SuiteChange(es[0].tc, last) + FromOpenSuite(es, filter, o)
  {
    hide Flatten, CaseElement, SuiteChange;
  }

  lemma FlattenFirst(es: seq<Element>)
    requires es != []
    ensures FlattenAll(es) ==
            [Start(es[0].name)] + es[0].attributes
            + (FlattenAll(es[0].kids) + [End(es[0].name)] + FlattenAll(es[1..]))
  {
  }

  /** What `Suites` does with its first entry. */
  lemma SuitesCons(es: seq<Entry>, filter: SubcaseFilter, o: Options)
    requires es != []
    ensures var own, suites, rest := CaseElement(es[0], filter, o), Suites(es, filter, o), Suites(es[1..], filter, o);
            suites != [] && suites[0].name == TEST_SUITE_ELEMENT &&
            if |es| > 1 && es[0].tc.suite == es[1].tc.suite then
              rest != [] && suites[0].kids == [own] + rest[0].kids && suites[1..] == rest[1..]
              && suites[0].attributes == rest[0].attributes
            else suites[0] == Element(TEST_SUITE_ELEMENT, SuiteAttributes(es[0].tc), [own]) && suites[1..] == rest
  {
    hide CaseElement, SuiteAttributes;
    if |es| > 1 && es[0].tc.suite == es[1].tc.suite {
      SuitesCons(es[1..], filter, o);
    }
  }

  /** Grouping from the first test case of an open suite on. */
  ghost predicate Grouped(es: seq<Entry>, filter: SubcaseFilter, o: Options)
    requires es != []
  {
    var suites := Suites(es, filter, o);
    && suites[0].name == TEST_SUITE_ELEMENT && suites[0].attributes == SuiteAttributes(es[0].tc)
    && FromOpenSuite(es, filter, o)
       == FlattenAll(suites[0].kids) + [End(TEST_SUITE_ELEMENT)] + FlattenAll(suites[1..])
  }

  lemma FromOpenSuiteCons(es: seq<Entry>, filter: SubcaseFilter, o: Options)
    requires es != []
    ensures FromOpenSuite(es, filter, o) ==
            Flatten(CaseElement(es[0], filter, o)) +
            if |es| == 1 then [End(TEST_SUITE_ELEMENT)]
            else SuiteChange(es[1].tc, Some(es[0].tc)) + FromOpenSuite(es[1..], filter, o)
  {
    hide Flatten, CaseElement, SuiteChange, EntriesXml;
    if |es| == 1 {
      NoEntries(filter, Some(es[0].tc), o);
    } else {
      EntriesFromSuite(es[1..], filter, Some(es[0].tc), o);
    }
  }

  lemma LastSuite(es: seq<Entry>, filter: SubcaseFilter, o: Options)
    requires |es| == 1
    ensures Grouped(es, filter, o)
  {
    hide Flatten, CaseElement, EntriesXml, SuiteAttributes, FlattenAll, Suites, FromOpenSuite;
    FlattenOne(CaseElement(es[0], filter, o));
    SuitesCons(es, filter, o);
    FromOpenSuiteCons(es, filter, o);
    NoSuites(filter, o);
  }

  lemma NoSuites(filter: SubcaseFilter, o: Options)
    ensures Suites([], filter, o) == [] && FlattenAll([]) == []
  {
  }

  lemma SameSuite(es: seq<Entry>, filter: SubcaseFilter, o: Options)
    requires |es| > 1 && es[0].tc.suite == es[1].tc.suite && Grouped(es[1..], filter, o)
    ensures Grouped(es, filter, o)
  {
    hide Flatten, CaseElement, EntriesXml, FlattenAll, Suites, FromOpenSuite, Text;
    var own, rest := CaseElement(es[0], filter, o), Suites(es[1..], filter, o);
    FlattenOne(own);
    SuitesCons(es, filter, o);
    FromOpenSuiteCons(es, filter, o);
    FlattenConcat([own], rest[0].kids);
    assert SuiteChange(es[1].tc, Some(es[0].tc)) == [];
    assert [] + FromOpenSuite(es[1..], filter, o) == FromOpenSuite(es[1..], filter, o);
  }

  lemma NextSuite(es: seq<Entry>, filter: SubcaseFilter, o: Options)
    requires |es| > 1 && es[0].tc.suite != es[1].tc.suite && Grouped(es[1..], filter, o)
    ensures Grouped(es, filter, o)
  {
    hide Flatten, CaseElement, EntriesXml, FlattenAll, Suites, FromOpenSuite, SuiteAttributes;
    var own, rest := CaseElement(es[0], filter, o), Suites(es[1..], filter, o);
    FlattenOne(own);
    SuitesCons(es, filter, o);
    FromOpenSuiteCons(es, filter, o);
    FlattenFirst(rest);
    assert FlattenAll(rest)
           == [Start(TEST_SUITE_ELEMENT)] + SuiteAttributes(es[1].tc) + FromOpenSuite(es[1..], filter, o);
    assert SuiteChange(es[1].tc, Some(es[0].tc)) + FromOpenSuite(es[1..], filter, o)
        == [End(TEST_SUITE_ELEMENT)] + FlattenAll(rest);
  }

  /** Opening and closing suites as the suite name changes gives the grouped suites. */
  lemma {:induction false} SuitesGroup(es: seq<Entry>, filter: SubcaseFilter, o: Options)
    requires es != []
    ensures Grouped(es, filter, o)
    decreases |es|
  {
    hide Grouped;
    if |es| == 1 {
      LastSuite(es, filter, o);
    } else {
      SuitesGroup(es[1..], filter, o);
      if es[0].tc.suite == es[1].tc.suite {
        SameSuite(es, filter, o);
      } else {
        NextSuite(es, filter, o);
      }
    }
  }

  lemma NoEntries(filter: SubcaseFilter, last: Option<TestCase>, o: Options)
    ensures EntriesXml([], filter, last, o) == [] && FlattenAll([]) == [] && LastOf([], last) == last
  {
  }

  lemma FlattenIs(e: Element)
    ensures Flatten(e) == [Start(e.name)] + e.attributes + FlattenAll(e.kids) + [End(e.name)]
  {
  }

  /** The whole report: the tags written for everything `Context::run` tells are those of the document. */
  lemma ReportIsDocument(tests: seq<TestCase>, r: ContextRun.Options, filter: SubcaseFilter, o: Options)
    ensures XmlOf(ContextRun.ReportedEvents(tests, r, filter), None, o) == Flatten(Document(tests, r, filter, o))
    ensures Started(ContextRun.ReportedEvents(tests, r, filter), None, o)
  {
    hide Started, XmlOf, LastAfterAll, EntriesXml, Entries, Suites, OptionsElement, RootAttributes;
    hide RunResults, Flatten, FlattenAll;
    hide ContextRun.Passing, ContextRun.Executed, ContextRun.FailedCases, ContextRun.TestsEvents, Asserts, Failures;
    var all := ContextRun.ReportedEvents(tests, r, filter);
    var events, es := ContextRun.TestsEvents(tests, r, filter, 0), Entries(tests, r, 0, o);
    var end := all[|all| - 1];
    assert all == [RunStart] + events + [end];
    XmlConcat([RunStart] + events, [end], None, o);
    XmlConcat([RunStart], events, None, o);
    XmlOne(RunStart, None, o);
    TestsBecome(tests, r, filter, 0, None, o);
    XmlOne(end, LastOf(es, None), o);
    SuitesWritten(es, filter, o);
    var options, suites, results := OptionsElement(o), Suites(es, filter, o), RunResults(end.totals, o);
    FlattenConcat([options] + suites, results);
    FlattenConcat([options], suites);
    FlattenOne(options);
    FlattenIs(Document(tests, r, filter, o));
  }

  lemma SuitesWritten(es: seq<Entry>, filter: SubcaseFilter, o: Options)
    ensures EntriesXml(es, filter, None, o) + (if es == [] then [] else [End(TEST_SUITE_ELEMENT)])
         == FlattenAll(Suites(es, filter, o))
  {
    hide EntriesXml, FromOpenSuite, FlattenAll, SuiteAttributes;
    NoEntries(filter, None, o);
    if es != [] {
      hide Suites;
      SuitesGroup(es, filter, o);
      EntriesFromSuite(es, filter, None, o);
      FlattenFirst(Suites(es, filter, o));
      assert SuiteChange(es[0].tc, None) == [Start(TEST_SUITE_ELEMENT)] + SuiteAttributes(es[0].tc);
    }
  }

  // ----- The document nests

  /** Whatever is open before an element is open after it. */
  lemma {:induction false} FlattenNests(e: Element, before: seq<XmlEvent>, open: seq<Bytes>)
    requires OpenAfter(before) == Some(open)
    ensures OpenAfter(before + Flatten(e)) == Some(open)
    decreases e, 1
  {
    hide OpenAfter;
    var start := before + [Start(e.name)];
    OneMoreEvent(before, open, Start(e.name));
    AttributesNest(e.attributes, start, open + [e.name]);
    FlattenAllNests(e.kids, start + e.attributes, open + [e.name]);
    var inside := start + e.attributes + FlattenAll(e.kids);
    OneMoreEvent(inside, open + [e.name], End(e.name));
    assert before + Flatten(e) == inside + [End(e.name)];
    assert (open + [e.name])[..|open|] == open;
  }

  lemma {:induction false} FlattenAllNests(es: seq<Element>, before: seq<XmlEvent>, open: seq<Bytes>)
    requires OpenAfter(before) == Some(open)
    ensures OpenAfter(before + FlattenAll(es)) == Some(open)
    decreases es, 0
  {
    hide OpenAfter;
    if es == [] {
      assert before + FlattenAll(es) == before;
    } else {
      FlattenNests(es[0], before, open);
      FlattenAllNests(es[1..], before + Flatten(es[0]), open);
      assert before + FlattenAll(es) == before + Flatten(es[0]) + FlattenAll(es[1..]);
    }
  }

  lemma {:induction false} AttributesNest(attributes: seq<InnerEvent>, before: seq<XmlEvent>, open: seq<Bytes>)
    requires OpenAfter(before) == Some(open)
    ensures OpenAfter(before + attributes) == Some(open)
    decreases |attributes|
  {
    hide OpenAfter;
    if attributes == [] {
      assert before + attributes == before;
    } else {
      OneMoreEvent(before, open, attributes[0]);
      AttributesNest(attributes[1..], before + [attributes[0]], open);
      assert before + attributes == before + [attributes[0]] + attributes[1..];
    }
  }
}
