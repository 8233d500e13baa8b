/**
  `XmlReporter`: turns the events of a run into calls on the XML writer, remembering only
  the test case reported last.
 */
module XmlReporter {
  import opened Common
  import opened TestModel
  import opened SubcaseFilters
  import opened SubcaseRunner
  import opened XmlScanner
  import opened XmlNames
  import opened XmlReport
  import XmlWriter
  import XmlReadBack
  import SubcaseTree
  import ContextRun

  lemma {:induction false} PrefixNests(a: seq<XmlEvent>, b: seq<XmlEvent>)
    requires OpenAfter(a + b).Some?
    ensures OpenAfter(a).Some?
    decreases |b|
  {
    if b == [] {
      assert a + b == a;
    } else {
      assert (a + b)[..|a + b| - 1] == a + b[..|b| - 1];
      PrefixNests(a, b[..|b| - 1]);
    }
  }

  /** An end tag fits only the innermost open element. */
  lemma EndFits(before: seq<XmlEvent>, open: seq<Bytes>, name: Bytes)
    requires OpenAfter(before) == Some(open)
    ensures OpenAfter(before + [End(name)]).Some? <==> open != [] && open[|open| - 1] == name
  {
    assert (before + [End(name)])[..|before|] == before;
  }

  class XmlReporter {
    const xml: XmlWriter.XmlWriter
    const o: Options
    /** The test case reported last. */
    var tc: Option<TestCase>

    constructor (o: Options)
      ensures Valid() && fresh(xml) && xml.Events() == [] && tc == None && this.o == o
    {
      xml := new XmlWriter.XmlWriter();
      this.o := o;
      tc := None;
    }

    ghost predicate Valid()
      reads this, xml
    {
      xml.Valid()
    }

    /** The tags `more` fit behind what has been written. */
    ghost predicate Fits(more: seq<XmlEvent>)
      reads this, xml
    {
      OpenAfter(xml.Events() + more).Some?
    }

    // ----- Elements

    method Begin(name: Name)
      requires Valid()
      modifies xml
      ensures Valid() && xml.tagIsOpen && xml.tags == old(xml.tags) + [name]
      ensures xml.Events() == old(xml.Events()) + [Start(name)]
    {
      xml.StartElement(name);
    }

    method Finish()
      requires Valid() && xml.tags != []
      modifies xml
      ensures Valid() && !xml.tagIsOpen && xml.tags == old(xml.tags)[..|old(xml.tags)| - 1]
      ensures xml.Events() == old(xml.Events()) + [End(old(xml.tags)[|old(xml.tags)| - 1])]
    {
      xml.EndElement();
    }

    method TextAttribute(name: Name, value: CString)
      requires Valid() && xml.tagIsOpen
      modifies xml
      ensures Valid() && xml.tagIsOpen && xml.tags == old(xml.tags)
      ensures xml.Events() == old(xml.Events()) + Text(name, value)
    {
      xml.WriteAttribute(name, Ascii(value));
    }

    method NumberAttribute(name: Name, value: int)
      requires Valid() && xml.tagIsOpen
      modifies xml
      ensures Valid() && xml.tagIsOpen && xml.tags == old(xml.tags)
      ensures xml.Events() == old(xml.Events()) + Number(name, value)
    {
      xml.WriteAttribute(name, Decimal(value));
    }

    method FlagAttribute(name: Name, value: bool)
      requires Valid() && xml.tagIsOpen
      modifies xml
      ensures Valid() && xml.tagIsOpen && xml.tags == old(xml.tags)
      ensures xml.Events() == old(xml.Events()) + Flag(name, value)
    {
      xml.WriteBoolean(name, value);
    }

    method PlaceAttributes(file: CString, line: int)
      requires Valid() && xml.tagIsOpen
      modifies xml
      ensures Valid() && xml.tagIsOpen && xml.tags == old(xml.tags)
      ensures xml.Events() == old(xml.Events()) + Place(file, line, o)
    {
      TextAttribute(FILENAME, file);
      NumberAttribute(LINE, LineOf(line, o));
    }

    /** `xml.scopedElement(name).writeText(text)`. */
    method TextElement(name: Name, text: CString)
      requires Valid()
      modifies xml
      ensures Valid() && !xml.tagIsOpen && xml.tags == old(xml.tags)
      ensures xml.Events() == old(xml.Events()) + FlattenAll([Worded(name, text)])
    {
      hide XmlWriter.XmlWriter.Valid, XmlWriter.XmlWriter.Events, OpenAfter;
      xml.StartElement(name);
      xml.WriteText(Ascii(text), true);
      xml.EndElement();
      FlattenOne(Worded(name, text));
    }

    /** `log_contexts`. */
    method LogContexts(contexts: seq<CString>)
      requires Valid()
      modifies xml
      ensures Valid() && xml.tags == old(xml.tags)
      ensures xml.Events() == old(xml.Events()) + FlattenAll(Contexts(contexts))
    {
      hide XmlWriter.XmlWriter.Valid, XmlWriter.XmlWriter.Events, OpenAfter, Contexts, Worded, FlattenAll;
      ghost var before, told := xml.Events(), Contexts([]);
      NoContexts(before);
      assert contexts[..0] == [];
      for i := 0 to |contexts|
        invariant Valid() && xml.tags == old(xml.tags)
        invariant told == Contexts(contexts[..i]) && xml.Events() == before + FlattenAll(told)
      {
        OneMoreContext(contexts, i);
        told := ChainElements(before, told, [Worded(INFO_ELEMENT, contexts[i])]);
        TextElement(INFO_ELEMENT, contexts[i]);
      }
      assert contexts[..|contexts|] == contexts;
    }

    /** Ends the innermost element, which the caller knows to be `name`. */
    method EndNamed(ghost name: Bytes)
      requires Valid() && Fits([End(name)])
      modifies xml
      ensures Valid() && !xml.tagIsOpen && xml.Events() == old(xml.Events()) + [End(name)]
    {
      xml.TagsAreOpen();
      EndFits(xml.Events(), xml.tags, name);
      xml.EndElement();
    }

    // ----- The events of a run

    method RootAttributes()
      requires Valid() && xml.tagIsOpen
      modifies xml
      ensures Valid() && xml.tagIsOpen && xml.tags == old(xml.tags)
      ensures xml.Events() == old(xml.Events()) + XmlReport.RootAttributes(o)
    {
      TextAttribute(BINARY, o.binary);
      if !o.noVersion {
        TextAttribute(VERSION, o.version);
      }
    }

    method OptionAttributes()
      requires Valid() && xml.tagIsOpen
      modifies xml
      ensures Valid() && xml.tagIsOpen && xml.tags == old(xml.tags)
      ensures xml.Events() == old(xml.Events()) + XmlReport.OptionAttributes(o)
    {
      hide XmlWriter.XmlWriter.Valid, XmlWriter.XmlWriter.Events, OpenAfter, Text, Number, Flag;
      ghost var before, told := xml.Events(), Text(ORDER_BY, o.orderBy);
      TextAttribute(ORDER_BY, o.orderBy);
      told := Chain(before, told, Number(RAND_SEED, o.randSeed));
      NumberAttribute(RAND_SEED, o.randSeed);
      told := Chain(before, told, Number(FIRST, o.first));
      NumberAttribute(FIRST, o.first);
      told := Chain(before, told, Number(LAST, o.last));
      NumberAttribute(LAST, o.last);
      told := Chain(before, told, Number(ABORT_AFTER, o.abortAfter));
      NumberAttribute(ABORT_AFTER, o.abortAfter);
      told := Chain(before, told, Number(SUBCASE_FILTER_LEVELS, o.subcaseLevels));
      NumberAttribute(SUBCASE_FILTER_LEVELS, o.subcaseLevels);
      told := Chain(before, told, Flag(CASE_SENSITIVE, o.caseSensitive));
      FlagAttribute(CASE_SENSITIVE, o.caseSensitive);
      told := Chain(before, told, Flag(NO_THROW, o.noThrow));
      FlagAttribute(NO_THROW, o.noThrow);
      told := Chain(before, told, Flag(NO_SKIP, o.noSkip));
      FlagAttribute(NO_SKIP, o.noSkip);
      assert told == XmlReport.OptionAttributes(o);
    }

    method TestRunStart()
      requires Valid()
      modifies xml
      ensures Valid() && xml.Events() == old(xml.Events()) + XmlOfEvent(RunStart, tc, o)
    {
      hide XmlWriter.XmlWriter.Valid, XmlWriter.XmlWriter.Events, OpenAfter, XmlReport.RootAttributes;
      hide XmlReport.OptionAttributes;
      ghost var before := xml.Events();
      Begin(DOCTEST_ELEMENT);
      RootAttributes();
      ghost var root := xml.Events();
      assert root == before + ([Start(DOCTEST_ELEMENT)] + XmlReport.RootAttributes(o));
      Begin(OPTIONS_ELEMENT);
      OptionAttributes();
      Finish();
      assert xml.Events() == root + Flatten(OptionsElement(o));
    }

    /** Ends the suite under way if the next test case belongs to another, and begins that one. */
    method ChangeSuite(in': TestCase)
      requires Valid() && Fits(SuiteChange(in', tc))
      modifies xml
      ensures Valid() && xml.Events() == old(xml.Events()) + SuiteChange(in', tc)
    {
      hide XmlWriter.XmlWriter.Valid, XmlWriter.XmlWriter.Events, OpenAfter, Text;
      var openTsTag := false;
      ghost var before := xml.Events();
      if tc.Some? {
        if tc.value.suite != in'.suite {
          ghost var start := [Start(TEST_SUITE_ELEMENT)] + SuiteAttributes(in');
          assert before + SuiteChange(in', tc) == before + [End(TEST_SUITE_ELEMENT)] + start;
          PrefixNests(before + [End(TEST_SUITE_ELEMENT)], start);
          EndNamed(TEST_SUITE_ELEMENT);
          openTsTag := true;
        }
      } else {
        openTsTag := true;
      }
      if openTsTag {
        Begin(TEST_SUITE_ELEMENT);
        TextAttribute(NAME, in'.suite);
      }
    }

    method CaseAttributes(in': TestCase)
      requires Valid() && xml.tagIsOpen
      modifies xml
      ensures Valid() && xml.tagIsOpen && xml.tags == old(xml.tags)
      ensures xml.Events() == old(xml.Events()) + XmlReport.CaseAttributes(in', o)
    {
      hide XmlWriter.XmlWriter.Valid, XmlWriter.XmlWriter.Events, OpenAfter, Text, Number, Flag, Place;
      ghost var before, told := xml.Events(), Text(NAME, in'.name);
      TextAttribute(NAME, in'.name);
      told := Chain(before, told, Place(in'.file, in'.line, o));
      PlaceAttributes(in'.file, in'.line);
      told := Chain(before, told, Text(DESCRIPTION, in'.description));
      TextAttribute(DESCRIPTION, in'.description);
      told := Chain(before, told, Text(TIMEOUT, in'.timeout));
      TextAttribute(TIMEOUT, in'.timeout);
      told := Chain(before, told, if in'.mayFail then Flag(MAY_FAIL, true) else []);
      if in'.mayFail {
        FlagAttribute(MAY_FAIL, true);
      }
      told := Chain(before, told, if in'.shouldFail then Flag(SHOULD_FAIL, true) else []);
      if in'.shouldFail {
        FlagAttribute(SHOULD_FAIL, true);
      }
      assert told == XmlReport.CaseAttributes(in', o);
    }

    method TestCaseStartImpl(in': TestCase)
      requires Valid() && Fits(SuiteChange(in', tc))
      modifies this, xml
      ensures Valid() && tc == Some(in') && xml.tagIsOpen
      ensures xml.Events() == old(xml.Events()) + SuiteChange(in', old(tc)) + [Start(TEST_CASE_ELEMENT)]
              + XmlReport.CaseAttributes(in', o)
      ensures xml.tags != [] && xml.tags[|xml.tags| - 1] == TEST_CASE_ELEMENT
    {
      hide XmlWriter.XmlWriter.Valid, XmlWriter.XmlWriter.Events, OpenAfter, SuiteChange, XmlReport.CaseAttributes;
      ChangeSuite(in');
      tc := Some(in');
      Begin(TEST_CASE_ELEMENT);
      CaseAttributes(in');
    }

    method TestCaseStart(in': TestCase)
      requires Valid() && Fits(SuiteChange(in', tc))
      modifies this, xml
      ensures Valid() && tc == Some(in')
      ensures xml.Events() == old(xml.Events()) + XmlOfEvent(CaseStart(in'), old(tc), o)
    {
      hide XmlWriter.XmlWriter.Valid, XmlWriter.XmlWriter.Events, OpenAfter, SuiteChange, XmlReport.CaseAttributes;
      TestCaseStartImpl(in');
      xml.EnsureTagClosed();
    }

    method TestCaseSkipped(in': TestCase)
      requires Valid() && (o.noSkippedSummary || Fits(SuiteChange(in', tc)))
      modifies this, xml
      ensures Valid() && tc == LastAfter(CaseSkipped(in'), old(tc), o)
      ensures xml.Events() == old(xml.Events()) + XmlOfEvent(CaseSkipped(in'), old(tc), o)
    {
      hide XmlWriter.XmlWriter.Valid, XmlWriter.XmlWriter.Events, OpenAfter, SuiteChange;
      hide XmlReport.CaseAttributes, Text;
      if !o.noSkippedSummary {
        TestCaseStartImpl(in');
        TextAttribute(SKIPPED, TRUE_STRING);
        Finish();
      }
    }

    method SubcaseStart(in': Signature)
      requires Valid()
      modifies xml
      ensures Valid() && xml.Events() == old(xml.Events()) + XmlOfEvent(TestModel.SubcaseStart(in'), tc, o)
    {
      hide XmlWriter.XmlWriter.Valid, XmlWriter.XmlWriter.Events, OpenAfter, Text, Place;
      ghost var before := xml.Events();
      Begin(SUB_CASE_ELEMENT);
      TextAttribute(NAME, in'.name);
      PlaceAttributes(in'.file, in'.line);
      assert xml.Events()
             == before + ([Start(SUB_CASE_ELEMENT)] + (Text(NAME, in'.name) + Place(in'.file, in'.line, o)));
      xml.EnsureTagClosed();
    }

    method SubcaseEnd()
      requires Valid() && Fits([End(SUB_CASE_ELEMENT)])
      modifies xml
      ensures Valid() && xml.Events() == old(xml.Events()) + XmlOfEvent(TestModel.SubcaseEnd, tc, o)
    {
      EndNamed(SUB_CASE_ELEMENT);
    }

    method LogMessage(log: Log)
      requires Valid() && log.Message?
      modifies xml
      ensures Valid() && xml.Events() == old(xml.Events()) + FlattenAll(LogElements(log, o))
    {
      hide XmlWriter.XmlWriter.Valid, XmlWriter.XmlWriter.Events, OpenAfter, Text, Place, FlattenAll, Worded, Contexts;
      Begin(MESSAGE_ELEMENT);
      TextAttribute(TYPE, log.kind);
      PlaceAttributes(log.file, log.line);
      ghost var head := xml.Events();
      assert head == old(xml.Events())
             + ([Start(MESSAGE_ELEMENT)] + (Text(TYPE, log.kind) + Place(log.file, log.line, o)));
      TextElement(TEXT_ELEMENT, log.text);
      LogContexts(log.contexts);
      FlattenConcat([Worded(TEXT_ELEMENT, log.text)], Contexts(log.contexts));
      assert xml.Events() == head + FlattenAll([Worded(TEXT_ELEMENT, log.text)] + Contexts(log.contexts));
      Finish();
      FlattenOne(MessageElement(log, o));
    }

    /** An element that is written only under a condition. */
    method TextElementWhen(c: bool, name: Name, text: CString)
      requires Valid()
      modifies xml
      ensures Valid() && xml.tags == old(xml.tags)
      ensures xml.Events() == old(xml.Events()) + FlattenAll(When(c, name, text))
    {
      if c {
        TextElement(name, text);
      } else {
        assert FlattenAll([]) == [];
      }
    }

    method AssertionElements(log: Log)
      requires Valid() && log.Assertion?
      modifies xml
      ensures Valid() && xml.tags == old(xml.tags)
      ensures xml.Events() == old(xml.Events()) + FlattenAll(AssertionKids(log))
    {
      hide XmlWriter.XmlWriter.Valid, XmlWriter.XmlWriter.Events, OpenAfter, FlattenAll, Worded, When;
      ghost var before, kids := xml.Events(), [Worded(ORIGINAL_ELEMENT, log.expr)];
      TextElement(ORIGINAL_ELEMENT, log.expr);
      kids := ChainElements(before, kids, When(log.threw, EXCEPTION_ELEMENT, log.exception));
      TextElementWhen(log.threw, EXCEPTION_ELEMENT, log.exception);
      kids := ChainElements(before, kids, When(log.throwsAs, EXPECTED_EXCEPTION_ELEMENT, log.exceptionType));
      TextElementWhen(log.throwsAs, EXPECTED_EXCEPTION_ELEMENT, log.exceptionType);
      kids := ChainElements(before, kids, When(log.throwsWith, EXPECTED_EXCEPTION_STRING_ELEMENT, log.exceptionString));
      TextElementWhen(log.throwsWith, EXPECTED_EXCEPTION_STRING_ELEMENT, log.exceptionString);
      kids := ChainElements(before, kids, When(log.normal && !log.threw, EXPANDED_ELEMENT, log.decomposed));
      TextElementWhen(log.normal && !log.threw, EXPANDED_ELEMENT, log.decomposed);
      assert kids == AssertionKids(log);
    }

    method AssertionAttributes(log: Log)
      requires Valid() && log.Assertion? && xml.tagIsOpen
      modifies xml
      ensures Valid() && xml.tagIsOpen && xml.tags == old(xml.tags)
      ensures xml.Events() == old(xml.Events()) + ExpressionAttributes(log, o)
    {
      hide XmlWriter.XmlWriter.Valid, XmlWriter.XmlWriter.Events, OpenAfter, Text, Place, Flag;
      FlagAttribute(SUCCESS, !log.failed);
      TextAttribute(TYPE, log.kind);
      PlaceAttributes(log.file, log.line);
    }

    method ExpressionElement(log: Log)
      requires Valid() && log.Assertion?
      modifies xml
      ensures Valid() && xml.Events() == old(xml.Events()) + Flatten(XmlReport.ExpressionElement(log, o))
    {
      hide XmlWriter.XmlWriter.Valid, XmlWriter.XmlWriter.Events, OpenAfter, FlattenAll, Contexts;
      hide AssertionKids, ExpressionAttributes;
      ghost var before := xml.Events();
      Begin(EXPRESSION_ELEMENT);
      AssertionAttributes(log);
      ghost var head := [Start(EXPRESSION_ELEMENT)] + ExpressionAttributes(log, o);
      assert xml.Events() == before + head;
      AssertionElements(log);
      LogContexts(log.contexts);
      ghost var kids := AssertionKids(log) + Contexts(log.contexts);
      FlattenConcat(AssertionKids(log), Contexts(log.contexts));
      assert xml.Events() == before + (head + FlattenAll(kids));
      Finish();
      assert xml.Events() == before + (head + FlattenAll(kids) + [End(EXPRESSION_ELEMENT)]);
    }

    method LogAssert(log: Log)
      requires Valid() && log.Assertion?
      modifies xml
      ensures Valid() && xml.Events() == old(xml.Events()) + FlattenAll(LogElements(log, o))
    {
      hide XmlWriter.XmlWriter.Valid, XmlWriter.XmlWriter.Events, OpenAfter, XmlReport.ExpressionElement, Flatten;
      if !log.failed && !o.success {
        NoElements();
        return;
      }
      ExpressionElement(log);
      FlattenOne(XmlReport.ExpressionElement(log, o));
    }

    method ResultAttributes(all: int, failed: int)
      requires Valid() && xml.tagIsOpen
      modifies xml
      ensures Valid() && xml.tagIsOpen && xml.tags == old(xml.tags)
      ensures xml.Events() == old(xml.Events()) + Results(all, failed)
    {
      NumberAttribute(SUCCESSES, all - failed);
      NumberAttribute(FAILURES, failed);
    }

    method CaseResultElement(in': TestCase, st: CaseStats)
      requires Valid()
      modifies xml
      ensures Valid() && xml.Events() == old(xml.Events()) + Flatten(CaseResults(in', st))
    {
      hide XmlWriter.XmlWriter.Valid, XmlWriter.XmlWriter.Events, OpenAfter, Number, Results;
      ghost var before := xml.Events();
      Begin(OVERALL_RESULTS_ASSERTS_ELEMENT);
      ghost var told := Results(st.asserts, st.failed);
      ResultAttributes(st.asserts, st.failed);
      ghost var more := if in'.expectedFailures != 0 then Number(EXPECTED_FAILURES, in'.expectedFailures) else [];
      if in'.expectedFailures != 0 {
        NumberAttribute(EXPECTED_FAILURES, in'.expectedFailures);
      }
      Finish();
      FlattenLeaf(before, OVERALL_RESULTS_ASSERTS_ELEMENT, told, more);
    }

    method TestCaseEnd(st: CaseStats)
      requires Valid() && tc.Some? && Fits(XmlOfEvent(CaseEnd(st), tc, o))
      modifies xml
      ensures Valid() && xml.Events() == old(xml.Events()) + XmlOfEvent(CaseEnd(st), tc, o)
    {
      hide XmlWriter.XmlWriter.Valid, XmlWriter.XmlWriter.Events, OpenAfter, CaseResults, Flatten;
      ghost var before, results := xml.Events(), Flatten(CaseResults(tc.value, st));
      CaseResultElement(tc.value, st);
      assert before + (results + [End(TEST_CASE_ELEMENT)]) == before + results + [End(TEST_CASE_ELEMENT)];
      EndNamed(TEST_CASE_ELEMENT);
    }

    method ResultElements(p: RunStats)
      requires Valid()
      modifies xml
      ensures Valid() && xml.Events() == old(xml.Events()) + FlattenAll(RunResults(p, o))
    {
      hide XmlWriter.XmlWriter.Valid, XmlWriter.XmlWriter.Events, OpenAfter, AssertResults, CasesResults;
      hide Flatten, FlattenAll;
      AssertResultElement(p);
      CasesResultElement(p);
      FlattenConcat([AssertResults(p)], [CasesResults(p, o)]);
      FlattenOne(AssertResults(p));
      FlattenOne(CasesResults(p, o));
    }

    method AssertResultElement(p: RunStats)
      requires Valid()
      modifies xml
      ensures Valid() && xml.Events() == old(xml.Events()) + Flatten(AssertResults(p))
    {
      hide XmlWriter.XmlWriter.Valid, XmlWriter.XmlWriter.Events, OpenAfter, Number, Results;
      ghost var before := xml.Events();
      Begin(OVERALL_RESULTS_ASSERTS_ELEMENT);
      ResultAttributes(p.asserts, p.failed);
      Finish();
      FlattenLeaf(before, OVERALL_RESULTS_ASSERTS_ELEMENT, Results(p.asserts, p.failed), []);
      assert Results(p.asserts, p.failed) + [] == Results(p.asserts, p.failed);
    }

    method CasesResultElement(p: RunStats)
      requires Valid()
      modifies xml
      ensures Valid() && xml.Events() == old(xml.Events()) + Flatten(CasesResults(p, o))
    {
      hide XmlWriter.XmlWriter.Valid, XmlWriter.XmlWriter.Events, OpenAfter, Number, Results;
      ghost var before := xml.Events();
      Begin(OVERALL_RESULTS_TEST_CASES_ELEMENT);
      ghost var told := Results(p.passingFilters, p.casesFailed);
      ResultAttributes(p.passingFilters, p.casesFailed);
      ghost var more := if o.noSkippedSummary then [] else Number(SKIPPED, p.cases - p.passingFilters);
      if !o.noSkippedSummary {
        NumberAttribute(SKIPPED, p.cases - p.passingFilters);
      }
      Finish();
      FlattenLeaf(before, OVERALL_RESULTS_TEST_CASES_ELEMENT, told, more);
    }

    method TestRunEnd(p: RunStats)
      requires Valid() && Fits(XmlOfEvent(RunEnd(p), tc, o))
      modifies xml
      ensures Valid() && xml.Events() == old(xml.Events()) + XmlOfEvent(RunEnd(p), tc, o)
    {
      hide XmlWriter.XmlWriter.Valid, XmlWriter.XmlWriter.Events, OpenAfter, RunResults, FlattenAll;
      ghost var before := xml.Events();
      ghost var more, results := XmlOfEvent(RunEnd(p), tc, o), FlattenAll(RunResults(p, o));
      if tc.Some? {
        assert before + more == before + [End(TEST_SUITE_ELEMENT)] + (results + [End(DOCTEST_ELEMENT)]);
        PrefixNests(before + [End(TEST_SUITE_ELEMENT)], results + [End(DOCTEST_ELEMENT)]);
        EndNamed(TEST_SUITE_ELEMENT);
      }
      ResultElements(p);
      assert xml.Events() + [End(DOCTEST_ELEMENT)] == before + more;
      EndNamed(DOCTEST_ELEMENT);
    }

    /** What the runner calls for each event. */
    method Notify(e: Event)
      requires Valid() && Fits(XmlOfEvent(e, tc, o)) && (e.CaseEnd? ==> tc.Some?)
      modifies this, xml
      ensures Valid() && tc == LastAfter(e, old(tc), o)
      ensures xml.Events() == old(xml.Events()) + XmlOfEvent(e, old(tc), o)
    {
      hide XmlWriter.XmlWriter.Valid, XmlWriter.XmlWriter.Events, OpenAfter, SuiteChange, LogElements;
      hide FlattenAll, XmlReport.CaseAttributes;
      hide Text, Flatten, CaseResults, RunResults, OptionsElement, XmlReport.RootAttributes, SubCaseAttributes;
      match e
      case RunStart => TestRunStart();
      case CaseStart(in') =>
        StartFits(e, SuiteChange(in', tc), [Start(TEST_CASE_ELEMENT)] + XmlReport.CaseAttributes(in', o));
        TestCaseStart(in');
      case CaseSkipped(in') =>
        if !o.noSkippedSummary {
          StartFits(e, SuiteChange(in', tc),
                    [Start(TEST_CASE_ELEMENT)] + XmlReport.CaseAttributes(in', o) + Text(SKIPPED, TRUE_STRING)
                    + [End(TEST_CASE_ELEMENT)]);
        }
        TestCaseSkipped(in');
      case SubcaseStart(sig) => SubcaseStart(sig);
      case SubcaseEnd => SubcaseEnd();
      case Logged(log) =>
        if log.Message? {
          LogMessage(log);
        } else {
          LogAssert(log);
        }
      case Reenter =>
      case CaseEnd(stats) => TestCaseEnd(stats);
      case RunEnd(totals) => TestRunEnd(totals);
    }

    ghost method StartFits(e: Event, first: seq<XmlEvent>, rest: seq<XmlEvent>)
      requires Fits(XmlOfEvent(e, tc, o)) && XmlOfEvent(e, tc, o) == first + rest
      ensures Fits(first)
    {
      hide XmlWriter.XmlWriter.Valid, XmlWriter.XmlWriter.Events, OpenAfter, XmlOfEvent;
      assert xml.Events() + (first + rest) == xml.Events() + first + rest;
      PrefixNests(xml.Events() + first, rest);
    }

    /** A whole run, told to a reporter that has written nothing yet. */
    method Report(events: seq<Event>)
      requires Valid() && xml.Events() == [] && tc == None
      requires OpenAfter(XmlOf(events, None, o)).Some? && Started(events, None, o)
      modifies this, xml
      ensures Valid() && xml.Events() == XmlOf(events, None, o)
    {
      hide XmlWriter.XmlWriter.Valid, XmlWriter.XmlWriter.Events, OpenAfter, XmlOfEvent, LastAfter;
      assert events[0..] == events;
      for n := 0 to |events|
        invariant Valid() && Started(events[n..], tc, o)
        invariant XmlOf(events, None, o) == xml.Events() + XmlOf(events[n..], tc, o)
      {
        assert events[n..][1..] == events[n + 1..];
        ghost var own, rest := XmlOfEvent(events[n], tc, o), XmlOf(events[n + 1..], LastAfter(events[n], tc, o), o);
        assert XmlOf(events, None, o) == xml.Events() + own + rest;
        PrefixNests(xml.Events() + own, rest);
        Notify(events[n]);
      }
      assert events[|events|..] == [];
    }
  }

  /**
    Running the tests and writing their report: a reader of the bytes sees the tags of exactly
    one document, that of the tests that ran, and nothing is left open.  If it also expands
    entities it sees that document with all of them expanded.
   */
  method WriteReport(tests: seq<TestCase>, r: ContextRun.Options, filter: SubcaseFilter, o: Options)
    returns (bytes: Bytes)
    requires forall i :: 0 <= i < |tests| ==> SubcaseTree.Distinct(tests[i].body)
    ensures Settle(ScanAll(BEGIN, bytes)) == Scan(Content, [], Flatten(Document(tests, r, filter, o)), [])
    ensures XmlReadBack.ExpandEvents(Settle(ScanAll(BEGIN, bytes)).events)
         == Flatten(XmlReadBack.Original(Document(tests, r, filter, o)))
  {
    hide XmlOf, Flatten, Document, ContextRun.ReportedEvents, OpenAfter, Started;
    var context := new ContextRun.Context(r, filter);
    context.Run(tests);
    assert context.p.trace == ContextRun.ReportedEvents(tests, r, filter);
    var reporter := new XmlReporter(o);
    ReportIsDocument(tests, r, filter, o);
    DocumentNests(Document(tests, r, filter, o));
    XmlReadBack.OriginalReadBack(Document(tests, r, filter, o));
    reporter.Report(context.p.trace);
    reporter.xml.TagsAreOpen();
    bytes := reporter.xml.os;
  }

  lemma DocumentNests(e: Element)
    ensures OpenAfter(Flatten(e)) == Some([])
  {
    FlattenNests(e, [], []);
    assert [] + Flatten(e) == Flatten(e);
  }

  /** An element without elements in it, written in two groups of attributes. */
  lemma FlattenLeaf(before: seq<XmlEvent>, name: Bytes, first: seq<InnerEvent>, second: seq<InnerEvent>)
    ensures before + [Start(name)] + first + second + [End(name)] == before + Flatten(Element(name, first + second, []))
    ensures before + [Start(name)] + first + [End(name)] == before + Flatten(Element(name, first, []))
  {
    NoElements();
    assert Flatten(Element(name, first, [])) == [Start(name)] + first + [End(name)];
  }

  lemma NoElements()
    ensures FlattenAll([]) == []
  {
  }

  /** One more piece behind `told`; the pieces written one by one add up. */
  ghost function Chain(before: seq<XmlEvent>, told: seq<InnerEvent>, more: seq<InnerEvent>): (all: seq<InnerEvent>)
    ensures all == told + more
    ensures before + told + more == before + all
  {
    told + more
  }

  ghost function ChainElements(before: seq<XmlEvent>, told: seq<Element>, more: seq<Element>): (all: seq<Element>)
    ensures all == told + more
    ensures before + FlattenAll(told) + FlattenAll(more) == before + FlattenAll(all)
  {
    FlattenConcat(told, more);
    told + more
  }

  lemma NoContexts(before: seq<XmlEvent>)
    ensures before + FlattenAll(Contexts([])) == before
  {
  }

  lemma OneMoreContext(contexts: seq<CString>, i: nat)
    requires i < |contexts|
    ensures Contexts(contexts[..i + 1]) == Contexts(contexts[..i]) + [Worded(INFO_ELEMENT, contexts[i])]
  {
    hide Worded;
    ContextsSnoc(contexts[..i], contexts[i]);
    assert contexts[..i + 1] == contexts[..i] + [contexts[i]];
  }

  lemma {:induction false} ContextsSnoc(contexts: seq<CString>, last: CString)
    ensures Contexts(contexts + [last]) == Contexts(contexts) + [Worded(INFO_ELEMENT, last)]
    decreases |contexts|
  {
    if contexts != [] {
      ContextsSnoc(contexts[1..], last);
      assert (contexts + [last])[1..] == contexts[1..] + [last];
    }
  }
}
