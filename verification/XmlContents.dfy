/**
  What a report tells a reader that looks attributes and elements up by their names: the values
  in it, which assertions and test cases appear, and in which suites.
 */
module XmlContents {
  import opened Common
  import opened Numbers
  import opened TestModel
  import opened SubcaseFilters
  import opened XmlEncode
  import opened XmlNames
  import opened XmlReport
  import opened XmlReadBack
  import opened XmlWriter
  import X = XmlScanner
  import ContextRun

  // ----- Looking up attributes

  /** The value of the first attribute with this name, entities and escapes undone. */
  function Find(events: seq<X.XmlEvent>, name: Bytes): Option<Bytes> {
    if events == [] then None
    else if events[0].Attribute? && events[0].name == name then Some(Unescape(events[0].value))
    else Find(events[1..], name)
  }

  function FindNumber(events: seq<X.XmlEvent>, name: Bytes): Option<int> {
    match Find(events, name)
    case None => None
    case Some(value) => ReadNumber(value)
  }

  /** Nothing is written for an empty text. */
  function Given(text: CString): Option<Bytes> {
    if text == "" then None else Some(Ascii(text))
  }

  function Lowered(flag: bool): Bytes {
    Ascii(if flag then "true" else "false")
  }

  /** The text holds no `\\x` with two hexadecimal digits of its own. */
  predicate Unambiguous(text: CString) {
    forall i :: 0 <= i < |text| ==> !LooksEscaped(Ascii(text), i)
  }

  lemma {:induction false} FindBehind(a: seq<X.XmlEvent>, b: seq<X.XmlEvent>, name: Bytes)
    ensures Find(a + b, name) == if Find(a, name).Some? then Find(a, name) else Find(b, name)
    decreases |a|
  {
    if a == [] {
      assert a + b == b;
    } else {
      assert (a + b)[0] == a[0] && (a + b)[1..] == a[1..] + b;
      FindBehind(a[1..], b, name);
    }
  }

  lemma FindConcat(a: seq<X.XmlEvent>, b: seq<X.XmlEvent>)
    ensures forall name :: Find(a + b, name) == if Find(a, name).Some? then Find(a, name) else Find(b, name)
  {
    forall name ensures Find(a + b, name) == if Find(a, name).Some? then Find(a, name) else Find(b, name) {
      FindBehind(a, b, name);
    }
  }

  lemma FindOne(name: Bytes, value: Bytes)
    ensures forall n :: Find([X.Attribute(name, value)], n) == if n == name then Some(Unescape(value)) else None
  {
    assert [X.Attribute(name, value)][1..] == [];
  }

  lemma FindNone()
    ensures forall n :: Find([], n) == None
  {
  }

  /** A text is found under its name, exactly if it holds nothing that looks like an escape. */
  lemma FindText(name: Bytes, text: CString)
    requires name != []
    ensures Find(Text(name, text), name) == Given(text) <==> Unambiguous(text)
    ensures forall n :: n != name ==> Find(Text(name, text), n) == None
  {
    hide Unescape, Encoding, LooksEscaped, Find;
    UnescapeReadsBack(Ascii(text), ForAttributes);
    FindNone();
    FindOne(name, Encoding(Ascii(text), 0, ForAttributes));
  }

  lemma NoBackslash(b: Bytes)
    requires forall i :: 0 <= i < |b| ==> b[i] != 0x5C
    ensures forall i :: 0 <= i < |b| ==> !LooksEscaped(b, i)
  {
  }

  /** A reader of a number attribute gets the number. */
  lemma FindNumberIn(name: Bytes, value: int)
    requires name != []
    ensures FindNumber(Number(name, value), name) == Some(value)
    ensures forall n :: n != name ==> Find(Number(name, value), n) == None
    ensures Find(Number(name, value), name) == Some(Decimal(value))
  {
    hide Unescape, Encoding, LooksEscaped, Find;
    DecimalReadsBack(value);
    NoBackslash(Decimal(value));
    UnescapeReadsBack(Decimal(value), ForAttributes);
    FindOne(name, Encoding(Decimal(value), 0, ForAttributes));
  }

  lemma FindFlag(name: Bytes, flag: bool)
    ensures forall n :: Find(Flag(name, flag), n) == if n == name then Some(Lowered(flag)) else None
  {
    hide Unescape, Find;
    var written := if flag then TRUE_TEXT else FALSE_TEXT;
    assert written == Lowered(flag);
    UnescapePlain(written, []);
    UnescapeNothing();
    assert written + [] == written;
    FindOne(name, written);
  }

  // ----- Attributes, element by element

  lemma CaseNames()
    ensures |NAME| == 4 && NAME[0] == 'n' as int && |LINE| == 4 && LINE[0] == 'l' as int
    ensures |FILENAME| == 8 && FILENAME[0] == 'f' as int && |MAY_FAIL| == 8 && MAY_FAIL[0] == 'm' as int
    ensures |DESCRIPTION| == 11 && DESCRIPTION[0] == 'd' as int
    ensures |SHOULD_FAIL| == 11 && SHOULD_FAIL[0] == 's' as int
    ensures |TIMEOUT| == 7 && TIMEOUT[0] == 't' as int && |SKIPPED| == 7 && SKIPPED[0] == 's' as int
  {
  }

  lemma OptionNames()
    ensures |ORDER_BY| == 8 && ORDER_BY[0] == 'o' as int && |NO_THROW| == 8 && NO_THROW[0] == 'n' as int
    ensures |FIRST| == 5 && |LAST| == 4 && |RAND_SEED| == 9 && |ABORT_AFTER| == 11 && |NO_SKIP| == 7
    ensures |SUBCASE_FILTER_LEVELS| == 21 && |CASE_SENSITIVE| == 14
  {
  }

  lemma OtherNames()
    ensures |SUCCESS| == 7 && |TYPE| == 4 && TYPE[0] == 't' as int && |BINARY| == 6 && |VERSION| == 7
    ensures |SUCCESSES| == 9 && |FAILURES| == 8 && |EXPECTED_FAILURES| == 17
  {
  }

  /** Where something is: its line is 0 if line numbers are not wanted. */
  ghost predicate PlaceFound(events: seq<X.XmlEvent>, file: CString, line: int, o: Options) {
    && Find(events, FILENAME) == Given(file)
    && FindNumber(events, LINE) == Some(if o.noLineNumbers then 0 else line)
  }

  lemma FindPlace(file: CString, line: int, o: Options)
    requires Unambiguous(file)
    ensures PlaceFound(Place(file, line, o), file, line, o)
    ensures forall n :: n != FILENAME && n != LINE ==> Find(Place(file, line, o), n) == None
  {
    hide Find, Text, Number, Unambiguous, Decimal, ReadNumber;
    CaseNames();
    FindText(FILENAME, file);
    FindNumberIn(LINE, LineOf(line, o));
    FindConcat(Text(FILENAME, file), Number(LINE, LineOf(line, o)));
  }

  lemma SubCaseRead(sig: Signature, o: Options)
    requires Unambiguous(sig.name) && Unambiguous(sig.file)
    ensures var read := SubCaseAttributes(sig, o);
            Find(read, NAME) == Given(sig.name) && PlaceFound(read, sig.file, sig.line, o)
  {
    hide Find, Text, Place, Unambiguous;
    CaseNames();
    FindText(NAME, sig.name);
    FindPlace(sig.file, sig.line, o);
    FindConcat(Text(NAME, sig.name), Place(sig.file, sig.line, o));
  }

  /** A test case with its decorators; the marks are there exactly if they are set. */
  lemma CaseRead(tc: TestCase, o: Options)
    requires Unambiguous(tc.name) && Unambiguous(tc.file) && Unambiguous(tc.description) && Unambiguous(tc.timeout)
    ensures var read := CaseAttributes(tc, o);
            && Find(read, NAME) == Given(tc.name) && PlaceFound(read, tc.file, tc.line, o)
            && Find(read, DESCRIPTION) == Given(tc.description) && Find(read, TIMEOUT) == Given(tc.timeout)
            && Find(read, MAY_FAIL) == (if tc.mayFail then Some(Lowered(true)) else None)
            && Find(read, SHOULD_FAIL) == (if tc.shouldFail then Some(Lowered(true)) else None)
            && Find(read, SKIPPED) == None
  {
    hide Find, Text, Place, Flag, Unambiguous, ReadNumber;
    CaseNames();
    FindText(NAME, tc.name);
    FindPlace(tc.file, tc.line, o);
    FindText(DESCRIPTION, tc.description);
    FindText(TIMEOUT, tc.timeout);
    FindFlag(MAY_FAIL, true);
    FindFlag(SHOULD_FAIL, true);
    FindNone();
    var own, where := Text(NAME, tc.name), Place(tc.file, tc.line, o);
    var about, limit := Text(DESCRIPTION, tc.description), Text(TIMEOUT, tc.timeout);
    var may := if tc.mayFail then Flag(MAY_FAIL, true) else [];
    var should := if tc.shouldFail then Flag(SHOULD_FAIL, true) else [];
    FindConcat(own, where);
    FindConcat(own + where, about);
    FindConcat(own + where + about, limit);
    FindConcat(own + where + about + limit, may);
    FindConcat(own + where + about + limit + may, should);
    assert CaseAttributes(tc, o) == own + where + about + limit + may + should;
  }

  /** A test case is marked as skipped exactly if it did not run. */
  lemma SkippedRead(e: Entry, filter: SubcaseFilter, o: Options)
    requires Unambiguous(e.tc.name) && Unambiguous(e.tc.file)
    requires Unambiguous(e.tc.description) && Unambiguous(e.tc.timeout)
    ensures var read := CaseElement(e, filter, o);
            read.name == TEST_CASE_ELEMENT
            && Find(read.attributes, SKIPPED) == if e.runs then None else Some(Lowered(true))
  {
    hide Find, Text, CaseAttributes, RunsElements, Unambiguous;
    CaseRead(e.tc, o);
    CaseNames();
    FindText(SKIPPED, TRUE_STRING);
    TrueIsPlain();
    FindConcat(CaseAttributes(e.tc, o), Text(SKIPPED, TRUE_STRING));
  }

  lemma TrueIsPlain()
    ensures Unambiguous(TRUE_STRING) && Given(TRUE_STRING) == Some(Lowered(true))
  {
    NoBackslash(Ascii(TRUE_STRING));
  }

  lemma OptionsRead(o: Options)
    requires Unambiguous(o.orderBy)
    ensures var read := OptionAttributes(o);
            && Find(read, ORDER_BY) == Given(o.orderBy) && FindNumber(read, RAND_SEED) == Some(o.randSeed)
            && FindNumber(read, FIRST) == Some(o.first) && FindNumber(read, LAST) == Some(o.last)
            && FindNumber(read, ABORT_AFTER) == Some(o.abortAfter)
            && FindNumber(read, SUBCASE_FILTER_LEVELS) == Some(o.subcaseLevels)
            && Find(read, CASE_SENSITIVE) == Some(Lowered(o.caseSensitive))
            && Find(read, NO_THROW) == Some(Lowered(o.noThrow)) && Find(read, NO_SKIP) == Some(Lowered(o.noSkip))
  {
    hide Find, Text, Number, Flag, Unambiguous, Decimal, ReadNumber;
    OptionNames();
    FindText(ORDER_BY, o.orderBy);
    FindNumberIn(RAND_SEED, o.randSeed);
    FindNumberIn(FIRST, o.first);
    FindNumberIn(LAST, o.last);
    FindNumberIn(ABORT_AFTER, o.abortAfter);
    FindNumberIn(SUBCASE_FILTER_LEVELS, o.subcaseLevels);
    FindFlag(CASE_SENSITIVE, o.caseSensitive);
    FindFlag(NO_THROW, o.noThrow);
    FindFlag(NO_SKIP, o.noSkip);
    var a := Text(ORDER_BY, o.orderBy);
    FindConcat(a, Number(RAND_SEED, o.randSeed));
    var b := a + Number(RAND_SEED, o.randSeed);
    FindConcat(b, Number(FIRST, o.first));
    var d := b + Number(FIRST, o.first);
    FindConcat(d, Number(LAST, o.last));
    var e := d + Number(LAST, o.last);
    FindConcat(e, Number(ABORT_AFTER, o.abortAfter));
    var f := e + Number(ABORT_AFTER, o.abortAfter);
    FindConcat(f, Number(SUBCASE_FILTER_LEVELS, o.subcaseLevels));
    var g := f + Number(SUBCASE_FILTER_LEVELS, o.subcaseLevels);
    FindConcat(g, Flag(CASE_SENSITIVE, o.caseSensitive));
    var h := g + Flag(CASE_SENSITIVE, o.caseSensitive);
    FindConcat(h, Flag(NO_THROW, o.noThrow));
    FindConcat(h + Flag(NO_THROW, o.noThrow), Flag(NO_SKIP, o.noSkip));
  }

  lemma RootRead(o: Options)
    requires Unambiguous(o.binary) && Unambiguous(o.version)
    ensures var read := RootAttributes(o);
            && Find(read, BINARY) == Given(o.binary)
            && Find(read, VERSION) == if o.noVersion then None else Given(o.version)
  {
    hide Find, Text, Unambiguous;
    OtherNames();
    FindText(BINARY, o.binary);
    FindText(VERSION, o.version);
    FindNone();
    FindConcat(Text(BINARY, o.binary), if o.noVersion then [] else Text(VERSION, o.version));
  }

  lemma ExpressionRead(log: Log, o: Options)
    requires log.Assertion? && Unambiguous(log.kind) && Unambiguous(log.file)
    ensures var read := ExpressionAttributes(log, o);
            && Find(read, SUCCESS) == Some(Lowered(!log.failed)) && Find(read, TYPE) == Given(log.kind)
            && PlaceFound(read, log.file, log.line, o)
  {
    hide Find, Text, Flag, Place, Unambiguous;
    CaseNames();
    OtherNames();
    FindFlag(SUCCESS, !log.failed);
    FindText(TYPE, log.kind);
    FindPlace(log.file, log.line, o);
    FindConcat(Flag(SUCCESS, !log.failed), Text(TYPE, log.kind));
    FindConcat(Flag(SUCCESS, !log.failed) + Text(TYPE, log.kind), Place(log.file, log.line, o));
  }

  lemma MessageRead(log: Log, o: Options)
    requires log.Message? && Unambiguous(log.kind) && Unambiguous(log.file)
    ensures var read := MessageElement(log, o).attributes;
            Find(read, TYPE) == Given(log.kind) && PlaceFound(read, log.file, log.line, o)
  {
    hide Find, Text, Place, Unambiguous;
    CaseNames();
    OtherNames();
    FindText(TYPE, log.kind);
    FindPlace(log.file, log.line, o);
    FindConcat(Text(TYPE, log.kind), Place(log.file, log.line, o));
  }

  lemma ResultsRead(all: int, failed: int)
    ensures var read := Results(all, failed);
            && FindNumber(read, SUCCESSES) == Some(all - failed) && FindNumber(read, FAILURES) == Some(failed)
            && forall n :: n != SUCCESSES && n != FAILURES ==> Find(read, n) == None
  {
    hide Find, Number, Decimal, ReadNumber;
    OtherNames();
    FindNumberIn(SUCCESSES, all - failed);
    FindNumberIn(FAILURES, failed);
    FindConcat(Number(SUCCESSES, all - failed), Number(FAILURES, failed));
  }

  /** The results of a test case: its failures, and the number of failures it expects, if any. */
  lemma CaseResultsRead(tc: TestCase, stats: CaseStats)
    ensures var read := CaseResults(tc, stats).attributes;
            && FindNumber(read, SUCCESSES) == Some(stats.asserts - stats.failed)
            && FindNumber(read, FAILURES) == Some(stats.failed)
            && FindNumber(read, EXPECTED_FAILURES)
               == if tc.expectedFailures == 0 then None else Some(tc.expectedFailures)
  {
    hide Find, Number, Decimal, ReadNumber, Results;
    OtherNames();
    FindNone();
    ResultsRead(stats.asserts, stats.failed);
    FindNumberIn(EXPECTED_FAILURES, tc.expectedFailures);
    FindConcat(Results(stats.asserts, stats.failed),
               if tc.expectedFailures != 0 then Number(EXPECTED_FAILURES, tc.expectedFailures) else []);
  }

  /** The results of a run: its test cases, and how many were skipped unless that is not wanted. */
  lemma CasesResultsRead(s: RunStats, o: Options)
    ensures var read := CasesResults(s, o).attributes;
            && FindNumber(read, SUCCESSES) == Some(s.passingFilters - s.casesFailed)
            && FindNumber(read, FAILURES) == Some(s.casesFailed)
            && FindNumber(read, SKIPPED) == if o.noSkippedSummary then None else Some(s.cases - s.passingFilters)
  {
    hide Find, Number, Decimal, ReadNumber, Results;
    CaseNames();
    OtherNames();
    FindNone();
    ResultsRead(s.passingFilters, s.casesFailed);
    FindNumberIn(SKIPPED, s.cases - s.passingFilters);
    FindConcat(Results(s.passingFilters, s.casesFailed),
               if o.noSkippedSummary then [] else Number(SKIPPED, s.cases - s.passingFilters));
  }

  // ----- Which elements there are

  /** The first element with this name. */
  ghost function FindElement(kids: seq<Element>, name: Bytes): Option<Element> {
    if kids == [] then None
    else if kids[0].name == name then Some(kids[0])
    else FindElement(kids[1..], name)
  }

  /** An element with this text, if `c` holds. */
  ghost function Told(c: bool, name: Bytes, text: CString): Option<Element> {
    if c then Some(Worded(name, text)) else None
  }

  lemma {:induction false} ElementBehind(a: seq<Element>, b: seq<Element>, name: Bytes)
    ensures FindElement(a + b, name) == if FindElement(a, name).Some? then FindElement(a, name)
            else FindElement(b, name)
    decreases |a|
  {
    if a == [] {
      assert a + b == b;
    } else {
      assert (a + b)[0] == a[0] && (a + b)[1..] == a[1..] + b;
      ElementBehind(a[1..], b, name);
    }
  }

  lemma ElementConcat(a: seq<Element>, b: seq<Element>)
    ensures forall n :: FindElement(a + b, n)
                     == if FindElement(a, n).Some? then FindElement(a, n) else FindElement(b, n)
  {
    forall n ensures FindElement(a + b, n)
                  == if FindElement(a, n).Some? then FindElement(a, n) else FindElement(b, n) {
      ElementBehind(a, b, n);
    }
  }

  lemma ElementWhen(c: bool, name: Bytes, text: CString)
    ensures forall n :: FindElement(When(c, name, text), n) == if n == name then Told(c, name, text) else None
  {
    assert [Worded(name, text)][1..] == [];
  }

  lemma ElementFirst(name: Bytes, text: CString)
    ensures forall n :: FindElement([Worded(name, text)], n) == if n == name then Told(true, name, text) else None
  {
    assert [Worded(name, text)][1..] == [];
  }

  /** The active contexts, one element each and in order. */
  lemma {:induction false} ContextsRead(contexts: seq<CString>)
    ensures |Contexts(contexts)| == |contexts|
    ensures forall i :: 0 <= i < |contexts| ==> Contexts(contexts)[i] == Worded(INFO_ELEMENT, contexts[i])
    ensures forall n :: n != INFO_ELEMENT ==> FindElement(Contexts(contexts), n) == None
    decreases |contexts|
  {
    if contexts != [] {
      ContextsRead(contexts[1..]);
    }
  }

  lemma KidNames()
    ensures |ORIGINAL_ELEMENT| == 8 && |EXCEPTION_ELEMENT| == 9 && |EXPECTED_EXCEPTION_ELEMENT| == 17
    ensures |EXPECTED_EXCEPTION_STRING_ELEMENT| == 23 && |EXPANDED_ELEMENT| == 8 && |INFO_ELEMENT| == 4
    ensures ORIGINAL_ELEMENT[1] == 'r' as int && EXPANDED_ELEMENT[1] == 'x' as int
  {
  }

  ghost predicate PartsFound(kids: seq<Element>, log: Log)
    requires log.Assertion?
  {
    && FindElement(kids, ORIGINAL_ELEMENT) == Told(true, ORIGINAL_ELEMENT, log.expr)
    && FindElement(kids, EXCEPTION_ELEMENT) == Told(log.threw, EXCEPTION_ELEMENT, log.exception)
    && FindElement(kids, EXPECTED_EXCEPTION_ELEMENT)
       == Told(log.throwsAs, EXPECTED_EXCEPTION_ELEMENT, log.exceptionType)
    && FindElement(kids, EXPECTED_EXCEPTION_STRING_ELEMENT)
       == Told(log.throwsWith, EXPECTED_EXCEPTION_STRING_ELEMENT, log.exceptionString)
    && FindElement(kids, EXPANDED_ELEMENT) == Told(log.normal && !log.threw, EXPANDED_ELEMENT, log.decomposed)
  }

  /** Each part of an assertion is there exactly if it applies, with all contexts behind. */
  lemma PartsRead(log: Log, o: Options)
    requires log.Assertion?
    ensures var kids := ExpressionElement(log, o).kids;
            && PartsFound(kids, log) && |kids| >= |log.contexts|
            && forall i :: 0 <= i < |log.contexts| ==>
                 kids[|kids| - |log.contexts| + i] == Worded(INFO_ELEMENT, log.contexts[i])
  {
    hide FindElement, Told, Contexts, ExpressionAttributes, Worded, AssertionKids;
    KidNames();
    OwnParts(log);
    ContextsRead(log.contexts);
    ElementConcat(AssertionKids(log), Contexts(log.contexts));
  }

  lemma OwnParts(log: Log)
    requires log.Assertion?
    ensures PartsFound(AssertionKids(log), log)
  {
    hide FindElement, Told, When, Worded;
    KidNames();
    var thrown := When(log.threw, EXCEPTION_ELEMENT, log.exception);
    var expected := When(log.throwsAs, EXPECTED_EXCEPTION_ELEMENT, log.exceptionType);
    var message := When(log.throwsWith, EXPECTED_EXCEPTION_STRING_ELEMENT, log.exceptionString);
    var expanded := When(log.normal && !log.threw, EXPANDED_ELEMENT, log.decomposed);
    ElementFirst(ORIGINAL_ELEMENT, log.expr);
    ElementWhen(log.threw, EXCEPTION_ELEMENT, log.exception);
    ElementWhen(log.throwsAs, EXPECTED_EXCEPTION_ELEMENT, log.exceptionType);
    ElementWhen(log.throwsWith, EXPECTED_EXCEPTION_STRING_ELEMENT, log.exceptionString);
    ElementWhen(log.normal && !log.threw, EXPANDED_ELEMENT, log.decomposed);
    var a := [Worded(ORIGINAL_ELEMENT, log.expr)];
    ElementConcat(a, thrown);
    ElementConcat(a + thrown, expected);
    ElementConcat(a + thrown + expected, message);
    ElementConcat(a + thrown + expected + message, expanded);
  }

  /** An assertion is reported exactly if it fails or successes are wanted, a message always. */
  lemma ReportedLogs(log: Log, o: Options)
    ensures |LogElements(log, o)| == if log.Message? || log.failed || o.success then 1 else 0
    ensures LogElements(log, o) != [] ==>
              LogElements(log, o)[0].name == if log.Message? then MESSAGE_ELEMENT else EXPRESSION_ELEMENT
  {
  }

  // ----- Test cases and suites

  /** The test cases in all suites, one suite after another. */
  ghost function CasesIn(suites: seq<Element>): seq<Element> {
    if suites == [] then [] else suites[0].kids + CasesIn(suites[1..])
  }

  /** Every suite is named as the test cases in it. */
  ghost predicate Fitting(suites: seq<Element>, es: seq<Entry>)
    decreases |suites|
  {
    if suites == [] then es == []
    else
      var n := |suites[0].kids|;
      && 0 < n <= |es| && suites[0].name == TEST_SUITE_ELEMENT
      && (forall i :: 0 <= i < n ==> suites[0].attributes == SuiteAttributes(es[i].tc))
      && (n < |es| ==> es[n - 1].tc.suite != es[n].tc.suite)
      && Fitting(suites[1..], es[n..])
  }

  /**
    The suites hold all the reported test cases in order, each in a suite of its own suite's
    name, and a new suite begins only where the name changes.
   */
  lemma {:induction false} SuitesHoldAll(es: seq<Entry>, filter: SubcaseFilter, o: Options)
    ensures |CasesIn(Suites(es, filter, o))| == |es|
    ensures forall i :: 0 <= i < |es| ==> CasesIn(Suites(es, filter, o))[i] == CaseElement(es[i], filter, o)
    ensures Fitting(Suites(es, filter, o), es)
    decreases |es|
  {
    hide CaseElement, SuiteAttributes, Suites;
    NoSuites(filter, o);
    if es != [] {
      SuitesHoldAll(es[1..], filter, o);
      FirstCase(es, filter, o);
      FirstFits(es, filter, o);
    }
  }

  lemma FirstCase(es: seq<Entry>, filter: SubcaseFilter, o: Options)
    requires es != []
    ensures CasesIn(Suites(es, filter, o)) == [CaseElement(es[0], filter, o)] + CasesIn(Suites(es[1..], filter, o))
  {
    hide CaseElement, SuiteAttributes, Suites;
    SuitesCons(es, filter, o);
  }

  lemma FirstFits(es: seq<Entry>, filter: SubcaseFilter, o: Options)
    requires es != [] && Fitting(Suites(es[1..], filter, o), es[1..])
    ensures Fitting(Suites(es, filter, o), es)
  {
    hide CaseElement, Suites, Text;
    var suites, rest := Suites(es, filter, o), Suites(es[1..], filter, o);
    SuitesCons(es, filter, o);
    if |es| > 1 && es[0].tc.suite == es[1].tc.suite {
      var n := |rest[0].kids|;
      assert es[1..][n..] == es[n + 1..];
      assert forall i :: 1 <= i <= n ==> es[i] == es[1..][i - 1];
    }
  }

  /** The test cases that are reported as run are those that ran, in order. */
  ghost function Ran(es: seq<Entry>): seq<TestCase> {
    if es == [] then [] else (if es[0].runs then [es[0].tc] else []) + Ran(es[1..])
  }

  lemma RanCons(e: Entry, es: seq<Entry>)
    ensures Ran([e] + es) == (if e.runs then [e.tc] else []) + Ran(es)
  {
    assert ([e] + es)[1..] == es;
  }

  /**
    The report lists the test cases that ran as run, and with the summary of skipped ones every
    test case, all in order.
   */
  lemma {:induction false} EntriesRead(tests: seq<TestCase>, r: ContextRun.Options, rank: nat, o: Options)
    ensures Ran(Entries(tests, r, rank, o)) == ContextRun.Executed(tests, r, rank)
    ensures var es := Entries(tests, r, rank, o);
            if o.noSkippedSummary then forall i :: 0 <= i < |es| ==> es[i].runs
            else |es| == |tests| && forall i :: 0 <= i < |es| ==> es[i].tc == tests[i]
    decreases |tests|
  {
    hide ContextRun.PassesFilters, ContextRun.InRange, Ran, Entries, ContextRun.Executed;
    if tests == [] {
      NothingListed(tests, r, rank, o);
    } else {
      var passes := ContextRun.PassesFilters(tests[0], r);
      var rank' := if passes then rank + 1 else rank;
      EntriesRead(tests[1..], r, rank', o);
      FirstListed(tests, r, rank, o);
    }
  }

  lemma NothingListed(tests: seq<TestCase>, r: ContextRun.Options, rank: nat, o: Options)
    requires tests == []
    ensures Entries(tests, r, rank, o) == [] && Ran([]) == [] && ContextRun.Executed(tests, r, rank) == []
  {
  }

  lemma FirstListed(tests: seq<TestCase>, r: ContextRun.Options, rank: nat, o: Options)
    requires tests != []
    ensures var passes := ContextRun.PassesFilters(tests[0], r);
            var rank' := if passes then rank + 1 else rank;
            var es, rest := Entries(tests, r, rank, o), Entries(tests[1..], r, rank', o);
            && (es == [Entry(tests[0], passes && ContextRun.InRange(rank', r))] + rest
                || (o.noSkippedSummary && es == rest))
            && (o.noSkippedSummary && es != rest ==> es[0].runs)
            && Ran(es) == (if passes && ContextRun.InRange(rank', r) then [tests[0]] else []) + Ran(rest)
            && ContextRun.Executed(tests, r, rank)
               == (if passes && ContextRun.InRange(rank', r) then [tests[0]] else [])
                  + ContextRun.Executed(tests[1..], r, rank')
  {
    hide ContextRun.PassesFilters, ContextRun.InRange, Ran;
    var passes := ContextRun.PassesFilters(tests[0], r);
    var rank' := if passes then rank + 1 else rank;
    var runs, rest := passes && ContextRun.InRange(rank', r), Entries(tests[1..], r, rank', o);
    RanCons(Entry(tests[0], runs), rest);
    assert [] + rest == rest;
  }
}
