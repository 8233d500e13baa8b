/**
  `Context::run`: which test cases run, what the reporters are told about them, and the
  totals at the end.
 */
module ContextRun {
  import opened Common
  import opened TestModel
  import opened SubcaseTree
  import opened SubcaseFilters
  import opened SubcaseRunner
  import Glob

  datatype Options = Options(
    files: seq<CString>, filesExcluded: seq<CString>,
    suites: seq<CString>, suitesExcluded: seq<CString>,
    names: seq<CString>, namesExcluded: seq<CString>,
    caseSensitive: bool, noSkip: bool, first: nat, last: nat)

  ghost predicate PassesFilters(tc: TestCase, o: Options) {
    && (tc.skip ==> o.noSkip)
    && Glob.Accepts(o.files, tc.file, true, o.caseSensitive)
    && !Glob.Accepts(o.filesExcluded, tc.file, false, o.caseSensitive)
    && Glob.Accepts(o.suites, tc.suite, true, o.caseSensitive)
    && !Glob.Accepts(o.suitesExcluded, tc.suite, false, o.caseSensitive)
    && Glob.Accepts(o.names, tc.name, true, o.caseSensitive)
    && !Glob.Accepts(o.namesExcluded, tc.name, false, o.caseSensitive)
  }

  /** Whether the `rank`-th test that passes the filters is to run; `last` below `first` sets no upper limit. */
  predicate InRange(rank: nat, o: Options) {
    o.first <= rank && (o.first <= o.last ==> rank <= o.last)
  }

  ghost function Passing(tests: seq<TestCase>, o: Options): seq<TestCase> {
    if tests == [] then []
    else (if PassesFilters(tests[0], o) then [tests[0]] else []) + Passing(tests[1..], o)
  }

  /** The tests that run, when `rank` tests before them have passed the filters. */
  ghost function Executed(tests: seq<TestCase>, o: Options, rank: nat): seq<TestCase> {
    if tests == [] then []
    else if !PassesFilters(tests[0], o) then Executed(tests[1..], o, rank)
    else (if InRange(rank + 1, o) then [tests[0]] else []) + Executed(tests[1..], o, rank + 1)
  }

  function WindowLow(n: nat, o: Options, rank: nat): nat {
    Min(Max(o.first - 1 - rank, 0), n)
  }

  function WindowHigh(n: nat, o: Options, rank: nat): nat {
    if o.first <= o.last then Min(Max(o.last - rank, 0), n) else n
  }

  /** `-first` and `-last` cut a window out of the tests that pass the filters. */
  function Window(passing: seq<TestCase>, o: Options, rank: nat): seq<TestCase> {
    var low, high := WindowLow(|passing|, o, rank), WindowHigh(|passing|, o, rank);
    if low <= high then passing[low..high] else []
  }

  /** What the first test that passes does to the window. */
  lemma WindowCons(tc: TestCase, passing: seq<TestCase>, o: Options, rank: nat)
    ensures Window([tc] + passing, o, rank)
         == (if InRange(rank + 1, o) then [tc] else []) + Window(passing, o, rank + 1)
  {
    var all := [tc] + passing;
    var low, high := WindowLow(|all|, o, rank), WindowHigh(|all|, o, rank);
    if InRange(rank + 1, o) {
      assert low == 0 < high && WindowLow(|passing|, o, rank + 1) == 0;
      assert WindowHigh(|passing|, o, rank + 1) == high - 1;
      assert all[0..high] == [tc] + passing[0..high - 1];
    } else if low < high {
      assert WindowLow(|passing|, o, rank + 1) == low - 1 && WindowHigh(|passing|, o, rank + 1) == high - 1;
      assert all[low..high] == passing[low - 1..high - 1];
    } else {
      assert WindowHigh(|passing|, o, rank + 1) <= WindowLow(|passing|, o, rank + 1);
    }
  }

  lemma WindowOfNothing(o: Options, rank: nat)
    ensures Window([], o, rank) == []
  {
  }

  lemma {:induction false} ExecutedIsWindow(tests: seq<TestCase>, o: Options, rank: nat)
    ensures Executed(tests, o, rank) == Window(Passing(tests, o), o, rank)
    decreases |tests|
  {
    hide Window, InRange, PassesFilters;
    if tests == [] {
      WindowOfNothing(o, rank);
    } else if PassesFilters(tests[0], o) {
      ExecutedIsWindow(tests[1..], o, rank + 1);
      WindowCons(tests[0], Passing(tests[1..], o), o, rank);
    } else {
      ExecutedIsWindow(tests[1..], o, rank);
      assert [] + Passing(tests[1..], o) == Passing(tests[1..], o);
    }
  }

  /** One of the patterns matches. */
  ghost predicate MatchedBy(filters: seq<CString>, name: CString, caseSensitive: bool) {
    exists i :: 0 <= i < |filters| && Glob.Matches(filters[i], name, caseSensitive)
  }

  /**
    A test passes if it is not marked to be skipped, or that is overridden, and its file, suite
    and name each match a pattern of what to take, if there are any, and none of what to leave out.
   */
  lemma PassesMeans(tc: TestCase, o: Options)
    ensures PassesFilters(tc, o) <==>
            && (o.noSkip || !tc.skip)
            && (o.files == [] || MatchedBy(o.files, tc.file, o.caseSensitive))
            && (o.suites == [] || MatchedBy(o.suites, tc.suite, o.caseSensitive))
            && (o.names == [] || MatchedBy(o.names, tc.name, o.caseSensitive))
            && !MatchedBy(o.filesExcluded, tc.file, o.caseSensitive)
            && !MatchedBy(o.suitesExcluded, tc.suite, o.caseSensitive)
            && !MatchedBy(o.namesExcluded, tc.name, o.caseSensitive)
  {
  }

  ghost predicate NoFilters(o: Options) {
    o.files == o.filesExcluded == o.suites == o.suitesExcluded == o.names == o.namesExcluded == []
  }

  function Unskipped(tests: seq<TestCase>, o: Options): seq<TestCase> {
    if tests == [] then []
    else (if tests[0].skip && !o.noSkip then [] else [tests[0]]) + Unskipped(tests[1..], o)
  }

  /** Without filters exactly the tests that are not marked to be skipped pass. */
  lemma {:induction false} WithoutFilters(tests: seq<TestCase>, o: Options)
    requires NoFilters(o)
    ensures Passing(tests, o) == Unskipped(tests, o)
    decreases |tests|
  {
    if tests != [] {
      PassesMeans(tests[0], o);
      WithoutFilters(tests[1..], o);
    }
  }

  /** And within the default range all of them run. */
  lemma AllTestsRun(tests: seq<TestCase>, o: Options)
    requires NoFilters(o) && o.first <= 1 && (|tests| <= o.last || o.last < o.first)
    ensures Executed(tests, o, 0) == Unskipped(tests, o)
  {
    hide Passing, Unskipped, Executed, NoFilters;
    WithoutFilters(tests, o);
    ExecutedIsWindow(tests, o, 0);
    PassingIsShorter(tests, o);
    var passing := Passing(tests, o);
    assert passing[0..|passing|] == passing;
  }

  lemma {:induction false} PassingIsShorter(tests: seq<TestCase>, o: Options)
    ensures |Passing(tests, o)| <= |tests|
    decreases |tests|
  {
    hide PassesFilters;
    if tests != [] {
      PassingIsShorter(tests[1..], o);
    }
  }

  // ----- The verdict on one test case

  datatype Reason =
    | AssertFailure
    | Exception
    | Crash
    | Timeout
    | TooManyFailedAsserts
    | ShouldHaveFailedButDidnt
    | ShouldHaveFailedAndDid
    | DidntFailExactlyNumTimes
    | FailedExactlyNumTimes
    | CouldHaveFailedAndDid

  /**
    What the decorators promise: when a test case with this many failed assertions counts as
    failed.  It is broken if it was also left by an exception, took too long or was cut short.
   */
  predicate CaseFails(tc: TestCase, failed: nat, broken: bool) {
    if tc.shouldFail then failed == 0 && !broken
    else if tc.mayFail && (failed > 0 || broken) then false
    else if tc.expectedFailures > 0 then failed != tc.expectedFailures
    else failed > 0 || broken
  }

  /** The decorators one by one, as their documentation has them. */
  lemma DecoratorsMean(tc: TestCase, failed: nat, broken: bool)
    ensures !tc.shouldFail && !tc.mayFail && tc.expectedFailures <= 0 ==>
              (CaseFails(tc, failed, broken) <==> failed > 0 || broken)
    ensures tc.shouldFail ==> (CaseFails(tc, failed, broken) <==> failed == 0 && !broken)
    ensures !tc.shouldFail && tc.mayFail && (failed > 0 || broken) ==> !CaseFails(tc, failed, broken)
    ensures !tc.shouldFail && tc.mayFail && failed == 0 && !broken ==>
              (CaseFails(tc, failed, broken) <==> tc.expectedFailures > 0)
    ensures !tc.shouldFail && !tc.mayFail && tc.expectedFailures > 0 ==>
              (CaseFails(tc, failed, broken) <==> failed != tc.expectedFailures)
  {
  }

  /** `finalizeTestCaseData`: `before` are the flags set while the test ran, which none of its own are. */
  method Finalize(tc: TestCase, failed: nat, before: set<Reason>, tooLate: bool) returns (caseFailed: bool)
    requires before <= {AssertFailure, Exception, Crash, TooManyFailedAsserts}
    ensures caseFailed == CaseFails(tc, failed, before != {} || tooLate)
  {
    var flags := before;
    if failed != 0 {
      flags := flags + {AssertFailure};
    }
    if tooLate {
      flags := flags + {Timeout};
    }
    ghost var broken := flags != {};
    assert broken <==> failed != 0 || before != {} || tooLate;
    if tc.shouldFail {
      if flags != {} {
        flags := flags + {ShouldHaveFailedAndDid};
      } else {
        flags := flags + {ShouldHaveFailedButDidnt};
      }
    } else if flags != {} && tc.mayFail {
      flags := flags + {CouldHaveFailedAndDid};
    } else if tc.expectedFailures > 0 {
      if failed == tc.expectedFailures {
        flags := flags + {FailedExactlyNumTimes};
      } else {
        flags := flags + {DidntFailExactlyNumTimes};
      }
    }
    var okToFail := ShouldHaveFailedAndDid in flags || CouldHaveFailedAndDid in flags || FailedExactlyNumTimes in flags;
    assert flags != {} <==>
           || broken || ShouldHaveFailedButDidnt in flags
           || FailedExactlyNumTimes in flags || DidntFailExactlyNumTimes in flags;
    return flags != {} && !okToFail;
  }

  // ----- What the reporters are told

  ghost function BodyEvents(tc: TestCase, filter: SubcaseFilter): seq<Event> {
    var tree := Prune(tc.body, 0, filter);
    AllRuns(tree, Max(1, |Leaves(tree, [])|))
  }

  ghost function CaseEvents(tc: TestCase, filter: SubcaseFilter): seq<Event> {
    var body := BodyEvents(tc, filter);
    [CaseStart(tc)] + body + [CaseEnd(CaseStats(Asserts(body), Failures(body)))]
  }

  ghost function TestsEvents(tests: seq<TestCase>, o: Options, filter: SubcaseFilter, rank: nat): seq<Event> {
    if tests == [] then []
    else
      var rank' := if PassesFilters(tests[0], o) then rank + 1 else rank;
      (if rank < rank' && InRange(rank', o) then CaseEvents(tests[0], filter) else [CaseSkipped(tests[0])])
      + TestsEvents(tests[1..], o, filter, rank')
  }

  ghost function FailedCases(cases: seq<TestCase>, filter: SubcaseFilter): nat {
    if cases == [] then 0
    else (if CaseFails(cases[0], Failures(BodyEvents(cases[0], filter)), false) then 1 else 0)
         + FailedCases(cases[1..], filter)
  }

  ghost function ReportedEvents(tests: seq<TestCase>, o: Options, filter: SubcaseFilter): seq<Event> {
    var events := TestsEvents(tests, o, filter, 0);
    [RunStart] + events +
    [RunEnd(RunStats(|tests|, |Passing(tests, o)|, FailedCases(Executed(tests, o, 0), filter),
                     Asserts(events), Failures(events)))]
  }

  /** What one more test adds to the events and to the counts. */
  lemma OneTest(tests: seq<TestCase>, n: nat, o: Options, filter: SubcaseFilter, rank: nat)
    requires n < |tests|
    ensures var passes := PassesFilters(tests[n], o);
            var rank' := if passes then rank + 1 else rank;
            var runs := passes && InRange(rank', o);
            && TestsEvents(tests[n..], o, filter, rank)
               == OwnEvents(tests[n], runs, filter) + TestsEvents(tests[n + 1..], o, filter, rank')
            && |Passing(tests[n..], o)| == (if passes then 1 else 0) + |Passing(tests[n + 1..], o)|
            && FailedCases(Executed(tests[n..], o, rank), filter)
               == (if runs && CaseFails(tests[n], Failures(BodyEvents(tests[n], filter)), false) then 1 else 0)
                  + FailedCases(Executed(tests[n + 1..], o, rank'), filter)
  {
    hide CaseFails, BodyEvents, PassesFilters;
    assert tests[n..][1..] == tests[n + 1..];
    var rest := Executed(tests[n + 1..], o, if PassesFilters(tests[n], o) then rank + 1 else rank);
    assert ([tests[n]] + rest)[1..] == rest && [] + rest == rest;
  }

  lemma NothingLeft(o: Options, filter: SubcaseFilter)
    ensures forall rank: nat :: TestsEvents([], o, filter, rank) == [] && Executed([], o, rank) == []
    ensures Passing([], o) == [] && FailedCases([], filter) == 0 && Asserts([]) == 0 && Failures([]) == 0
  {
  }

  ghost function OwnEvents(tc: TestCase, runs: bool, filter: SubcaseFilter): seq<Event> {
    if runs then CaseEvents(tc, filter) else [CaseSkipped(tc)]
  }

  lemma OwnCounts(tc: TestCase, runs: bool, filter: SubcaseFilter)
    ensures Asserts(OwnEvents(tc, runs, filter)) == if runs then Asserts(BodyEvents(tc, filter)) else 0
    ensures Failures(OwnEvents(tc, runs, filter)) == if runs then Failures(BodyEvents(tc, filter)) else 0
  {
    hide BodyEvents;
    var body := BodyEvents(tc, filter);
    if runs {
      CountsSnoc([CaseStart(tc)] + body, CaseEnd(CaseStats(Asserts(body), Failures(body))));
      CountsConcat([CaseStart(tc)], body);
      CountsSnoc([], CaseStart(tc));
      assert [] + [CaseStart(tc)] == [CaseStart(tc)];
    } else {
      CountsSnoc([], CaseSkipped(tc));
      assert [] + [CaseSkipped(tc)] == [CaseSkipped(tc)];
    }
  }

  // ----- Whom the events are about

  /** The test cases that are told to start. */
  ghost function StartedCases(events: seq<Event>): seq<TestCase> {
    if events == [] then []
    else (if events[0].CaseStart? then [events[0].tc] else []) + StartedCases(events[1..])
  }

  /** Those that are told to be skipped. */
  ghost function SkippedCases(events: seq<Event>): seq<TestCase> {
    if events == [] then []
    else (if events[0].CaseSkipped? then [events[0].tc] else []) + SkippedCases(events[1..])
  }

  /** The counts told with the end of each test case, added up. */
  ghost function SumOfCases(events: seq<Event>): CaseStats {
    if events == [] then CaseStats(0, 0)
    else
      var rest := SumOfCases(events[1..]);
      if events[0].CaseEnd? then
        CaseStats(events[0].stats.asserts + rest.asserts, events[0].stats.failed + rest.failed)
      else rest
  }

  lemma {:induction false} StartedConcat(a: seq<Event>, b: seq<Event>)
    ensures StartedCases(a + b) == StartedCases(a) + StartedCases(b)
    decreases |a|
  {
    if a == [] {
      assert a + b == b;
    } else {
      assert (a + b)[0] == a[0] && (a + b)[1..] == a[1..] + b;
      StartedConcat(a[1..], b);
    }
  }

  lemma {:induction false} SkippedConcat(a: seq<Event>, b: seq<Event>)
    ensures SkippedCases(a + b) == SkippedCases(a) + SkippedCases(b)
    decreases |a|
  {
    if a == [] {
      assert a + b == b;
    } else {
      assert (a + b)[0] == a[0] && (a + b)[1..] == a[1..] + b;
      SkippedConcat(a[1..], b);
    }
  }

  lemma {:induction false} SumConcat(a: seq<Event>, b: seq<Event>)
    ensures SumOfCases(a + b).asserts == SumOfCases(a).asserts + SumOfCases(b).asserts
    ensures SumOfCases(a + b).failed == SumOfCases(a).failed + SumOfCases(b).failed
    decreases |a|
  {
    if a == [] {
      assert a + b == b;
    } else {
      assert (a + b)[0] == a[0] && (a + b)[1..] == a[1..] + b;
      SumConcat(a[1..], b);
    }
  }

  lemma AboutConcat(a: seq<Event>, b: seq<Event>)
    ensures StartedCases(a + b) == StartedCases(a) + StartedCases(b)
    ensures SkippedCases(a + b) == SkippedCases(a) + SkippedCases(b)
    ensures SumOfCases(a + b).asserts == SumOfCases(a).asserts + SumOfCases(b).asserts
    ensures SumOfCases(a + b).failed == SumOfCases(a).failed + SumOfCases(b).failed
  {
    StartedConcat(a, b);
    SkippedConcat(a, b);
    SumConcat(a, b);
  }

  /** What a body reports is about no test case as a whole. */
  ghost predicate Inner(events: seq<Event>) {
    forall i :: 0 <= i < |events| ==> !events[i].CaseStart? && !events[i].CaseSkipped? && !events[i].CaseEnd?
  }

  lemma {:induction false} InnerIsAboutNone(events: seq<Event>)
    requires Inner(events)
    ensures StartedCases(events) == SkippedCases(events) == [] && SumOfCases(events) == CaseStats(0, 0)
    decreases |events|
  {
    if events != [] {
      InnerIsAboutNone(events[1..]);
    }
  }

  lemma {:induction false} ReportsAreInner(items: seq<Item>)
    ensures Inner(Reports(items))
    decreases |items|
  {
    if items != [] {
      ReportsAreInner(items[1..]);
    }
  }

  lemma {:induction false} RunIsInner(items: seq<Item>, prefix: Path, k: nat)
    requires k <= |Leaves(items, prefix)|
    ensures Inner(RunEvents(items, prefix, k))
    decreases items, 1
  {
    if items != [] {
      if items[0].Report? {
        RunIsInner(items[1..], prefix, k);
      } else {
        var Sub(sig, body) := items[0];
        var n := |LeavesOf(sig, body, prefix)|;
        if n <= k {
          RunIsInner(items[1..], prefix, k - n);
        } else {
          RunIsInner(body, prefix + [sig], k);
          ReportsAreInner(items[1..]);
        }
      }
    }
  }

  lemma {:induction false} RunsAreInner(items: seq<Item>, runs: nat)
    requires runs <= Max(1, |Leaves(items, [])|)
    ensures Inner(AllRuns(items, runs))
    decreases runs
  {
    if runs > 0 {
      RunsAreInner(items, runs - 1);
      RunIsInner(items, [], runs - 1);
    }
  }

  lemma OwnAbout(tc: TestCase, runs: bool, filter: SubcaseFilter)
    ensures var own := OwnEvents(tc, runs, filter);
            && StartedCases(own) == (if runs then [tc] else []) && SkippedCases(own) == (if runs then [] else [tc])
            && SumOfCases(own) == CaseStats(Asserts(own), Failures(own))
  {
    hide BodyEvents, Asserts, Failures;
    OwnCounts(tc, runs, filter);
    if runs {
      var body := BodyEvents(tc, filter);
      var end := CaseEnd(CaseStats(Asserts(body), Failures(body)));
      BodyIsInner(tc, filter);
      InnerIsAboutNone(body);
      AboutConcat([CaseStart(tc)] + body, [end]);
      AboutConcat([CaseStart(tc)], body);
      assert [end][1..] == [] && [CaseStart(tc)][1..] == [];
    } else {
      assert [CaseSkipped(tc)][1..] == [];
    }
  }

  lemma BodyIsInner(tc: TestCase, filter: SubcaseFilter)
    ensures Inner(BodyEvents(tc, filter))
  {
    hide AllRuns, Inner;
    var tree := Prune(tc.body, 0, filter);
    RunsAreInner(tree, Max(1, |Leaves(tree, [])|));
  }

  /**
    The test cases told to start are those that run, in order, all others are told to be skipped,
    and the counts told with the test cases add up to those of the whole run.
   */
  lemma {:induction false} EventsAddUp(tests: seq<TestCase>, o: Options, filter: SubcaseFilter, rank: nat)
    ensures var events := TestsEvents(tests, o, filter, rank);
            && StartedCases(events) == Executed(tests, o, rank)
            && |SkippedCases(events)| == |tests| - |Executed(tests, o, rank)|
            && SumOfCases(events) == CaseStats(Asserts(events), Failures(events))
    decreases |tests|
  {
    hide PassesFilters, InRange, OwnEvents, Asserts, Failures, StartedCases, SkippedCases, SumOfCases;
    hide TestsEvents, Executed;
    if tests == [] {
      NothingAbout(o, filter, rank);
    } else {
      var passes := PassesFilters(tests[0], o);
      var rank' := if passes then rank + 1 else rank;
      var own := OwnEvents(tests[0], passes && InRange(rank', o), filter);
      var rest := TestsEvents(tests[1..], o, filter, rank');
      FirstTest(tests, o, filter, rank);
      OwnAbout(tests[0], passes && InRange(rank', o), filter);
      EventsAddUp(tests[1..], o, filter, rank');
      AboutConcat(own, rest);
      CountsConcat(own, rest);
    }
  }

  lemma NothingAbout(o: Options, filter: SubcaseFilter, rank: nat)
    ensures TestsEvents([], o, filter, rank) == [] && Executed([], o, rank) == []
    ensures StartedCases([]) == SkippedCases([]) == [] && SumOfCases([]) == CaseStats(0, 0)
    ensures Asserts([]) == Failures([]) == 0
  {
  }

  lemma FirstTest(tests: seq<TestCase>, o: Options, filter: SubcaseFilter, rank: nat)
    requires tests != []
    ensures var passes := PassesFilters(tests[0], o);
            var rank' := if passes then rank + 1 else rank;
            var runs := passes && InRange(rank', o);
            && TestsEvents(tests, o, filter, rank)
               == OwnEvents(tests[0], runs, filter) + TestsEvents(tests[1..], o, filter, rank')
            && Executed(tests, o, rank) == (if runs then [tests[0]] else []) + Executed(tests[1..], o, rank')
  {
    hide PassesFilters, InRange, CaseEvents;
    assert [] + Executed(tests[1..], o, rank) == Executed(tests[1..], o, rank);
  }

  class Context {
    const p: ContextState
    const o: Options

    var numTestCasesPassingFilters: nat
    var numTestCasesFailed: nat
    var numAsserts: nat
    var numAssertsFailed: nat

    constructor (o: Options, filter: SubcaseFilter)
      ensures p.Valid() && fresh(p) && p.trace == [] && p.filter == filter && this.o == o
    {
      p := new ContextState(filter);
      this.o := o;
      numTestCasesPassingFilters, numTestCasesFailed, numAsserts, numAssertsFailed := 0, 0, 0, 0;
    }

    /** The filter part of the loop over the tests. */
    method Filters(tc: TestCase) returns (skipMe: bool)
      ensures skipMe == !PassesFilters(tc, o)
    {
      skipMe := tc.skip && !o.noSkip;
      var hit := Glob.MatchesAny(tc.file, o.files, true, o.caseSensitive);
      skipMe := skipMe || !hit;
      hit := Glob.MatchesAny(tc.file, o.filesExcluded, false, o.caseSensitive);
      skipMe := skipMe || hit;
      hit := Glob.MatchesAny(tc.suite, o.suites, true, o.caseSensitive);
      skipMe := skipMe || !hit;
      hit := Glob.MatchesAny(tc.suite, o.suitesExcluded, false, o.caseSensitive);
      skipMe := skipMe || hit;
      hit := Glob.MatchesAny(tc.name, o.names, true, o.caseSensitive);
      skipMe := skipMe || !hit;
      hit := Glob.MatchesAny(tc.name, o.namesExcluded, false, o.caseSensitive);
      skipMe := skipMe || hit;
    }

    /** One test case that is to run. */
    method Execute(tc: TestCase)
      requires p.Valid() && Distinct(tc.body)
      modifies this, p
      ensures p.Valid() && p.trace == old(p.trace) + CaseEvents(tc, p.filter)
      ensures numTestCasesPassingFilters == old(numTestCasesPassingFilters)
      ensures numAsserts == old(numAsserts) + Asserts(BodyEvents(tc, p.filter))
      ensures numAssertsFailed == old(numAssertsFailed) + Failures(BodyEvents(tc, p.filter))
      ensures numTestCasesFailed
              == old(numTestCasesFailed) + if CaseFails(tc, Failures(BodyEvents(tc, p.filter)), false) then 1 else 0
    {
      hide AllRuns, Leaves, Prune, Asserts, Failures;
      ghost var body := BodyEvents(tc, p.filter);
      p.Tell(CaseStart(tc));
      p.StartCounting();
      var runs := p.RunTest(tc.body);
      assert p.trace[p.caseStart..] == body;
      numAsserts := numAsserts + p.numAssertsCurrentTest;
      numAssertsFailed := numAssertsFailed + p.numAssertsFailedCurrentTest;
      var caseFailed := Finalize(tc, p.numAssertsFailedCurrentTest, {}, false);
      if caseFailed {
        numTestCasesFailed := numTestCasesFailed + 1;
      }
      p.Tell(CaseEnd(CaseStats(p.numAssertsCurrentTest, p.numAssertsFailedCurrentTest)));
      assert p.trace == old(p.trace) + ([CaseStart(tc)] + body + [CaseEnd(CaseStats(Asserts(body), Failures(body)))]);
    }

    /** The loop of `run` over the tests. */
    method RunTests(tests: seq<TestCase>)
      requires p.Valid() && forall i :: 0 <= i < |tests| ==> Distinct(tests[i].body)
      requires numTestCasesPassingFilters == numTestCasesFailed == numAsserts == numAssertsFailed == 0
      modifies this, p
      ensures p.Valid() && p.trace == old(p.trace) + TestsEvents(tests, o, p.filter, 0)
      ensures numTestCasesPassingFilters == |Passing(tests, o)|
      ensures numTestCasesFailed == FailedCases(Executed(tests, o, 0), p.filter)
      ensures numAsserts == Asserts(TestsEvents(tests, o, p.filter, 0))
      ensures numAssertsFailed == Failures(TestsEvents(tests, o, p.filter, 0))
    {
      hide PassesFilters, CaseEvents, BodyEvents, Asserts, Failures, CaseFails, TestsEvents, FailedCases;
      hide Passing, Executed;
      ghost var told: seq<Event> := [];
      NothingLeft(o, p.filter);
      assert tests[0..] == tests && tests[|tests|..] == [];
      for n := 0 to |tests|
        invariant p.Valid() && p.trace == old(p.trace) + told
        invariant TestsEvents(tests, o, p.filter, 0)
                  == told + TestsEvents(tests[n..], o, p.filter, numTestCasesPassingFilters)
        invariant |Passing(tests, o)| == numTestCasesPassingFilters + |Passing(tests[n..], o)|
        invariant FailedCases(Executed(tests, o, 0), p.filter)
               == numTestCasesFailed + FailedCases(Executed(tests[n..], o, numTestCasesPassingFilters), p.filter)
        invariant numAsserts == Asserts(told) && numAssertsFailed == Failures(told)
      {
        OneTest(tests, n, o, p.filter, numTestCasesPassingFilters);
        var skipMe := Filters(tests[n]);
        if !skipMe {
          numTestCasesPassingFilters := numTestCasesPassingFilters + 1;
        }
        if (o.last < numTestCasesPassingFilters && o.first <= o.last) || o.first > numTestCasesPassingFilters {
          skipMe := true;
        }
        if skipMe {
          p.Tell(CaseSkipped(tests[n]));
        } else {
          Execute(tests[n]);
        }
        ghost var own := OwnEvents(tests[n], !skipMe, p.filter);
        OwnCounts(tests[n], !skipMe, p.filter);
        CountsConcat(told, own);
        told := told + own;
      }
      assert told + [] == told;
    }

    /** `run` over the tests in the order given, with none of the query options and no limit on failures. */
    method Run(tests: seq<TestCase>)
      requires p.Valid() && forall i :: 0 <= i < |tests| ==> Distinct(tests[i].body)
      modifies this, p
      ensures p.Valid() && p.trace == old(p.trace) + ReportedEvents(tests, o, p.filter)
    {
      hide TestsEvents, Passing, Executed, FailedCases, Asserts, Failures, Distinct;
      numTestCasesPassingFilters, numTestCasesFailed, numAsserts, numAssertsFailed := 0, 0, 0, 0;
      p.Tell(RunStart);
      RunTests(tests);
      p.Tell(RunEnd(RunStats(|tests|, numTestCasesPassingFilters, numTestCasesFailed, numAsserts, numAssertsFailed)));
    }
  }
}
