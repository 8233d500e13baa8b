/** Test cases, their bodies, and what a run tells its reporters. */
module TestModel {
  import opened Common

  datatype Signature = Signature(name: CString, file: CString, line: int)

  type Path = seq<Signature>

  /**
    Something a test body reports besides subcases.  The kind of an assertion is its name
    and the bits of `assertType` that reporters look at.
   */
  datatype Log =
    | Assertion(warn: bool, failed: bool, kind: CString, file: CString, line: int, expr: CString,
                threw: bool, exception: CString,
                throwsAs: bool, exceptionType: CString, throwsWith: bool, exceptionString: CString,
                normal: bool, decomposed: CString, contexts: seq<CString>)
    | Message(warn: bool, kind: CString, file: CString, line: int, text: CString, contexts: seq<CString>)
  {
    /** Warnings do not count as assertions. */
    function Counted(): nat {
      if warn then 0 else 1
    }

    /** A message that is no warning counts as a failed assertion. */
    function CountedFailed(): nat {
      if warn || (Assertion? && !failed) then 0 else 1
    }
  }

  /**
    A test body as a finite tree: reports and subcases in program order.
    Two subcases side by side are told apart by their signatures.
   */
  datatype Item =
    | Report(log: Log)
    | Sub(sig: Signature, body: seq<Item>)

  datatype TestCase = TestCase(
    name: CString, suite: CString, file: CString, line: nat, description: CString,
    skip: bool, mayFail: bool, shouldFail: bool, expectedFailures: int, timeout: CString,
    body: seq<Item>)

  datatype CaseStats = CaseStats(asserts: nat, failed: nat)

  datatype RunStats = RunStats(cases: nat, passingFilters: nat, casesFailed: nat, asserts: nat, failed: nat)

  datatype Event =
    | RunStart
    | CaseStart(tc: TestCase)
    | CaseSkipped(tc: TestCase)
    | SubcaseStart(sig: Signature)
    | SubcaseEnd
    | Logged(log: Log)
    | Reenter
    | CaseEnd(stats: CaseStats)
    | RunEnd(totals: RunStats)

  /** The assertions among events, and how many of them failed. */
  function Asserts(events: seq<Event>): nat {
    if events == [] then 0
    else
      var last := events[|events| - 1];
      Asserts(events[..|events| - 1]) + if last.Logged? then last.log.Counted() else 0
  }

  function Failures(events: seq<Event>): nat {
    if events == [] then 0
    else
      var last := events[|events| - 1];
      Failures(events[..|events| - 1]) + if last.Logged? then last.log.CountedFailed() else 0
  }

  lemma CountsSnoc(events: seq<Event>, e: Event)
    ensures Asserts(events + [e]) == Asserts(events) + if e.Logged? then e.log.Counted() else 0
    ensures Failures(events + [e]) == Failures(events) + if e.Logged? then e.log.CountedFailed() else 0
  {
    assert (events + [e])[..|events|] == events;
  }

  lemma {:induction false} CountsConcat(a: seq<Event>, b: seq<Event>)
    ensures Asserts(a + b) == Asserts(a) + Asserts(b)
    ensures Failures(a + b) == Failures(a) + Failures(b)
    decreases |b|
  {
    if b == [] {
      assert a + b == a;
    } else {
      var n := |b| - 1;
      CountsConcat(a, b[..n]);
      assert b == b[..n] + [b[n]] && a + b == (a + b[..n]) + [b[n]];
      CountsSnoc(b[..n], b[n]);
      CountsSnoc(a + b[..n], b[n]);
    }
  }

  /** The assertions are the reports that are no warnings. */
  ghost predicate IsAssert(e: Event) {
    e.Logged? && !e.log.warn
  }

  /** The failures among them are the messages and the assertions that failed. */
  ghost predicate IsFailure(e: Event) {
    e.Logged? && !e.log.warn && (e.log.Message? || e.log.failed)
  }

  ghost function Positions(events: seq<Event>, hit: Event -> bool): set<int> {
    set i | 0 <= i < |events| && hit(events[i])
  }

  lemma PositionsSnoc(events: seq<Event>, e: Event, hit: Event -> bool)
    ensures |Positions(events + [e], hit)| == |Positions(events, hit)| + if hit(e) then 1 else 0
    ensures |Positions([], hit)| == 0
  {
    var all := events + [e];
    assert forall i :: 0 <= i < |events| ==> all[i] == events[i];
    if hit(e) {
      assert Positions(all, hit) == Positions(events, hit) + {|events|};
    } else {
      assert Positions(all, hit) == Positions(events, hit);
    }
  }

  /** The two numbers count just these. */
  lemma {:induction false} CountsMean(events: seq<Event>)
    ensures Asserts(events) == |Positions(events, IsAssert)|
    ensures Failures(events) == |Positions(events, IsFailure)|
    decreases |events|
  {
    hide Positions, Asserts, Failures;
    if events == [] {
      PositionsSnoc([], RunStart, IsAssert);
      PositionsSnoc([], RunStart, IsFailure);
      NoCounts();
    } else {
      var before, last := events[..|events| - 1], events[|events| - 1];
      CountsMean(before);
      assert events == before + [last];
      CountsSnoc(before, last);
      PositionsSnoc(before, last, IsAssert);
      PositionsSnoc(before, last, IsFailure);
    }
  }

  lemma NoCounts()
    ensures Asserts([]) == 0 && Failures([]) == 0
  {
  }
}
