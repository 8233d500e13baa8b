/**
  How the test runner finds its way through the subcases of a test: the part of
  `ContextState` that `Subcase` objects update, the body of a test as it runs, and the
  loop that re-enters the body until no subcase was left out.
 */
module SubcaseRunner {
  import opened Common
  import opened TestModel
  import opened SubcaseTree
  import opened SubcaseFilters
  import Glob

  // ----- The meaning of one run

  datatype Progress = Progress(stack: Path, passed: set<Path>, maxLevel: nat, reenter: bool, trace: seq<Event>)

  /** The `Subcase` constructor: the new state, and whether the subcase is entered. */
  ghost function Construct(s: Progress, filter: SubcaseFilter, sig: Signature): (r: (Progress, bool)) {
    if filter.Rejects(|s.stack|, sig) then (s, false)
    else if |s.stack| < s.maxLevel then (s.(reenter := true), false)
    else if s.stack + [sig] in s.passed then (s, false)
    else (s.(stack := s.stack + [sig], maxLevel := |s.stack| + 1, trace := s.trace + [SubcaseStart(sig)]), true)
  }

  /** The `Subcase` destructor of an entered subcase. */
  ghost function Destruct(s: Progress): Progress
    requires s.stack != []
  {
    Progress(s.stack[..|s.stack| - 1], if s.reenter then s.passed else s.passed + {s.stack},
          s.maxLevel, s.reenter, s.trace + [SubcaseEnd])
  }

  ghost function Run(s: Progress, filter: SubcaseFilter, items: seq<Item>): (r: Progress)
    ensures r.stack == s.stack
    ensures s.maxLevel <= r.maxLevel
    ensures s.reenter ==> r.reenter
    ensures s.trace <= r.trace
    decreases items
  {
    if items == [] then s
    else
      match items[0]
      case Report(log) => Run(s.(trace := s.trace + [Logged(log)]), filter, items[1..])
      case Sub(sig, body) =>
        var (inside, entered) := Construct(s, filter, sig);
        var after := if entered then Destruct(Run(inside, filter, body)) else inside;
        Run(after, filter, items[1..])
  }

  /** One item of a run. */
  ghost function RunItem(s: Progress, filter: SubcaseFilter, item: Item): Progress {
    match item
    case Report(log) => s.(trace := s.trace + [Logged(log)])
    case Sub(sig, body) =>
      var (inside, entered) := Construct(s, filter, sig);
      if entered then Destruct(Run(inside, filter, body)) else inside
  }

  lemma RunStep(s: Progress, filter: SubcaseFilter, items: seq<Item>)
    requires items != []
    ensures Run(s, filter, items) == Run(RunItem(s, filter, items[0]), filter, items[1..])
  {
  }

  lemma RunNothing(s: Progress, filter: SubcaseFilter)
    ensures Run(s, filter, []) == s
  {
  }

  /** Filters do nothing but delete subcases. */
  lemma {:induction false} RunPruned(s: Progress, filter: SubcaseFilter, items: seq<Item>, none: SubcaseFilter)
    requires none.levels == 0
    ensures Run(s, filter, items) == Run(s, none, Prune(items, |s.stack|, filter))
    decreases items
  {
    hide Run, Prune;
    if items == [] {
      PruneNothing(|s.stack|, filter);
      RunNothing(s, filter);
      RunNothing(s, none);
    } else {
      var pruned := Prune(items, |s.stack|, filter);
      var after := RunItem(s, filter, items[0]);
      PruneSplits(items, |s.stack|, filter);
      RunStep(s, filter, items);
      if pruned != [] {
        RunStep(s, none, pruned);
      }
      if items[0].Sub? {
        var (inside, entered) := Construct(s, filter, items[0].sig);
        if entered {
          RunPruned(inside, filter, items[0].body, none);
        }
      }
      RunPruned(after, filter, items[1..], none);
    }
  }

  /** Whenever the flag is set, the level under way has been used up; every run keeps this. */
  ghost predicate FlagMeansSpent(s: Progress) {
    s.reenter ==> |s.stack| < s.maxLevel
  }

  lemma {:induction false} RunKeepsFlag(s: Progress, filter: SubcaseFilter, items: seq<Item>)
    requires FlagMeansSpent(s)
    ensures FlagMeansSpent(Run(s, filter, items))
    decreases items
  {
    hide Run;
    if items == [] {
      RunNothing(s, filter);
    } else {
      RunStep(s, filter, items);
      if items[0].Sub? {
        var (inside, entered) := Construct(s, filter, items[0].sig);
        if entered {
          RunKeepsFlag(inside, filter, items[0].body);
        }
      }
      RunKeepsFlag(RunItem(s, filter, items[0]), filter, items[1..]);
    }
  }

  /** Once the flag is set nothing is entered any more and nothing but the trace changes, under any filter. */
  lemma {:induction false} NothingMoreEntered(s: Progress, filter: SubcaseFilter, items: seq<Item>)
    requires s.reenter && FlagMeansSpent(s)
    ensures Run(s, filter, items) == s.(trace := s.trace + Reports(items))
    ensures Entered(Run(s, filter, items).trace) == Entered(s.trace)
    decreases items
  {
    hide Entered, Run;
    EnteredConcat(s.trace, Reports(items));
    ReportsEnterNothing(items);
    assert Entered(s.trace) + [] == Entered(s.trace);
    if items == [] {
      RunNothing(s, filter);
      assert s.trace + [] == s.trace;
    } else {
      RunStep(s, filter, items);
      var t := RunItem(s, filter, items[0]);
      NothingMoreEntered(t, filter, items[1..]);
      var told := if items[0].Report? then [Logged(items[0].log)] else [];
      assert s.trace + told == t.trace;
      assert s.trace + (told + Reports(items[1..])) == t.trace + Reports(items[1..]);
    }
  }

  /** Once a subcase has been entered at this level, its later siblings are left for another run. */
  lemma {:induction false} RunSpent(s: Progress, filter: SubcaseFilter, items: seq<Item>, prefix: Path)
    requires filter.levels == 0 && |s.stack| < s.maxLevel
    ensures Run(s, filter, items) ==
            s.(reenter := s.reenter || Leaves(items, prefix) != [], trace := s.trace + Reports(items))
    decreases items
  {
    hide Run, LeavesOf;
    if items == [] {
      RunNothing(s, filter);
      assert s.trace + [] == s.trace;
    } else {
      RunStep(s, filter, items);
      var t := RunItem(s, filter, items[0]);
      RunSpent(t, filter, items[1..], prefix);
      var told := if items[0].Report? then [Logged(items[0].log)] else [];
      assert s.trace + told == t.trace;
      assert s.trace + (told + Reports(items[1..])) == t.trace + Reports(items[1..]);
    }
  }

  /** `base` says nothing about the subcases of this part of the tree. */
  ghost predicate Silent(base: set<Path>, prefix: Path, items: seq<Item>) {
    forall p :: p in base ==> !Below(p, prefix, Signatures(items))
  }

  /** The run over `items` goes to leaf `k`, counts it as passed, and leaves the rest to later runs. */
  ghost predicate GoesToLeaf(s: Progress, filter: SubcaseFilter, items: seq<Item>, base: set<Path>, k: nat)
    requires k <= |Leaves(items, s.stack)|
  {
    var leaves := Leaves(items, s.stack);
    Run(s, filter, items) ==
    Progress(s.stack,
          base + Passed(items, s.stack, Min(k + 1, |leaves|)),
          if k < |leaves| then |leaves[k]| else s.maxLevel,
          k + 1 < |leaves|,
          s.trace + RunEvents(items, s.stack, k))
  }

  /**
    The heart of the matter.  If the first `k` leaves below `prefix` have passed, the run
    goes straight to leaf `k`, reports what lies on its way, and asks to be re-entered
    exactly if another leaf follows.
   */
  lemma {:induction false} RunFresh(s: Progress, filter: SubcaseFilter, items: seq<Item>, base: set<Path>, k: nat)
    requires filter.levels == 0 && Distinct(items) && k <= |Leaves(items, s.stack)|
    requires s.maxLevel == |s.stack| && !s.reenter
    requires Silent(base, s.stack, items) && s.passed == base + Passed(items, s.stack, k)
    ensures GoesToLeaf(s, filter, items, base, k)
    decreases items, 2
  {
    hide Run;
    if items == [] {
      RunNothing(s, filter);
    } else if items[0].Report? {
      hide LeavesOf;
      RunStep(s, filter, items);
      var t := RunItem(s, filter, items[0]);
      RunFresh(t, filter, items[1..], base, k);
      assert s.trace + ([Logged(items[0].log)] + RunEvents(items[1..], s.stack, k))
          == t.trace + RunEvents(items[1..], s.stack, k);
    } else if |LeavesOf(items[0].sig, items[0].body, s.stack)| <= k {
      RunPastPassed(s, filter, items, base, k);
    } else {
      RunAfterNext(s, filter, items, base, k);
    }
  }

  /** A subcase that has passed is stepped over. */
  lemma {:induction false} RunPastPassed(s: Progress, filter: SubcaseFilter, items: seq<Item>, base: set<Path>, k: nat)
    requires filter.levels == 0 && Distinct(items) && k <= |Leaves(items, s.stack)|
    requires s.maxLevel == |s.stack| && !s.reenter
    requires Silent(base, s.stack, items) && s.passed == base + Passed(items, s.stack, k)
    requires items != [] && items[0].Sub? && |LeavesOf(items[0].sig, items[0].body, s.stack)| <= k
    ensures GoesToLeaf(s, filter, items, base, k)
    decreases items, 0
  {
    var Sub(sig, body) := items[0];
    var rest := items[1..];
    var n, base' := |LeavesOf(sig, body, s.stack)|, base + PathsOf(sig, body, s.stack);
    assert items == [Sub(sig, body)] + rest;
    hide LeavesOf, PathsOf, Run, Leaves, Passed, RunEvents, Silent;
    HeadPassed(sig, body, rest, s.stack, k);
    PastPassed(sig, body, rest, s.stack, k);
    PastPassed(sig, body, rest, s.stack, Min(k + 1, |Leaves(items, s.stack)|));
    RunStep(s, filter, items);
    assert RunItem(s, filter, items[0]) == s;
    StaysSilent(base, s.stack, sig, body, rest);
    assert s.passed == base' + Passed(rest, s.stack, k - n);
    RunFresh(s, filter, rest, base', k - n);
    GoesPast(s, filter, items, base, k, PathsOf(sig, body, s.stack), n);
  }

  /** Stepping over `own` leaves, whose paths have all passed, leads to the same leaf. */
  lemma GoesPast(s: Progress, filter: SubcaseFilter, items: seq<Item>, base: set<Path>, k: nat, paths: set<Path>,
                 own: nat)
    requires items != [] && own <= k && Run(s, filter, items) == Run(s, filter, items[1..])
    requires var leaves, rest := Leaves(items, s.stack), Leaves(items[1..], s.stack);
             k <= |leaves| && |leaves| == own + |rest| && leaves[own..] == rest
    requires RunEvents(items, s.stack, k) == RunEvents(items[1..], s.stack, k - own)
    requires var next := Min(k + 1, |Leaves(items, s.stack)|);
             Passed(items, s.stack, next) == paths + Passed(items[1..], s.stack, next - own)
    requires GoesToLeaf(s, filter, items[1..], base + paths, k - own)
    ensures GoesToLeaf(s, filter, items, base, k)
  {
    hide Run, Leaves, Passed, RunEvents;
    var leaves := Leaves(items, s.stack);
    assert k < |leaves| ==> leaves[k] == leaves[own..][k - own];
  }

  lemma StaysSilent(base: set<Path>, prefix: Path, sig: Signature, body: seq<Item>, rest: seq<Item>)
    requires Silent(base, prefix, [Sub(sig, body)] + rest) && sig !in Signatures(rest)
    ensures Silent(base + PathsOf(sig, body, prefix), prefix, rest)
  {
    hide PathsOf;
    assert ([Sub(sig, body)] + rest)[1..] == rest;
    PathsOfBelow(sig, body, prefix);
  }

  /** The first subcase that has not passed is entered, and inside it the first `k` leaves have passed. */
  lemma NextIsEntered(s: Progress, filter: SubcaseFilter, items: seq<Item>, base: set<Path>, k: nat)
    requires filter.levels == 0 && Distinct(items) && k <= |Leaves(items, s.stack)|
    requires s.maxLevel == |s.stack| && !s.reenter
    requires Silent(base, s.stack, items) && s.passed == base + Passed(items, s.stack, k)
    requires items != [] && items[0].Sub? && k < |LeavesOf(items[0].sig, items[0].body, s.stack)|
    ensures var Sub(sig, body) := items[0];
            var path := s.stack + [sig];
            && Construct(s, filter, sig)
               == (Progress(path, s.passed, |path|, false, s.trace + [SubcaseStart(sig)]), true)
            && k <= |Leaves(body, path)| && Silent(base, path, body) && s.passed == base + Passed(body, path, k)
  {
    var Sub(sig, body) := items[0];
    var rest, path := items[1..], s.stack + [sig];
    assert items == [Sub(sig, body)] + rest;
    HeadPassed(sig, body, rest, s.stack, k);
    assert Below(path, s.stack, Signatures(items));
    assert path !in base;
    InsideIsSilent(base, s.stack, sig, body, items);
  }

  /** Leaving it restores the stack. */
  lemma {:induction false} RunIntoNext(s: Progress, filter: SubcaseFilter, items: seq<Item>, base: set<Path>, k: nat)
    requires filter.levels == 0 && Distinct(items) && k <= |Leaves(items, s.stack)|
    requires s.maxLevel == |s.stack| && !s.reenter
    requires Silent(base, s.stack, items) && s.passed == base + Passed(items, s.stack, k)
    requires items != [] && items[0].Sub? && k < |LeavesOf(items[0].sig, items[0].body, s.stack)|
    ensures k <= |Leaves(items[0].body, s.stack + [items[0].sig])|
    ensures RunItem(s, filter, items[0]) == AfterNext(s, items, base, k)
    decreases items, 0
  {
    NextIsEntered(s, filter, items, base, k);
    var Sub(sig, body) := items[0];
    var path, inside := s.stack + [sig], Construct(s, filter, sig).0;
    RunFresh(inside, filter, body, base, k);
    LeavingMarksPassed(sig, body, items[1..], s.stack, k);
    assert [items[0]] + items[1..] == items;
    hide Run, Passed, RunEvents, Leaves, Silent, Distinct;
    var after := Run(inside, filter, body);
    assert path[..|path| - 1] == s.stack;
    assert inside.trace + RunEvents(body, path, k) + [SubcaseEnd]
        == s.trace + ([SubcaseStart(sig)] + RunEvents(body, path, k) + [SubcaseEnd]);
  }

  /** The state after the first subcase that had not passed. */
  ghost function AfterNext(s: Progress, items: seq<Item>, base: set<Path>, k: nat): Progress
    requires items != [] && items[0].Sub? && k < |LeavesOf(items[0].sig, items[0].body, s.stack)|
    requires k <= |Leaves(items[0].body, s.stack + [items[0].sig])|
  {
    var Sub(sig, body) := items[0];
    Progress(s.stack,
          base + Passed(items, s.stack, k + 1),
          |LeavesOf(sig, body, s.stack)[k]|,
          k + 1 < |LeavesOf(sig, body, s.stack)|,
          s.trace + ([SubcaseStart(sig)] + RunEvents(body, s.stack + [sig], k) + [SubcaseEnd]))
  }

  /** Nothing after it is entered in the same run. */
  lemma {:induction false} RunAfterNext(s: Progress, filter: SubcaseFilter, items: seq<Item>, base: set<Path>, k: nat)
    requires filter.levels == 0 && Distinct(items) && k <= |Leaves(items, s.stack)|
    requires s.maxLevel == |s.stack| && !s.reenter
    requires Silent(base, s.stack, items) && s.passed == base + Passed(items, s.stack, k)
    requires items != [] && items[0].Sub? && k < |LeavesOf(items[0].sig, items[0].body, s.stack)|
    ensures GoesToLeaf(s, filter, items, base, k)
    decreases items, 1
  {
    var Sub(sig, body) := items[0];
    hide Run, Silent, Distinct, Passed, RunItem, LeavesOf;
    RunIntoNext(s, filter, items, base, k);
    var after := AfterNext(s, items, base, k);
    LeavesExtend(sig, body, s.stack, k);
    RunStep(s, filter, items);
    RunSpent(after, filter, items[1..], s.stack);
    assert s.trace + RunEvents(items, s.stack, k) == after.trace + Reports(items[1..]);
  }

  /** On the way out the subcase itself is marked as passed exactly if that was its last leaf. */
  lemma LeavingMarksPassed(sig: Signature, body: seq<Item>, rest: seq<Item>, prefix: Path, k: nat)
    requires k < |LeavesOf(sig, body, prefix)|
    ensures var inside := Passed(body, prefix + [sig], Min(k + 1, |Leaves(body, prefix + [sig])|));
            var leaves := LeavesOf(sig, body, prefix) + Leaves(rest, prefix);
            Leaves([Sub(sig, body)] + rest, prefix) == leaves &&
            Passed([Sub(sig, body)] + rest, prefix, k + 1) ==
            if k + 1 < |LeavesOf(sig, body, prefix)| then inside else inside + {prefix + [sig]}
  {
    assert ([Sub(sig, body)] + rest)[1..] == rest;
    PassedEnds(body, prefix + [sig]);
    PassedEnds(rest, prefix);
  }

  lemma InsideIsSilent(base: set<Path>, prefix: Path, sig: Signature, body: seq<Item>, items: seq<Item>)
    requires sig in Signatures(items) && Silent(base, prefix, items)
    ensures Silent(base, prefix + [sig], body)
  {
    forall p | p in base ensures !Below(p, prefix + [sig], Signatures(body)) {
      if Below(p, prefix + [sig], Signatures(body)) {
        BelowInside(p, prefix, sig, Signatures(body));
        assert false;
      }
    }
  }

  /** One turn of the loop around a test. */
  lemma OneTurn(p: Progress, filter: SubcaseFilter, items: seq<Item>, k: nat)
    requires Distinct(items) && k <= |Leaves(Prune(items, 0, filter), [])|
    requires p == Progress([], Passed(Prune(items, 0, filter), [], k), 0, false, p.trace)
    ensures var tree := Prune(items, 0, filter);
            var r := Run(p, filter, items);
            && r.stack == []
            && r.passed == Passed(tree, [], Min(k + 1, |Leaves(tree, [])|))
            && r.reenter == (k + 1 < |Leaves(tree, [])|)
            && r.trace == p.trace + RunEvents(tree, [], k)
  {
    PruneKeepsDistinct(items, 0, filter);
    var tree, none := Prune(items, 0, filter), Filter(0, [], [], true);
    RunPruned(p, filter, items, none);
    RunFresh(p, none, tree, {}, k);
    assert {} + Passed(tree, [], k) == Passed(tree, [], k);
  }

  // ----- The runner itself

  class ContextState {
    var subcasesStack: seq<Signature>
    var subcasesPassed: set<Path>
    var subcasesCurrentMaxLevel: int
    var shouldReenter: bool
    const filter: SubcaseFilter

    var numAssertsCurrentTest: nat
    var numAssertsFailedCurrentTest: nat

    /** What the reporters have been told, in order, and where the test under way begins. */
    var trace: seq<Event>
    ghost var caseStart: nat

    constructor (filter: SubcaseFilter)
      ensures this.filter == filter && trace == [] && Valid()
    {
      this.filter := filter;
      subcasesStack, subcasesPassed, subcasesCurrentMaxLevel, shouldReenter, trace := [], {}, 0, false, [];
      numAssertsCurrentTest, numAssertsFailedCurrentTest, caseStart := 0, 0, 0;
    }

    ghost predicate Valid()
      reads this
    {
      && 0 <= subcasesCurrentMaxLevel
      && caseStart <= |trace|
      && numAssertsCurrentTest == Asserts(trace[caseStart..])
      && numAssertsFailedCurrentTest == Failures(trace[caseStart..])
    }

    ghost function State(): Progress
      reads this
      requires Valid()
    {
      Progress(subcasesStack, subcasesPassed, subcasesCurrentMaxLevel, shouldReenter, trace)
    }

    /** Tells the reporters; assertions are counted for the test under way. */
    method Tell(e: Event)
      requires Valid()
      modifies `trace, `numAssertsCurrentTest, `numAssertsFailedCurrentTest
      ensures Valid() && trace == old(trace) + [e]
    {
      CountsSnoc(trace[caseStart..], e);
      assert (trace + [e])[caseStart..] == trace[caseStart..] + [e];
      trace := trace + [e];
      if e.Logged? {
        numAssertsCurrentTest := numAssertsCurrentTest + e.log.Counted();
        numAssertsFailedCurrentTest := numAssertsFailedCurrentTest + e.log.CountedFailed();
      }
    }

    /** The assertion counters start over with each test. */
    method StartCounting()
      requires Valid()
      modifies `caseStart, `numAssertsCurrentTest, `numAssertsFailedCurrentTest
      ensures Valid() && caseStart == |trace|
    {
      caseStart, numAssertsCurrentTest, numAssertsFailedCurrentTest := |trace|, 0, 0;
    }

    /** The constructor of `Subcase`. */
    method EnterSubcase(sig: Signature) returns (entered: bool)
      requires Valid()
      modifies this
      ensures Valid() && caseStart == old(caseStart) && (State(), entered) == Construct(old(State()), filter, sig)
    {
      entered := false;
      if |subcasesStack| < filter.Levels() {
        var included := Glob.MatchesAny(sig.name, filter.included, true, filter.caseSensitive);
        if !included {
          return;
        }
        var excluded := Glob.MatchesAny(sig.name, filter.excluded, false, filter.caseSensitive);
        if excluded {
          return;
        }
      }
      if |subcasesStack| < subcasesCurrentMaxLevel {
        shouldReenter := true;
        return;
      }
      subcasesStack := subcasesStack + [sig];
      if subcasesStack in subcasesPassed {
        subcasesStack := subcasesStack[..|subcasesStack| - 1];
        return;
      }
      subcasesCurrentMaxLevel := |subcasesStack|;
      entered := true;
      Tell(SubcaseStart(sig));
    }

    /** The destructor of a `Subcase` that was entered. */
    method LeaveSubcase()
      requires Valid() && subcasesStack != []
      modifies this
      ensures Valid() && caseStart == old(caseStart) && State() == Destruct(old(State()))
    {
      if !shouldReenter {
        subcasesPassed := subcasesPassed + {subcasesStack};
      }
      subcasesStack := subcasesStack[..|subcasesStack| - 1];
      Tell(SubcaseEnd);
    }

    /** The body of a test: reports and `SUBCASE` blocks in program order. */
    method ExecuteBody(items: seq<Item>)
      requires Valid()
      modifies this
      ensures Valid() && caseStart == old(caseStart) && State() == Run(old(State()), filter, items)
      decreases items
    {
      if items == [] {
        return;
      }
      match items[0] {
        case Report(log) =>
          Tell(Logged(log));
        case Sub(sig, body) =>
          var entered := EnterSubcase(sig);
          if entered {
            ExecuteBody(body);
            LeaveSubcase();
          }
      }
      ExecuteBody(items[1..]);
    }

    /** One turn of the loop around a test, when the first `k` leaves have passed. */
    method Turn(items: seq<Item>, ghost k: nat)
      requires Valid() && Distinct(items) && k <= |Leaves(Prune(items, 0, filter), [])|
      requires subcasesPassed == Passed(Prune(items, 0, filter), [], k)
      modifies this
      ensures Valid() && caseStart == old(caseStart) && subcasesStack == []
      ensures var tree := Prune(items, 0, filter);
              && subcasesPassed == Passed(tree, [], Min(k + 1, |Leaves(tree, [])|))
              && shouldReenter == (k + 1 < |Leaves(tree, [])|)
              && trace == old(trace) + RunEvents(tree, [], k)
    {
      hide Run, Prune, Passed, Leaves, RunEvents, Distinct, Asserts, Failures;
      shouldReenter := false;
      subcasesCurrentMaxLevel := 0;
      subcasesStack := [];
      OneTurn(State(), filter, items, k);
      ExecuteBody(items);
    }

    /**
      The loop of `Context::run` around one test: the body runs once per leaf that the
      filters leave, in order, and at least once.
     */
    method RunTest(items: seq<Item>) returns (runs: nat)
      requires Valid() && Distinct(items)
      modifies this
      ensures Valid() && caseStart == old(caseStart)
      ensures runs == Max(1, |Leaves(Prune(items, 0, filter), [])|)
      ensures trace == old(trace) + AllRuns(Prune(items, 0, filter), runs)
      ensures subcasesPassed == Paths(Prune(items, 0, filter), []) && subcasesStack == []
      ensures filter.included == [] && filter.excluded == [] ==>
                runs == Max(1, |Leaves(items, [])|) && trace == old(trace) + AllRuns(items, runs)
    {
      hide Prune, Passed, Paths, Leaves, RunEvents, Distinct, Asserts, Failures, AllRuns;
      ghost var tree := Prune(items, 0, filter);
      PassedEnds(tree, []);
      AllRunsStep(tree, 0);
      subcasesPassed := {};
      runs := 0;
      var runTest := true;
      while runTest
        invariant Valid() && caseStart == old(caseStart)
        invariant runs <= Max(1, |Leaves(tree, [])|)
        invariant subcasesPassed == Passed(tree, [], Min(runs, |Leaves(tree, [])|))
        invariant runTest ==> runs <= |Leaves(tree, [])| && (runs == 0 || runs < |Leaves(tree, [])|)
        invariant trace == old(trace) + AllRuns(tree, runs) + if runTest && 0 < runs then [Reenter] else []
        invariant !runTest ==> runs == Max(1, |Leaves(tree, [])|) && subcasesStack == []
        decreases runTest, |Leaves(tree, [])| - runs
      {
        AllRunsStep(tree, runs);
        Turn(items, runs);
        runs := runs + 1;
        assert trace == old(trace) + AllRuns(tree, runs);
        if shouldReenter && runTest {
          Tell(Reenter);
        }
        if !shouldReenter {
          runTest := false;
        }
      }
      if filter.included == [] && filter.excluded == [] {
        PruneWithoutFilters(items, 0, filter);
      }
    }
  }
}
