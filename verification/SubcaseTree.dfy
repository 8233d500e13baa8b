/**
  What the subcases of a test body promise: the tree they form, its leaves from left to
  right, and which paths count as passed once the first `k` leaves have been run.
  Nothing here mentions how the runner finds its way; that is `SubcaseRunner`.
 */
module SubcaseTree {
  import opened Common
  import opened TestModel

  function Signatures(items: seq<Item>): set<Signature> {
    if items == [] then {}
    else (if items[0].Sub? then {items[0].sig} else {}) + Signatures(items[1..])
  }

  /** Siblings carry distinct signatures, at every level. */
  predicate Distinct(items: seq<Item>) {
    items == [] ||
    (&& Distinct(items[1..])
     && (items[0].Sub? ==> items[0].sig !in Signatures(items[1..]) && Distinct(items[0].body)))
  }

  /** The paths of the leaves below `prefix`, from left to right. */
  function Leaves(items: seq<Item>, prefix: Path): seq<Path>
    decreases items, 0
  {
    if items == [] then []
    else if items[0].Report? then Leaves(items[1..], prefix)
    else LeavesOf(items[0].sig, items[0].body, prefix) + Leaves(items[1..], prefix)
  }

  /** A subcase without subcases of its own is a leaf. */
  function LeavesOf(sig: Signature, body: seq<Item>, prefix: Path): (leaves: seq<Path>)
    ensures leaves != []
    decreases body, 1
  {
    var below := Leaves(body, prefix + [sig]);
    if below == [] then [prefix + [sig]] else below
  }

  /** The paths of all subcases below `prefix`. */
  function Paths(items: seq<Item>, prefix: Path): set<Path>
    decreases items, 0
  {
    if items == [] then {}
    else if items[0].Report? then Paths(items[1..], prefix)
    else PathsOf(items[0].sig, items[0].body, prefix) + Paths(items[1..], prefix)
  }

  function PathsOf(sig: Signature, body: seq<Item>, prefix: Path): set<Path>
    decreases body, 1
  {
    {prefix + [sig]} + Paths(body, prefix + [sig])
  }

  /** The paths that have passed once the first `k` leaves below `prefix` have been run. */
  function Passed(items: seq<Item>, prefix: Path, k: nat): set<Path>
    requires k <= |Leaves(items, prefix)|
  {
    if items == [] then {}
    else if items[0].Report? then Passed(items[1..], prefix, k)
    else
      var Sub(sig, body) := items[0];
      var n := |LeavesOf(sig, body, prefix)|;
      if n <= k then PathsOf(sig, body, prefix) + Passed(items[1..], prefix, k - n)
      else Passed(body, prefix + [sig], k)
  }

  /** What a body reports when none of its subcases is entered. */
  function Reports(items: seq<Item>): seq<Event> {
    if items == [] then []
    else (if items[0].Report? then [Logged(items[0].log)] else []) + Reports(items[1..])
  }

  /** What the run towards leaf `k` reports; `k` may be one past the last leaf, then nothing is entered. */
  function RunEvents(items: seq<Item>, prefix: Path, k: nat): seq<Event>
    requires k <= |Leaves(items, prefix)|
  {
    if items == [] then []
    else if items[0].Report? then [Logged(items[0].log)] + RunEvents(items[1..], prefix, k)
    else
      var Sub(sig, body) := items[0];
      var n := |LeavesOf(sig, body, prefix)|;
      if n <= k then RunEvents(items[1..], prefix, k - n)
      else [SubcaseStart(sig)] + RunEvents(body, prefix + [sig], k) + [SubcaseEnd] + Reports(items[1..])
  }

  /** The first `runs` runs one after another, with the runner's note between any two of them. */
  function AllRuns(items: seq<Item>, runs: nat): seq<Event>
    requires runs <= Max(1, |Leaves(items, [])|)
  {
    if runs == 0 then []
    else
      AllRuns(items, runs - 1)
      + (if runs == 1 then [] else [Reenter])
      + RunEvents(items, [], runs - 1)
  }

  lemma AllRunsStep(items: seq<Item>, runs: nat)
    requires runs < Max(1, |Leaves(items, [])|)
    ensures AllRuns(items, 0) == []
    ensures AllRuns(items, runs + 1)
         == AllRuns(items, runs) + (if runs == 0 then [] else [Reenter]) + RunEvents(items, [], runs)
  {
  }

  /** The subcase starts and ends among events. */
  function Entered(events: seq<Event>): seq<Event> {
    if events == [] then []
    else (if events[0].SubcaseStart? || events[0].SubcaseEnd? then [events[0]] else []) + Entered(events[1..])
  }

  function Starts(path: Path): seq<Event> {
    seq(|path|, i requires 0 <= i < |path| => SubcaseStart(path[i]))
  }

  function Ends(n: nat): seq<Event> {
    seq(n, _ => SubcaseEnd)
  }

  // ----- Prefixes

  predicate Below(p: Path, prefix: Path, sigs: set<Signature>) {
    |p| > |prefix| && p[..|prefix|] == prefix && p[|prefix|] in sigs
  }

  lemma BelowInside(p: Path, prefix: Path, sig: Signature, sigs: set<Signature>)
    requires Below(p, prefix + [sig], sigs)
    ensures Below(p, prefix, {sig})
  {
    assert p[..|prefix|] == p[..|prefix + [sig]|][..|prefix|];
    assert p[|prefix|] == p[..|prefix + [sig]|][|prefix|];
  }

  /** Every path of the tree runs through one of its top-level subcases. */
  lemma {:induction false} PathsBelow(items: seq<Item>, prefix: Path)
    ensures forall p :: p in Paths(items, prefix) ==> Below(p, prefix, Signatures(items))
    decreases items, 1
  {
    if items != [] {
      PathsBelow(items[1..], prefix);
      if items[0].Sub? {
        PathsOfBelow(items[0].sig, items[0].body, prefix);
      }
    }
  }

  lemma {:induction false} PathsOfBelow(sig: Signature, body: seq<Item>, prefix: Path)
    ensures forall p :: p in PathsOf(sig, body, prefix) ==> Below(p, prefix, {sig})
    decreases body, 2
  {
    PathsBelow(body, prefix + [sig]);
    forall p | p in Paths(body, prefix + [sig]) ensures Below(p, prefix, {sig}) {
      BelowInside(p, prefix, sig, Signatures(body));
    }
  }

  lemma {:induction false} LeavesAreSubcases(items: seq<Item>, prefix: Path)
    ensures forall l :: l in Leaves(items, prefix) ==> l in Paths(items, prefix)
    ensures Leaves(items, prefix) == [] <==> Paths(items, prefix) == {}
    decreases items
  {
    if items != [] {
      LeavesAreSubcases(items[1..], prefix);
      if items[0].Sub? {
        var Sub(sig, body) := items[0];
        LeavesAreSubcases(body, prefix + [sig]);
        assert prefix + [sig] in Paths(items, prefix);
      }
    }
  }

  // ----- The three facts the runner relies on

  /** Until its own leaves have been run a subcase has not passed; afterwards it has. */
  lemma {:induction false} HeadPassed(sig: Signature, body: seq<Item>, rest: seq<Item>, prefix: Path, k: nat)
    requires sig !in Signatures(rest)
    requires k <= |Leaves([Sub(sig, body)] + rest, prefix)|
    ensures Leaves([Sub(sig, body)] + rest, prefix) == LeavesOf(sig, body, prefix) + Leaves(rest, prefix)
    ensures prefix + [sig] in Passed([Sub(sig, body)] + rest, prefix, k) <==> |LeavesOf(sig, body, prefix)| <= k
  {
    var items := [Sub(sig, body)] + rest;
    assert items[1..] == rest;
    if k < |LeavesOf(sig, body, prefix)| {
      PassedAreSubcases(body, prefix + [sig], k);
      PathsBelow(body, prefix + [sig]);
    }
  }

  /** Past a subcase whose leaves have all been run only what follows it matters. */
  lemma PastPassed(sig: Signature, body: seq<Item>, rest: seq<Item>, prefix: Path, k: nat)
    requires |LeavesOf(sig, body, prefix)| <= k <= |Leaves([Sub(sig, body)] + rest, prefix)|
    ensures var items, n := [Sub(sig, body)] + rest, |LeavesOf(sig, body, prefix)|;
            && Leaves(items, prefix) == LeavesOf(sig, body, prefix) + Leaves(rest, prefix)
            && Passed(items, prefix, k) == PathsOf(sig, body, prefix) + Passed(rest, prefix, k - n)
            && RunEvents(items, prefix, k) == RunEvents(rest, prefix, k - n)
  {
    hide LeavesOf, PathsOf;
    assert ([Sub(sig, body)] + rest)[1..] == rest;
  }

  lemma {:induction false} PassedAreSubcases(items: seq<Item>, prefix: Path, k: nat)
    requires k <= |Leaves(items, prefix)|
    ensures Passed(items, prefix, k) <= Paths(items, prefix)
    decreases items
  {
    if items != [] {
      if items[0].Report? {
        PassedAreSubcases(items[1..], prefix, k);
      } else {
        var Sub(sig, body) := items[0];
        if |LeavesOf(sig, body, prefix)| <= k {
          PassedAreSubcases(items[1..], prefix, k - |LeavesOf(sig, body, prefix)|);
        } else {
          PassedAreSubcases(body, prefix + [sig], k);
        }
      }
    }
  }

  /** With no leaf run nothing has passed; with all of them run everything has. */
  lemma {:induction false} PassedEnds(items: seq<Item>, prefix: Path)
    ensures Passed(items, prefix, 0) == {}
    ensures Passed(items, prefix, |Leaves(items, prefix)|) == Paths(items, prefix)
    decreases items
  {
    if items != [] {
      PassedEnds(items[1..], prefix);
      if items[0].Sub? {
        PassedEnds(items[0].body, prefix + [items[0].sig]);
      }
    }
  }

  lemma {:induction false} ReportsEntersNothing(items: seq<Item>, prefix: Path)
    ensures RunEvents(items, prefix, |Leaves(items, prefix)|) == Reports(items)
    decreases items
  {
    if items != [] {
      ReportsEntersNothing(items[1..], prefix);
    }
  }

  // ----- What passed and leaf mean, without the recursion

  /** Paths through one subcase and paths through its later siblings are unrelated. */
  lemma Unrelated(sig: Signature, body: seq<Item>, rest: seq<Item>, prefix: Path, q: Path, r: Path)
    requires sig !in Signatures(rest)
    requires q in PathsOf(sig, body, prefix) && r in Paths(rest, prefix)
    ensures !(q <= r) && !(r <= q)
  {
    PathsOfBelow(sig, body, prefix);
    PathsBelow(rest, prefix);
    assert Below(q, prefix, {sig}) && Below(r, prefix, Signatures(rest));
    assert q[|prefix|] == sig && r[|prefix|] != sig;
  }

  lemma LeavesExtend(sig: Signature, body: seq<Item>, prefix: Path, i: nat)
    requires i < |LeavesOf(sig, body, prefix)|
    ensures prefix + [sig] <= LeavesOf(sig, body, prefix)[i]
  {
    var leaf := LeavesOf(sig, body, prefix)[i];
    LeavesAreSubcases(body, prefix + [sig]);
    PathsBelow(body, prefix + [sig]);
    if leaf != prefix + [sig] {
      assert Below(leaf, prefix + [sig], Signatures(body));
      assert leaf[..|prefix + [sig]|] == prefix + [sig];
    }
  }

  /** A path is a leaf exactly if it is in the tree and nothing in the tree extends it. */
  lemma {:induction false} LeavesAreMaximal(items: seq<Item>, prefix: Path, p: Path)
    requires Distinct(items)
    ensures p in Leaves(items, prefix) <==>
            p in Paths(items, prefix) && forall q :: q in Paths(items, prefix) && p <= q ==> q == p
    decreases items
  {
    if items != [] {
      LeavesAreMaximal(items[1..], prefix, p);
      if items[0].Sub? {
        var Sub(sig, body) := items[0];
        LeavesAreMaximal(body, prefix + [sig], p);
        LeavesAreSubcases(body, prefix + [sig]);
        LeavesAreSubcases(items[1..], prefix);
        PathsBelow(body, prefix + [sig]);
        forall q, r | q in PathsOf(sig, body, prefix) && r in Paths(items[1..], prefix)
          ensures !(q <= r) && !(r <= q)
        {
          Unrelated(sig, body, items[1..], prefix, q, r);
        }
        if q :| q in Paths(body, prefix + [sig]) {
          assert Below(q, prefix + [sig], Signatures(body));
          assert q[..|prefix + [sig]|] == prefix + [sig];
          assert prefix + [sig] <= q;
          assert prefix + [sig] != q;
        }
      }
    }
  }

  /** No leaf is listed twice. */
  lemma {:induction false} LeavesDiffer(items: seq<Item>, prefix: Path, i: nat, j: nat)
    requires Distinct(items) && i < j < |Leaves(items, prefix)|
    ensures Leaves(items, prefix)[i] != Leaves(items, prefix)[j]
    decreases items
  {
    if items[0].Report? {
      LeavesDiffer(items[1..], prefix, i, j);
    } else {
      var Sub(sig, body) := items[0];
      var n := |LeavesOf(sig, body, prefix)|;
      if j < n {
        LeavesDiffer(body, prefix + [sig], i, j);
      } else if n <= i {
        LeavesDiffer(items[1..], prefix, i - n, j - n);
      } else {
        var q, r := LeavesOf(sig, body, prefix)[i], Leaves(items[1..], prefix)[j - n];
        LeavesAreSubcases(body, prefix + [sig]);
        LeavesAreSubcases(items[1..], prefix);
        Unrelated(sig, body, items[1..], prefix, q, r);
      }
    }
  }

  /** Every subcase leads to a leaf. */
  lemma {:induction false} EverySubcaseHasALeaf(items: seq<Item>, prefix: Path, p: Path) returns (i: nat)
    requires p in Paths(items, prefix)
    ensures i < |Leaves(items, prefix)| && p <= Leaves(items, prefix)[i]
    decreases items, 0
  {
    if items[0].Report? {
      i := EverySubcaseHasALeaf(items[1..], prefix, p);
    } else {
      var Sub(sig, body) := items[0];
      if p in PathsOf(sig, body, prefix) {
        i := SubcaseHasALeaf(sig, body, prefix, p);
      } else {
        i := EverySubcaseHasALeaf(items[1..], prefix, p);
        i := i + |LeavesOf(sig, body, prefix)|;
      }
    }
  }

  lemma {:induction false} SubcaseHasALeaf(sig: Signature, body: seq<Item>, prefix: Path, p: Path) returns (i: nat)
    requires p in PathsOf(sig, body, prefix)
    ensures i < |LeavesOf(sig, body, prefix)| && p <= LeavesOf(sig, body, prefix)[i]
    decreases body, 1
  {
    if p == prefix + [sig] {
      i := 0;
      LeavesExtend(sig, body, prefix, i);
    } else {
      i := EverySubcaseHasALeaf(body, prefix + [sig], p);
    }
  }

  predicate LeavesAmong(p: Path, leaves: seq<Path>, k: int) {
    forall i :: 0 <= i < |leaves| && p <= leaves[i] ==> i < k
  }

  /** Whether the leaves below `p` are among the first `k` can be asked on `p`'s own side of a split. */
  lemma LeavesAmongSplit(sig: Signature, body: seq<Item>, rest: seq<Item>, prefix: Path, k: nat, p: Path)
    requires sig !in Signatures(rest)
    ensures p in PathsOf(sig, body, prefix) ==>
              (LeavesAmong(p, LeavesOf(sig, body, prefix) + Leaves(rest, prefix), k)
               <==> LeavesAmong(p, LeavesOf(sig, body, prefix), k))
    ensures p in Paths(rest, prefix) ==>
              (LeavesAmong(p, LeavesOf(sig, body, prefix) + Leaves(rest, prefix), k)
               <==> LeavesAmong(p, Leaves(rest, prefix), k - |LeavesOf(sig, body, prefix)|))
  {
    var own, others := LeavesOf(sig, body, prefix), Leaves(rest, prefix);
    LeavesAreSubcases(body, prefix + [sig]);
    LeavesAreSubcases(rest, prefix);
    if p in PathsOf(sig, body, prefix) {
      forall i | 0 <= i < |others| ensures !(p <= others[i]) {
        Unrelated(sig, body, rest, prefix, p, others[i]);
      }
      forall i | 0 <= i < |own| ensures (own + others)[i] == own[i] {}
    }
    if p in Paths(rest, prefix) {
      forall i | 0 <= i < |own| ensures !(p <= own[i]) {
        Unrelated(sig, body, rest, prefix, own[i], p);
      }
      forall i | 0 <= i < |others| ensures (own + others)[|own| + i] == others[i] {}
    }
  }

  /**
    After `k` leaves a subcase counts as passed exactly if it is in the tree and every
    leaf at or below it is among these `k`.
   */
  lemma {:induction false} PassedMeans(items: seq<Item>, prefix: Path, k: nat, p: Path)
    requires Distinct(items) && k <= |Leaves(items, prefix)|
    ensures p in Passed(items, prefix, k) <==>
            p in Paths(items, prefix) && LeavesAmong(p, Leaves(items, prefix), k)
    decreases items
  {
    if items != [] {
      if items[0].Report? {
        PassedMeans(items[1..], prefix, k, p);
      } else {
        var Sub(sig, body) := items[0];
        var rest, n := items[1..], |LeavesOf(sig, body, prefix)|;
        LeavesAmongSplit(sig, body, rest, prefix, k, p);
        if n <= k {
          PassedMeans(rest, prefix, k - n, p);
        } else {
          PassedMeans(body, prefix + [sig], k, p);
          PathsBelow(body, prefix + [sig]);
          if p in Paths(rest, prefix) {
            var i := EverySubcaseHasALeaf(rest, prefix, p);
            if p in Paths(body, prefix + [sig]) {
              Unrelated(sig, body, rest, prefix, p, p);
            }
          } else if p == prefix + [sig] {
            LeavesAreSubcases(body, prefix + [sig]);
            LeavesExtend(sig, body, prefix, k);
          }
        }
      }
    }
  }

  // ----- The shape of one run

  lemma EnteredCons(e: Event, rest: seq<Event>)
    ensures Entered([e] + rest) == (if e.SubcaseStart? || e.SubcaseEnd? then [e] else []) + Entered(rest)
  {
    assert ([e] + rest)[1..] == rest;
  }

  lemma {:induction false} EnteredConcat(a: seq<Event>, b: seq<Event>)
    ensures Entered(a + b) == Entered(a) + Entered(b)
    decreases |a|
  {
    if a == [] {
      assert a + b == b;
    } else {
      hide Entered;
      EnteredConcat(a[1..], b);
      EnteredCons(a[0], a[1..]);
      EnteredCons(a[0], a[1..] + b);
      assert [a[0]] + a[1..] == a && [a[0]] + (a[1..] + b) == a + b;
    }
  }

  lemma {:induction false} ReportsEnterNothing(items: seq<Item>)
    ensures Entered(Reports(items)) == []
  {
    if items != [] {
      ReportsEnterNothing(items[1..]);
      if items[0].Report? {
        EnteredConcat([Logged(items[0].log)], Reports(items[1..]));
      } else {
        assert Reports(items) == Reports(items[1..]);
      }
    }
  }

  lemma NothingEntered()
    ensures Entered([]) == [] && Entered([Reenter]) == [] && forall log :: Entered([Logged(log)]) == []
  {
  }

  /** What a run enters is one chain, from the top down to its leaf and back up again. */
  lemma {:induction false} RunIsOneChain(items: seq<Item>, prefix: Path, k: nat)
    requires k <= |Leaves(items, prefix)|
    ensures k < |Leaves(items, prefix)| ==>
              var leaf := Leaves(items, prefix)[k];
              && prefix <= leaf
              && Entered(RunEvents(items, prefix, k)) == Starts(leaf[|prefix|..]) + Ends(|leaf| - |prefix|)
    ensures k == |Leaves(items, prefix)| ==> Entered(RunEvents(items, prefix, k)) == []
    decreases items, 1
  {
    hide Entered, Starts, Ends;
    NothingEntered();
    if items != [] {
      if items[0].Report? {
        RunIsOneChain(items[1..], prefix, k);
        EnteredConcat([Logged(items[0].log)], RunEvents(items[1..], prefix, k));
      } else {
        var Sub(sig, body) := items[0];
        if |LeavesOf(sig, body, prefix)| <= k {
          RunIsOneChain(items[1..], prefix, k - |LeavesOf(sig, body, prefix)|);
        } else {
          ChainThrough(sig, body, items[1..], prefix, k);
        }
      }
    }
  }

  lemma StartsAndEnds(sig: Signature, path: Path, n: nat)
    ensures Starts([sig] + path) == [SubcaseStart(sig)] + Starts(path) && Starts([]) == []
    ensures Ends(n + 1) == Ends(n) + [SubcaseEnd] && Ends(0) == []
    ensures Entered([SubcaseStart(sig)]) == [SubcaseStart(sig)] && Entered([SubcaseEnd]) == [SubcaseEnd]
  {
  }

  /** The chain from a subcase that is not yet passed down to its leaf. */
  lemma {:induction false} ChainInside(sig: Signature, body: seq<Item>, prefix: Path, k: nat)
    requires k < |LeavesOf(sig, body, prefix)|
    ensures var leaf, path := LeavesOf(sig, body, prefix)[k], prefix + [sig];
            path <= leaf && k <= |Leaves(body, path)| &&
            Entered(RunEvents(body, path, k)) == Starts(leaf[|path|..]) + Ends(|leaf| - |path|)
    decreases body, 2
  {
    hide Entered, Starts, Ends, RunEvents;
    var path := prefix + [sig];
    LeavesExtend(sig, body, prefix, k);
    RunIsOneChain(body, path, k);
    StartsAndEnds(sig, [], 0);
    assert path[|path|..] == [];
  }

  lemma {:induction false} ChainThrough(sig: Signature, body: seq<Item>, rest: seq<Item>, prefix: Path, k: nat)
    requires k < |LeavesOf(sig, body, prefix)|
    ensures var leaf := LeavesOf(sig, body, prefix)[k];
            prefix <= leaf && k <= |Leaves(body, prefix + [sig])| &&
            Entered([SubcaseStart(sig)] + RunEvents(body, prefix + [sig], k) + [SubcaseEnd] + Reports(rest))
            == Starts(leaf[|prefix|..]) + Ends(|leaf| - |prefix|)
    decreases body, 3
  {
    hide Entered, Starts, Ends, RunEvents, LeavesOf, Leaves, Reports;
    var leaf, path := LeavesOf(sig, body, prefix)[k], prefix + [sig];
    ChainInside(sig, body, prefix, k);
    var inside := RunEvents(body, path, k);
    StartsAndEnds(sig, leaf[|path|..], |leaf| - |path|);
    assert leaf[..|path|] == path && leaf[|prefix|..] == [sig] + leaf[|path|..];
    EnteredConcat([SubcaseStart(sig)], inside);
    EnteredConcat([SubcaseStart(sig)] + inside, [SubcaseEnd]);
    EnteredConcat([SubcaseStart(sig)] + inside + [SubcaseEnd], Reports(rest));
    ReportsEnterNothing(rest);
  }

  // ----- The same run, as the body is written

  /** What the body reports when exactly the subcases on `path` are entered. */
  function Along(items: seq<Item>, path: Path): seq<Event> {
    if items == [] then []
    else
      (match items[0]
       case Report(log) => [Logged(log)]
       case Sub(sig, body) =>
         if path != [] && path[0] == sig then [SubcaseStart(sig)] + Along(body, path[1..]) + [SubcaseEnd] else [])
      + Along(items[1..], path)
  }

  /** Where the path does not go only the reports are left. */
  lemma {:induction false} AlongElsewhere(items: seq<Item>, path: Path)
    requires path == [] || path[0] !in Signatures(items)
    ensures Along(items, path) == Reports(items)
    decreases items
  {
    if items != [] {
      AlongElsewhere(items[1..], path);
    }
  }

  lemma AlongStep(items: seq<Item>, path: Path)
    ensures items == [] ==> Along(items, path) == []
    ensures items != [] && items[0].Report? ==>
              Along(items, path) == [Logged(items[0].log)] + Along(items[1..], path)
    ensures items != [] && items[0].Sub? && !(path != [] && path[0] == items[0].sig) ==>
              Along(items, path) == Along(items[1..], path)
    ensures items != [] && items[0].Sub? && path != [] && path[0] == items[0].sig ==>
              Along(items, path) ==
              [SubcaseStart(items[0].sig)] + Along(items[0].body, path[1..]) + [SubcaseEnd] + Along(items[1..], path)
  {
  }

  /** Where run `k` goes below `prefix`: to leaf `k`, or nowhere if there is none. */
  function Way(items: seq<Item>, prefix: Path, k: nat): Path
    requires k <= |Leaves(items, prefix)|
  {
    if k < |Leaves(items, prefix)| && |prefix| <= |Leaves(items, prefix)[k]| then Leaves(items, prefix)[k][|prefix|..]
    else []
  }

  /** Run `k` executes the body as it is written, with exactly the subcases on the way to leaf `k` entered. */
  lemma {:induction false} RunIsAlong(items: seq<Item>, prefix: Path, k: nat)
    requires Distinct(items) && k <= |Leaves(items, prefix)|
    ensures RunEvents(items, prefix, k) == Along(items, Way(items, prefix, k))
    decreases items, 1
  {
    hide Along, LeavesOf, Reports, Way;
    var way := Way(items, prefix, k);
    AlongStep(items, way);
    if items != [] {
      if items[0].Report? {
        RunIsAlong(items[1..], prefix, k);
        SameWay(items[0], items[1..], prefix, k, k);
        assert [items[0]] + items[1..] == items;
      } else {
        var Sub(sig, body) := items[0];
        var rest, n := items[1..], |LeavesOf(sig, body, prefix)|;
        assert [items[0]] + rest == items;
        if n <= k {
          RunIsAlong(rest, prefix, k - n);
          SameWay(items[0], rest, prefix, k, k - n);
          LeafElsewhere(rest, prefix, k - n);
        } else {
          InnerIsAlong(sig, body, rest, prefix, k);
        }
      }
    }
  }

  /** The way is that of the later items if it does not go through the first. */
  lemma SameWay(item: Item, rest: seq<Item>, prefix: Path, k: nat, own: nat)
    requires k <= |Leaves([item] + rest, prefix)|
    requires k == own + if item.Sub? then |LeavesOf(item.sig, item.body, prefix)| else 0
    ensures own <= |Leaves(rest, prefix)| && Way([item] + rest, prefix, k) == Way(rest, prefix, own)
  {
    hide LeavesOf;
    assert ([item] + rest)[1..] == rest;
  }

  /** The way through the later siblings begins with one of them. */
  lemma LeafElsewhere(rest: seq<Item>, prefix: Path, k: nat)
    requires k <= |Leaves(rest, prefix)|
    ensures Way(rest, prefix, k) == [] || Way(rest, prefix, k)[0] in Signatures(rest)
  {
    if k < |Leaves(rest, prefix)| {
      LeavesAreSubcases(rest, prefix);
      PathsBelow(rest, prefix);
      assert Below(Leaves(rest, prefix)[k], prefix, Signatures(rest));
    }
  }

  /** The way through a subcase, and inside it. */
  lemma InnerWay(sig: Signature, body: seq<Item>, rest: seq<Item>, prefix: Path, k: nat)
    requires k < |LeavesOf(sig, body, prefix)|
    ensures k <= |Leaves([Sub(sig, body)] + rest, prefix)| && k <= |Leaves(body, prefix + [sig])|
    ensures Way([Sub(sig, body)] + rest, prefix, k) == [sig] + Way(body, prefix + [sig], k)
  {
    var items, path := [Sub(sig, body)] + rest, prefix + [sig];
    assert items[1..] == rest;
    LeavesExtend(sig, body, prefix, k);
    var leaf := LeavesOf(sig, body, prefix)[k];
    assert Leaves(items, prefix)[k] == leaf;
    assert leaf[..|path|] == path;
    assert leaf[|prefix|..] == [sig] + leaf[|path|..];
    assert path[|path|..] == [];
  }

  lemma {:induction false} InnerIsAlong(sig: Signature, body: seq<Item>, rest: seq<Item>, prefix: Path, k: nat)
    requires Distinct([Sub(sig, body)] + rest) && k < |LeavesOf(sig, body, prefix)|
    ensures var items := [Sub(sig, body)] + rest;
            && k <= |Leaves(items, prefix)| && k <= |Leaves(body, prefix + [sig])|
            && [SubcaseStart(sig)] + RunEvents(body, prefix + [sig], k) + [SubcaseEnd] + Reports(rest)
               == Along(items, Way(items, prefix, k))
    decreases body, 2
  {
    hide Along, RunEvents, Reports, LeavesOf, Leaves, Way;
    var items, path := [Sub(sig, body)] + rest, prefix + [sig];
    assert items[1..] == rest;
    InnerWay(sig, body, rest, prefix, k);
    var way := Way(items, prefix, k);
    assert way[1..] == Way(body, path, k);
    AlongStep(items, way);
    AlongElsewhere(rest, way);
    RunIsAlong(body, path, k);
  }

  /** Entering a leaf by way of its ancestors and leaving again, for each of the leaves in turn. */
  function Visits(leaves: seq<Path>): seq<Event> {
    if leaves == [] then []
    else Visits(leaves[..|leaves| - 1]) + Starts(leaves[|leaves| - 1]) + Ends(|leaves[|leaves| - 1]|)
  }

  lemma OneMoreVisit(leaves: seq<Path>, n: nat)
    requires n < |leaves|
    ensures Visits(leaves[..n + 1]) == Visits(leaves[..n]) + Starts(leaves[n]) + Ends(|leaves[n]|)
    ensures Visits(leaves[..0]) == []
  {
    hide Starts, Ends;
    assert leaves[..n + 1][..n] == leaves[..n];
  }

  /** Over all runs the leaves are visited one by one, from left to right, and none is left out or repeated. */
  lemma {:induction false} AllRunsVisitLeaves(items: seq<Item>, runs: nat)
    requires runs <= Max(1, |Leaves(items, [])|)
    ensures Entered(AllRuns(items, runs)) == Visits(Leaves(items, [])[..Min(runs, |Leaves(items, [])|)])
  {
    hide Entered, Starts, Ends, Leaves, RunEvents, AllRuns, Visits;
    var leaves := Leaves(items, []);
    if runs == 0 {
      NothingVisited(items);
    } else {
      AllRunsVisitLeaves(items, runs - 1);
      OneMoreRun(items, runs - 1);
      if runs <= |leaves| {
        OneMoreVisit(leaves, runs - 1);
      }
    }
  }

  lemma NothingVisited(items: seq<Item>)
    ensures Entered(AllRuns(items, 0)) == [] && Visits(Leaves(items, [])[..0]) == []
  {
    hide Leaves;
  }

  lemma OneMoreRun(items: seq<Item>, runs: nat)
    requires runs < Max(1, |Leaves(items, [])|)
    ensures var leaves := Leaves(items, []);
            Entered(AllRuns(items, runs + 1)) ==
            if runs < |leaves| then Entered(AllRuns(items, runs)) + Starts(leaves[runs]) + Ends(|leaves[runs]|)
            else Entered(AllRuns(items, runs))
  {
    hide Entered, Starts, Ends, Leaves, RunEvents, AllRuns;
    NothingEntered();
    AllRunsStep(items, runs);
    var leaves, before, note := Leaves(items, []), AllRuns(items, runs), if runs == 0 then [] else [Reenter];
    EnteredConcat(before + note, RunEvents(items, [], runs));
    EnteredConcat(before, note);
    RunIsOneChain(items, [], runs);
    if runs < |leaves| {
      assert leaves[runs][0..] == leaves[runs];
      assert Entered(AllRuns(items, runs + 1)) == Entered(before) + (Starts(leaves[runs]) + Ends(|leaves[runs]|));
    }
  }
}
