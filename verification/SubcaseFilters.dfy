/**
  The subcase filters of the command line: `Prune` deletes what they reject, and here is which
  subcases that leaves.
 */
module SubcaseFilters {
  import opened Common
  import opened TestModel
  import opened SubcaseTree
  import Glob

  /** The subcase filters of the command line. */
  datatype Filter = Filter(levels: int, included: seq<CString>, excluded: seq<CString>, caseSensitive: bool) {

    /** `size_t(subcase_filter_levels)`: a negative number of levels becomes a huge one. */
    function Levels(): nat
      requires -0x8000_0000 <= levels
    {
      if levels < 0 then levels + 0x1_0000_0000_0000_0000 else levels
    }

    ghost predicate Rejects(depth: nat, sig: Signature)
      requires -0x8000_0000 <= levels
    {
      depth < Levels() &&
      (|| !Glob.Accepts(included, sig.name, true, caseSensitive)
       || Glob.Accepts(excluded, sig.name, false, caseSensitive))
    }
  }

  type SubcaseFilter = f: Filter | -0x8000_0000 <= f.levels < 0x8000_0000 witness Filter(0, [], [], true)

  /** The body without the subcases that the filters reject. */
  ghost function Prune(items: seq<Item>, depth: nat, filter: SubcaseFilter): seq<Item> {
    if items == [] then []
    else
      (match items[0]
       case Report(_) => [items[0]]
       case Sub(sig, body) =>
         if filter.Rejects(depth, sig) then [] else [Sub(sig, Prune(body, depth + 1, filter))])
      + Prune(items[1..], depth, filter)
  }

  lemma PruneSplits(items: seq<Item>, depth: nat, filter: SubcaseFilter)
    requires items != []
    ensures var rest := Prune(items[1..], depth, filter);
            var pruned := Prune(items, depth, filter);
            match items[0]
            case Report(_) => pruned != [] && pruned[0] == items[0] && pruned[1..] == rest
            case Sub(sig, body) =>
              if filter.Rejects(depth, sig) then pruned == rest
              else pruned != [] && pruned[0] == Sub(sig, Prune(body, depth + 1, filter)) && pruned[1..] == rest
  {
    var rest := Prune(items[1..], depth, filter);
    assert [] + rest == rest;
    if items[0].Sub? {
      assert ([Sub(items[0].sig, Prune(items[0].body, depth + 1, filter))] + rest)[1..] == rest;
    } else {
      assert ([items[0]] + rest)[1..] == rest;
    }
  }

  lemma {:induction false} PruneKeepsDistinct(items: seq<Item>, depth: nat, filter: SubcaseFilter)
    requires Distinct(items)
    ensures Distinct(Prune(items, depth, filter))
    ensures Signatures(Prune(items, depth, filter)) <= Signatures(items)
  {
    if items != [] {
      PruneSplits(items, depth, filter);
      PruneKeepsDistinct(items[1..], depth, filter);
      if items[0].Sub? {
        PruneKeepsDistinct(items[0].body, depth + 1, filter);
      }
    }
  }

  /** Without filters nothing is deleted. */
  lemma {:induction false} PruneWithoutFilters(items: seq<Item>, depth: nat, filter: SubcaseFilter)
    requires filter.included == [] && filter.excluded == []
    ensures Prune(items, depth, filter) == items
    decreases items
  {
    if items != [] {
      PruneSplits(items, depth, filter);
      PruneWithoutFilters(items[1..], depth, filter);
      assert [items[0]] + items[1..] == items;
      if items[0].Sub? {
        Glob.WithoutFilters(items[0].sig.name, filter.caseSensitive);
        PruneWithoutFilters(items[0].body, depth + 1, filter);
      }
    }
  }

  /** The name matches a pattern of the first list, or that list is empty, and none of the second. */
  ghost predicate NamePasses(name: CString, filter: SubcaseFilter) {
    && (filter.included == [] ||
        exists i :: 0 <= i < |filter.included| && Glob.Matches(filter.included[i], name, filter.caseSensitive))
    && (forall i :: 0 <= i < |filter.excluded| ==> !Glob.Matches(filter.excluded[i], name, filter.caseSensitive))
  }

  /** The filters look at this many levels; a negative number of them is taken as an unsigned 64-bit one. */
  predicate Filtered(depth: nat, filter: SubcaseFilter) {
    depth < filter.levels || (filter.levels < 0 && depth < 0x1_0000_0000_0000_0000 + filter.levels)
  }

  lemma RejectsMeans(depth: nat, sig: Signature, filter: SubcaseFilter)
    ensures filter.Rejects(depth, sig) <==> Filtered(depth, filter) && !NamePasses(sig.name, filter)
  {
  }

  /** Every name on the path, from `depth` levels down, passes as far as the filters look. */
  ghost predicate PathPasses(path: Path, depth: nat, filter: SubcaseFilter) {
    forall i :: 0 <= i < |path| && Filtered(depth + i, filter) ==> NamePasses(path[i].name, filter)
  }

  /** The path leads from one subcase to another inside it. */
  predicate Leads(items: seq<Item>, path: Path)
    decreases |path|
  {
    path != [] && exists i :: 0 <= i < |items| && LeadsBy(items[i], path)
  }

  predicate LeadsBy(item: Item, path: Path)
    requires path != []
    decreases |path|, 0
  {
    item.Sub? && item.sig == path[0] && (|path| == 1 || Leads(item.body, path[1..]))
  }

  lemma LeadsCons(items: seq<Item>, path: Path)
    requires path != []
    ensures Leads(items, path) <==> items != [] && (LeadsBy(items[0], path) || Leads(items[1..], path))
  {
    if i :| 0 <= i < |items| && LeadsBy(items[i], path) {
      if i > 0 {
        assert items[1..][i - 1] == items[i];
      }
    }
    if items != [] {
      if i :| 0 <= i < |items[1..]| && LeadsBy(items[1..][i], path) {
        assert items[i + 1] == items[1..][i];
      }
    }
  }

  /** The paths of a tree are the ways down it. */
  lemma {:induction false} PathsMean(items: seq<Item>, prefix: Path, path: Path)
    ensures prefix + path in Paths(items, prefix) <==> Leads(items, path)
    decreases |path|, |items|
  {
    if path == [] {
      PathsBelow(items, prefix);
      assert prefix + path == prefix;
    } else {
      LeadsCons(items, path);
      if items != [] {
        PathsMean(items[1..], prefix, path);
        if items[0].Sub? {
          PathsOfMean(items[0].sig, items[0].body, prefix, path);
        }
      }
    }
  }

  lemma {:induction false} PathsOfMean(sig: Signature, body: seq<Item>, prefix: Path, path: Path)
    requires path != []
    ensures prefix + path in PathsOf(sig, body, prefix) <==> LeadsBy(Sub(sig, body), path)
    decreases |path|, 0
  {
    var inner := prefix + [sig];
    PathsBelow(body, inner);
    if path[0] == sig {
      assert prefix + path == inner + path[1..];
      PathsMean(body, inner, path[1..]);
      if |path| == 1 {
        assert prefix + path == inner;
      } else {
        assert |prefix + path| > |inner|;
      }
    } else {
      assert (prefix + path)[|prefix|] != inner[|prefix|];
    }
  }

  lemma PathPassesCons(path: Path, depth: nat, filter: SubcaseFilter)
    requires path != []
    ensures PathPasses(path, depth, filter) <==>
            (Filtered(depth, filter) ==> NamePasses(path[0].name, filter)) && PathPasses(path[1..], depth + 1, filter)
  {
    hide NamePasses;
    forall i | 0 < i < |path| ensures path[i] == path[1..][i - 1] && depth + i == (depth + 1) + (i - 1) {}
    if PathPasses(path, depth, filter) {
      assert path[0] == path[0];
      forall i | 0 <= i < |path[1..]| && Filtered(depth + 1 + i, filter) ensures NamePasses(path[1..][i].name, filter) {
        assert path[1..][i] == path[i + 1] && depth + (i + 1) == depth + 1 + i;
      }
    }
  }

  /** A way down survives exactly if every name on it passes, as far as the filters look. */
  lemma {:induction false} PruneLeads(items: seq<Item>, depth: nat, filter: SubcaseFilter, path: Path)
    requires path != []
    ensures Leads(Prune(items, depth, filter), path) <==> Leads(items, path) && PathPasses(path, depth, filter)
    decreases |path|, |items|
  {
    hide NamePasses, PathPasses, Prune, Leads, LeadsBy;
    var pruned := Prune(items, depth, filter);
    LeadsCons(items, path);
    LeadsCons(pruned, path);
    if items == [] {
      PruneNothing(depth, filter);
    } else {
      PruneSplits(items, depth, filter);
      PruneLeads(items[1..], depth, filter, path);
      if items[0].Sub? {
        PruneLeadsBy(items[0].sig, items[0].body, depth, filter, path);
      } else {
        ReportsLeadNowhere(items[0], path);
      }
    }
  }

  lemma ReportsLeadNowhere(item: Item, path: Path)
    requires item.Report? && path != []
    ensures !LeadsBy(item, path)
  {
  }

  lemma {:induction false} PruneLeadsBy(sig: Signature, body: seq<Item>, depth: nat, filter: SubcaseFilter, path: Path)
    requires path != []
    ensures LeadsBy(Sub(sig, body), path) && PathPasses(path, depth, filter) <==>
            !filter.Rejects(depth, sig) && LeadsBy(Sub(sig, Prune(body, depth + 1, filter)), path)
    decreases |path|, 0
  {
    hide NamePasses, Prune;
    RejectsMeans(depth, sig, filter);
    PathPassesCons(path, depth, filter);
    if |path| > 1 {
      PruneLeads(body, depth + 1, filter, path[1..]);
    }
  }

  /** Exactly the subcases on such ways are left: all others are deleted, and nothing else is. */
  lemma SurvivingPaths(items: seq<Item>, filter: SubcaseFilter, p: Path)
    ensures p in Paths(Prune(items, 0, filter), []) <==> p in Paths(items, []) && PathPasses(p, 0, filter)
  {
    hide NamePasses, PathPasses, Prune, Leads;
    assert [] + p == p;
    PathsMean(items, [], p);
    PathsMean(Prune(items, 0, filter), [], p);
    if p == [] {
      NoWay(items);
      NoWay(Prune(items, 0, filter));
    } else {
      PruneLeads(items, 0, filter, p);
    }
  }

  lemma NoWay(items: seq<Item>)
    ensures !Leads(items, [])
  {
  }

  lemma PruneNothing(depth: nat, filter: SubcaseFilter)
    ensures Prune([], depth, filter) == []
  {
  }

  /** With a negative number of levels the names at all places count, up to a depth of 2^63. */
  lemma NegativeLevels(p: Path, filter: SubcaseFilter)
    requires filter.levels < 0 && |p| <= 0x8000_0000_0000_0000
    ensures PathPasses(p, 0, filter) <==> forall i :: 0 <= i < |p| ==> NamePasses(p[i].name, filter)
  {
    hide NamePasses;
    if PathPasses(p, 0, filter) {
      forall i | 0 <= i < |p| ensures NamePasses(p[i].name, filter) {
        assert Filtered(0 + i, filter);
      }
    }
  }

  /** Otherwise those on the first so many. */
  lemma FirstLevels(p: Path, filter: SubcaseFilter)
    requires 0 <= filter.levels
    ensures PathPasses(p, 0, filter) <==> forall i :: 0 <= i < |p| && i < filter.levels ==>
              NamePasses(p[i].name, filter)
  {
    hide NamePasses;
    if PathPasses(p, 0, filter) {
      forall i | 0 <= i < |p| && i < filter.levels ensures NamePasses(p[i].name, filter) {
        assert Filtered(0 + i, filter);
      }
    }
  }

  // ----- Distinct siblings

  lemma SignaturesMean(items: seq<Item>, sig: Signature)
    ensures sig in Signatures(items) <==> exists i :: 0 <= i < |items| && items[i].Sub? && items[i].sig == sig
  {
    if items != [] {
      SignaturesMean(items[1..], sig);
      if i :| 0 <= i < |items| && items[i].Sub? && items[i].sig == sig {
        assert i > 0 ==> items[1..][i - 1] == items[i];
      }
      if i :| 0 <= i < |items[1..]| && items[1..][i].Sub? && items[1..][i].sig == sig {
        assert items[i + 1] == items[1..][i];
      }
    }
  }

  /** No two subcases side by side share their signature, here and inside each of them. */
  lemma {:induction false} DistinctMeans(items: seq<Item>)
    ensures Distinct(items) <==>
            && (forall i, j :: 0 <= i < j < |items| && items[i].Sub? && items[j].Sub? ==> items[i].sig != items[j].sig)
            && (forall i :: 0 <= i < |items| && items[i].Sub? ==> Distinct(items[i].body))
    decreases |items|
  {
    if items != [] {
      var rest := items[1..];
      DistinctMeans(rest);
      assert forall i :: 0 < i < |items| ==> items[i] == rest[i - 1];
      assert forall i :: 0 <= i < |rest| ==> rest[i] == items[i + 1];
      if items[0].Sub? {
        SignaturesMean(rest, items[0].sig);
      }
    }
  }
}
