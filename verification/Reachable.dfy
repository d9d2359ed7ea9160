/**
  `collectReachable`: the output files an entry point needs, entry first.
 */
module Reachable {
  import opened Basics
  import opened Graphs

  /** The imports of each emitted file. */
  type Imports = Edges<string>

  ghost function Elements(xs: seq<string>): set<string> {
    set x | x in xs
  }

  /** Every file the graph mentions. */
  ghost function Universe(g: Imports, entry: string): set<string> {
    {entry} + g.Keys + (set f, d | f in g && d in g[f] :: d)
  }

  ghost predicate AllReached(g: Imports, a: string, fs: set<string>) {
    forall f | f in fs :: CanReach(g, a, f)
  }

  lemma PushFile(out: seq<string>, file: string)
    requires Distinct(out) && file !in Elements(out)
    ensures Distinct(out + [file]) && Elements(out + [file]) == Elements(out) + {file}
  {
    assert forall x :: x in out + [file] <==> x in out || x == file;
  }

  /** One import visited: what was closed and reached before still is, and the new files join it. */
  lemma Absorb(g: Imports, file: string, dep: string, earlier: set<string>, fresh_: set<string>, within: set<string>, within': set<string>)
    requires ClosedIn(g, earlier, within) && within <= within' && ClosedIn(g, fresh_, within')
    requires dep in Successors(g, file) && AllReached(g, dep, fresh_)
    ensures ClosedIn(g, earlier + fresh_, within') && AllReached(g, file, fresh_)
  {
    forall f | f in fresh_ ensures CanReach(g, file, f) {
      ReachStep(g, file, dep, f);
    }
  }

  /** The closure state of one `collectReachable` call. */
  class Collector {
    const importsByOutput: Imports
    var seen: set<string>
    var out: seq<string>

    constructor (g: Imports)
      ensures importsByOutput == g && seen == {} && out == []
    {
      importsByOutput, seen, out := g, {}, [];
    }

    method Visit(file: string, ghost all: set<string>)
      requires file in all && ClosedIn(importsByOutput, all, all)
      requires seen <= all && seen == Elements(out) && Distinct(out)
      modifies this
      ensures seen <= all && seen == Elements(out) && Distinct(out)
      ensures old(out) <= out && file in seen && old(seen) <= seen
      ensures ClosedIn(importsByOutput, seen - old(seen), seen)
      ensures AllReached(importsByOutput, file, seen - old(seen))
      ensures file !in old(seen) ==> |old(out)| < |out| && out[|old(out)|] == file
      decreases all - seen
    {
      hide Distinct, Elements, CanReach;
      if file in seen {
        return;
      }
      ghost var g, before := importsByOutput, seen;
      assert before < before + {file} <= all;
      PushFile(out, file);
      seen := seen + {file};
      out := out + [file];
      ReachSelf(g, file);
      var deps := Successors(importsByOutput, file);
      assert forall d | d in deps :: d in all;
      hide ClosedIn, AllReached;
      ghost var inner: set<string> := {};
      for i := 0 to |deps|
        invariant before + {file} <= seen <= all && seen == Elements(out) && Distinct(out)
        invariant old(out) + [file] <= out
        invariant seen == before + {file} + inner
        invariant ClosedIn(g, inner, seen) && AllReached(g, file, inner)
        invariant forall j | 0 <= j < i :: deps[j] in seen
      {
        ghost var earlier := seen;
        Visit(deps[i], all);
        Absorb(g, file, deps[i], inner, seen - earlier, earlier, seen);
        inner := inner + (seen - earlier);
      }
      CloseFile(g, file, inner, seen);
    }
  }

  lemma CloseFile(g: Imports, file: string, inner: set<string>, within: set<string>)
    requires ClosedIn(g, inner, within) && AllReached(g, file, inner)
    requires forall j | 0 <= j < |Successors(g, file)| :: Successors(g, file)[j] in within
    ensures ClosedIn(g, inner + {file}, within) && AllReached(g, file, inner + {file})
  {
    ReachSelf(g, file);
  }

  /**
    Ends on every graph, cycles included, and returns exactly the files reachable from the entry,
    each once, the entry first.
   */
  method CollectReachable(importsByOutput: Imports, entry: string) returns (files: seq<string>)
    ensures files != [] && files[0] == entry
    ensures Distinct(files)
    ensures forall f :: f in files <==> CanReach(importsByOutput, entry, f)
  {
    var collector := new Collector(importsByOutput);
    ghost var all := Universe(importsByOutput, entry);
    collector.Visit(entry, all);
    files := collector.out;
    ghost var reached := collector.seen;
    assert reached - {} == reached;
    forall f ensures f in files <==> CanReach(importsByOutput, entry, f) {
      assert f in files <==> f in reached;
      if CanReach(importsByOutput, entry, f) {
        ReachedIn(importsByOutput, reached, entry, f);
      }
    }
  }
}
