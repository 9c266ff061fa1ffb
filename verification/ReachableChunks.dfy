/** The build guard's walk over the bundle: it collects exactly the chunks the entry reaches. */
module ReachableChunks {
  import opened Options

  datatype Chunk = Chunk(fileName: string, imports: seq<string>, dynamicImports: seq<string>, requiresElectron: bool)

  type Bundle = map<string, Chunk>

  function Edges(chunk: Chunk): seq<string> {
    chunk.imports + chunk.dynamicImports
  }

  /** The map the guard builds has every chunk under its own file name. */
  predicate IndexedByName(bundle: Bundle) {
    forall name :: name in bundle ==> bundle[name].fileName == name
  }

  // ----- reachability

  /** Each file of the path but the last is a chunk of the bundle that imports the next one, statically or
      dynamically. */
  ghost predicate IsPath(bundle: Bundle, path: seq<string>) {
    && path != []
    && forall i :: 0 <= i < |path| - 1 ==>
         path[i] in bundle && (path[i + 1] in bundle[path[i]].imports || path[i + 1] in bundle[path[i]].dynamicImports)
  }

  ghost predicate PathTo(bundle: Bundle, entry: string, name: string, path: seq<string>) {
    IsPath(bundle, path) && path[0] == entry && path[|path| - 1] == name
  }

  ghost predicate Reachable(bundle: Bundle, entry: string, name: string) {
    exists path :: PathTo(bundle, entry, name, path)
  }

  lemma EntryIsReachable(bundle: Bundle, entry: string)
    ensures Reachable(bundle, entry, entry)
  {
    assert PathTo(bundle, entry, entry, [entry]);
  }

  lemma ReachableStep(bundle: Bundle, entry: string, name: string, next: string)
    requires Reachable(bundle, entry, name) && name in bundle && next in Edges(bundle[name])
    ensures Reachable(bundle, entry, next)
  {
    var path :| PathTo(bundle, entry, name, path);
    assert PathTo(bundle, entry, next, path + [next]);
  }

  /** A set that holds the entry and is closed under imports holds everything reachable. */
  lemma {:induction false} ClosedSetHoldsPath(bundle: Bundle, closed: set<string>, path: seq<string>)
    requires IsPath(bundle, path) && path[0] in closed
    requires forall name, next :: name in closed && name in bundle && next in Edges(bundle[name]) ==> next in closed
    ensures path[|path| - 1] in closed
    decreases |path|
  {
    if |path| > 1 {
      assert path[0 + 1] in Edges(bundle[path[0]]);
      ClosedSetHoldsPath(bundle, closed, path[1..]);
    }
  }

  // ----- the walk

  /** Everything the walk can ever meet. */
  ghost function Names(bundle: Bundle, entry: string): set<string> {
    {entry} + set name, next | name in bundle && next in Edges(bundle[name]) :: next
  }

  /** What is known about names met so far: they are reachable, and the imports of a visited chunk have
      been visited or wait on the stack. */
  ghost predicate Progress(bundle: Bundle, entry: string, seen: set<string>, stack: seq<string>) {
    && (forall name :: name in seen || name in stack ==> name in Names(bundle, entry) && Reachable(bundle, entry, name))
    && (forall name, next :: name in seen && name in bundle && next in Edges(bundle[name]) ==>
          next in seen || next in stack)
    && (entry in seen || entry in stack)
  }

  ghost predicate Collects(bundle: Bundle, seen: set<string>, reachable: seq<Chunk>) {
    && (forall chunk :: chunk in reachable <==> chunk.fileName in seen && chunk.fileName in bundle
                                                && bundle[chunk.fileName] == chunk)
    && (forall i, j :: 0 <= i < j < |reachable| ==> reachable[i].fileName != reachable[j].fileName)
  }

  lemma ProgressVisit(bundle: Bundle, entry: string, seen: set<string>, stack: seq<string>, name: string)
    requires Progress(bundle, entry, seen, stack + [name])
    ensures Progress(bundle, entry, seen + {name}, stack + if name in bundle then Edges(bundle[name]) else [])
  {
    var stack' := stack + if name in bundle then Edges(bundle[name]) else [];
    assert name in stack + [name];
    forall next | next in stack' ensures next in Names(bundle, entry) && Reachable(bundle, entry, next) {
      if next in stack {
        assert next in stack + [name];
      } else {
        ReachableStep(bundle, entry, name, next);
      }
    }
    forall x | x in stack + [name] ensures x in stack' || x == name {}
  }

  lemma ProgressSkip(bundle: Bundle, entry: string, seen: set<string>, stack: seq<string>, name: string)
    requires Progress(bundle, entry, seen, stack + [name]) && name in seen
    ensures Progress(bundle, entry, seen, stack)
  {
    forall x | x in stack ensures x in stack + [name] {}
  }

  lemma CollectsVisit(bundle: Bundle, seen: set<string>, reachable: seq<Chunk>, name: string)
    requires IndexedByName(bundle) && Collects(bundle, seen, reachable) && name !in seen
    ensures Collects(bundle, seen + {name}, reachable + if name in bundle then [bundle[name]] else [])
  {
    if name in bundle {
      assert forall i :: 0 <= i < |reachable| ==> reachable[i] in reachable;
    } else {
      assert reachable + [] == reachable;
    }
  }

  lemma FinishedIsExact(bundle: Bundle, entry: string, seen: set<string>)
    requires Progress(bundle, entry, seen, [])
    ensures forall name :: name in seen <==> Reachable(bundle, entry, name)
  {
    forall name | Reachable(bundle, entry, name) ensures name in seen {
      var path :| PathTo(bundle, entry, name, path);
      ClosedSetHoldsPath(bundle, seen, path);
    }
  }

  /** On any import graph, cyclic or with missing files, the walk ends and returns each chunk of the
      bundle that the entry reaches, once, and nothing else. */
  method CollectReachableChunks(entry: Chunk, byFileName: Bundle) returns (reachable: seq<Chunk>)
    requires IndexedByName(byFileName)
    ensures forall chunk :: chunk in reachable <==>
              && chunk.fileName in byFileName && byFileName[chunk.fileName] == chunk
              && Reachable(byFileName, entry.fileName, chunk.fileName)
    ensures forall i, j :: 0 <= i < j < |reachable| ==> reachable[i].fileName != reachable[j].fileName
  {
    var seen: set<string> := {};
    reachable := [];
    var stack := [entry.fileName];
    EntryIsReachable(byFileName, entry.fileName);
    while stack != []
      invariant Progress(byFileName, entry.fileName, seen, stack)
      invariant Collects(byFileName, seen, reachable)
      decreases Names(byFileName, entry.fileName) - seen, |stack|
    {
      var fileName := stack[|stack| - 1];
      assert stack == stack[..|stack| - 1] + [fileName];
      stack := stack[..|stack| - 1];
      if fileName in seen {
        ProgressSkip(byFileName, entry.fileName, seen, stack, fileName);
        continue;
      }
      ProgressVisit(byFileName, entry.fileName, seen, stack, fileName);
      CollectsVisit(byFileName, seen, reachable, fileName);
      seen := seen + {fileName};
      if fileName !in byFileName {
        assert stack + [] == stack && reachable + [] == reachable;
        continue;
      }
      var chunk := byFileName[fileName];
      reachable := reachable + [chunk];
      stack := stack + Edges(chunk);
    }
    FinishedIsExact(byFileName, entry.fileName, seen);
  }

  /** The guard passes exactly when no chunk reachable from the entry requires electron; otherwise it
      names one that does. */
  method AssertNoElectronRequire(entry: Chunk, byFileName: Bundle) returns (offender: Option<Chunk>)
    requires IndexedByName(byFileName)
    ensures offender.None? <==> forall name :: name in byFileName && Reachable(byFileName, entry.fileName, name) ==>
              !byFileName[name].requiresElectron
    ensures offender.Some? ==>
              && offender.value.fileName in byFileName && byFileName[offender.value.fileName] == offender.value
              && Reachable(byFileName, entry.fileName, offender.value.fileName) && offender.value.requiresElectron
  {
    var reachable := CollectReachableChunks(entry, byFileName);
    for i := 0 to |reachable|
      invariant forall j :: 0 <= j < i ==> !reachable[j].requiresElectron
    {
      if reachable[i].requiresElectron {
        assert reachable[i] in reachable;
        return Some(reachable[i]);
      }
    }
    forall name | name in byFileName && Reachable(byFileName, entry.fileName, name)
      ensures !byFileName[name].requiresElectron
    {
      assert byFileName[name] in reachable;
    }
    return None;
  }
}
