/** The walk of `resolveDirtyTests`: which test files are affected by a set of changed files.

    Every scanned test starts a breadth-first walk over the import graph.  Files are marked as visited
    only when they leave the queue, so the queue may hold duplicates, and a duplicate is expanded again.
    The set of dirty files is shared by all walks and cuts each of them short. */
module DirtyTests {
  import opened Collections

  /** `fileName` is the absolute name, `relative` the name relative to the project root. */
  datatype SourceFile = SourceFile(fileName: string, relative: string)

  /** An import that was resolved to a source file; external ones lie in node_modules. */
  datatype Import = Import(external: bool, target: SourceFile)

  datatype ImportGraph = ImportGraph(imports: map<SourceFile, seq<Import>>) {

    /** Imports stay inside the program, and either name identifies a file. */
    ghost predicate Valid() {
      && (forall f, i | f in imports && 0 <= i < |imports[f]| && !imports[f][i].external ::
            imports[f][i].target in imports)
      && (forall f, g | f in imports && g in imports ::
            f.fileName == g.fileName || f.relative == g.relative ==> f == g)
    }

    ghost predicate Edge(from: SourceFile, to: SourceFile) {
      from in imports && exists i :: 0 <= i < |imports[from]| && imports[from][i] == Import(false, to)
    }

    ghost predicate IsPath(p: seq<SourceFile>) {
      && p != []
      && p[0] in imports
      && forall i | 0 <= i < |p| - 1 :: Edge(p[i], p[i + 1])
    }

    /** `f` is changed itself or has a chain of non-external imports to a changed file. */
    ghost predicate ReachesChanged(f: SourceFile, changed: set<string>) {
      exists p: seq<SourceFile> :: IsPath(p) && p[0] == f && p[|p| - 1].relative in changed
    }

    /** `r` is the name of a file that `root` imports, directly or through others, or of `root` itself. */
    ghost predicate Imported(root: SourceFile, r: string) {
      exists p: seq<SourceFile> :: IsPath(p) && p[0] == root && p[|p| - 1].relative == r
    }

    /** The dirty names are the changed ones plus only names of files that reach a changed file. */
    ghost predicate Sound(dirty: set<string>, changed: set<string>) {
      && (forall f | f in imports && f.relative in dirty :: ReachesChanged(f, changed))
      && (forall r | r in dirty :: r in changed || exists f :: f in imports && f.relative == r)
    }
  }

  /** One queue entry: the file and the names of the files through which it was reached. */
  datatype Todo = Todo(file: SourceFile, importStack: seq<string>)

  /** The walk's import stack spells out a path from `root` to the queued file. */
  ghost predicate StackIsPath(g: ImportGraph, root: SourceFile, t: Todo, p: seq<SourceFile>) {
    && g.IsPath(p)
    && p[0] == root
    && p[|p| - 1] == t.file
    && |t.importStack| == |p| - 1
    && forall i | 0 <= i < |t.importStack| :: t.importStack[i] == p[i].relative
  }

  ghost predicate Queued(todo: seq<Todo>, f: SourceFile) {
    exists i :: 0 <= i < |todo| && todo[i].file == f
  }

  /** Every import of a visited file is visited, queued or dirty. */
  ghost predicate Covered(g: ImportGraph, f: SourceFile, visited: set<string>, todo: seq<Todo>, dirty: set<string>) {
    forall s | g.Edge(f, s) :: s.relative in dirty || s.fileName in visited || Queued(todo, s)
  }

  ghost predicate AllCovered(g: ImportGraph, visited: set<string>, todo: seq<Todo>, dirty: set<string>) {
    forall f | f in g.imports && f.fileName in visited :: Covered(g, f, visited, todo, dirty)
  }

  /** No import of a visited file is dirty. */
  ghost predicate Untouched(g: ImportGraph, visited: set<string>, dirty: set<string>) {
    forall f, s | f in g.imports && f.fileName in visited && g.Edge(f, s) :: s.relative !in dirty
  }

  ghost function Unvisited(g: ImportGraph, visited: set<string>): set<SourceFile> {
    set f | f in g.imports && f.fileName !in visited
  }

  /** The position of the first queue entry whose file is not visited yet, or the length of the queue. */
  ghost function FirstUnvisited(todo: seq<Todo>, visited: set<string>): nat {
    if todo == [] then 0
    else if todo[0].file.fileName !in visited then 0
    else 1 + FirstUnvisited(todo[1..], visited)
  }

  lemma {:induction false} FirstUnvisitedBounds(todo: seq<Todo>, visited: set<string>)
    ensures FirstUnvisited(todo, visited) <= |todo|
    ensures FirstUnvisited(todo, visited) == |todo|
            <==> forall i | 0 <= i < |todo| :: todo[i].file.fileName in visited
  {
    if todo != [] {
      FirstUnvisitedBounds(todo[1..], visited);
      if todo[0].file.fileName in visited {
        assert forall i | 1 <= i < |todo| :: todo[i] == todo[1..][i - 1];
        assert forall i | 0 <= i < |todo| - 1 :: todo[1..][i] == todo[i + 1];
      }
    }
  }

  lemma {:induction false} FirstUnvisitedAppend(todo: seq<Todo>, more: seq<Todo>, visited: set<string>)
    requires FirstUnvisited(todo, visited) < |todo|
    ensures FirstUnvisited(todo + more, visited) == FirstUnvisited(todo, visited)
  {
    if todo[0].file.fileName in visited {
      assert (todo + more)[1..] == todo[1..] + more;
      FirstUnvisitedAppend(todo[1..], more, visited);
    }
  }

  /** Dequeuing a duplicate brings the first unvisited entry forward: if none is queued, expanding the
      duplicate pushes nothing. */
  lemma DuplicateMakesProgress(todo: seq<Todo>, pushed: seq<Todo>, visited: set<string>)
    requires todo != [] && todo[0].file.fileName in visited
    requires FirstUnvisited(todo, visited) == |todo| ==> pushed == []
    ensures FirstUnvisited(todo[1..] + pushed, visited) < FirstUnvisited(todo, visited)
  {
    FirstUnvisitedBounds(todo[1..], visited);
    if FirstUnvisited(todo[1..], visited) < |todo[1..]| {
      FirstUnvisitedAppend(todo[1..], pushed, visited);
    } else {
      assert todo[1..] + pushed == todo[1..];
    }
  }

  lemma UnvisitedShrinks(g: ImportGraph, visited: set<string>, f: SourceFile)
    requires f in g.imports && f.fileName !in visited
    ensures |Unvisited(g, visited + {f.fileName})| < |Unvisited(g, visited)|
  {
    var before, after := Unvisited(g, visited), Unvisited(g, visited + {f.fileName});
    assert f in before - after;
    assert after <= before - {f};
    SubsetCardinality(after, before - {f});
  }

  /** Every file on an import stack in front of a file that reaches a change reaches that change. */
  lemma StackReaches(g: ImportGraph, p: seq<SourceFile>, k: nat, next: SourceFile, changed: set<string>)
    requires g.IsPath(p) && k < |p|
    requires forall i | 0 <= i < |p| :: p[i] in g.imports
    requires g.Edge(p[|p| - 1], next)
    requires g.ReachesChanged(next, changed)
    ensures g.ReachesChanged(p[k], changed)
  {
    var q: seq<SourceFile> :| g.IsPath(q) && q[0] == next && q[|q| - 1].relative in changed;
    var r := p[k..] + q;
    assert g.IsPath(r) by {
      forall i | 0 <= i < |r| - 1 ensures g.Edge(r[i], r[i + 1]) {
        if i < |p[k..]| - 1 {
          assert g.Edge(p[k + i], p[k + i + 1]);
        } else if i >= |p[k..]| {
          assert g.Edge(q[i - |p[k..]|], q[i - |p[k..]| + 1]);
        }
      }
    }
  }

  lemma {:induction false} PathStaysInside(g: ImportGraph, p: seq<SourceFile>)
    requires g.Valid() && g.IsPath(p)
    ensures forall i | 0 <= i < |p| :: p[i] in g.imports
  {
    if |p| > 1 {
      assert g.Edge(p[0], p[1]);
      PathStaysInside(g, p[1..]);
      assert forall i | 1 <= i < |p| :: p[i] == p[1..][i - 1];
    }
  }

  /** A set of visited files that is closed under imports and meets nothing dirty contains every path. */
  lemma {:induction false} ClosedWalkMissesChanges(g: ImportGraph, visited: set<string>, dirty: set<string>,
                                                   p: seq<SourceFile>)
    requires g.Valid() && g.IsPath(p)
    requires AllCovered(g, visited, [], dirty) && Untouched(g, visited, dirty)
    requires p[0].fileName in visited && p[0].relative !in dirty
    ensures p[|p| - 1].relative !in dirty
  {
    if |p| > 1 {
      assert g.Edge(p[0], p[1]);
      assert Covered(g, p[0], visited, [], dirty);
      ClosedWalkMissesChanges(g, visited, dirty, p[1..]);
    }
  }

  /** What every step of the walk keeps. */
  ghost predicate WalkInv(g: ImportGraph, root: SourceFile, visited: set<string>, todo: seq<Todo>,
                          paths: seq<seq<SourceFile>>, dirty: set<string>, dirty0: set<string>, changed: set<string>) {
    && dirty0 <= dirty && g.Sound(dirty, changed)
    && StacksArePaths(g, root, todo, paths)
    && AllCovered(g, visited, todo, dirty)
    && (root.relative in dirty || (dirty == dirty0 && Untouched(g, visited, dirty)))
    && (root.fileName in visited || Queued(todo, root))
  }

  ghost predicate StacksArePaths(g: ImportGraph, root: SourceFile, todo: seq<Todo>, paths: seq<seq<SourceFile>>) {
    && |paths| == |todo|
    && forall i | 0 <= i < |todo| :: StackIsPath(g, root, todo[i], paths[i])
  }

  ghost predicate ImportsDirty(g: ImportGraph, f: SourceFile, dirty: set<string>) {
    exists s :: g.Edge(f, s) && s.relative in dirty
  }

  /** The names on the import stack of `t`, and its own. */
  function StackNames(t: Todo): set<string> {
    set r | r in t.importStack + [t.file.relative]
  }

  /** What expanding the dequeued file `current` achieves: `pushed` is appended to the queue, `dirty` becomes
      `dirtyAfter`. */
  ghost predicate Expanded(g: ImportGraph, root: SourceFile, current: Todo, path: seq<SourceFile>, visited: set<string>,
                           pushed: seq<Todo>, dirty: set<string>, dirtyAfter: set<string>) {
    && dirty <= dirtyAfter
    && (forall i | 0 <= i < |pushed| ::
          && StackIsPath(g, root, pushed[i], path + [pushed[i].file])
          && g.Edge(current.file, pushed[i].file)
          && pushed[i].file.fileName !in visited
          && pushed[i].file.relative !in dirty)
    && Covered(g, current.file, visited, pushed, dirtyAfter)
    && (root.relative in dirtyAfter
        || (dirtyAfter == dirty && forall s | g.Edge(current.file, s) :: s.relative !in dirty))
  }

  /** The loop over the imports of a dequeued file. */
  method Expand(g: ImportGraph, root: SourceFile, current: Todo, visited: set<string>, todo: seq<Todo>,
                dirty: set<string>,
                ghost path: seq<SourceFile>, ghost changed: set<string>)
    returns (todoAfter: seq<Todo>, dirtyAfter: set<string>)
    requires g.Valid() && current.file in g.imports && StackIsPath(g, root, current, path)
    requires g.Sound(dirty, changed)
    ensures g.Sound(dirtyAfter, changed)
    ensures todo <= todoAfter
    ensures Expanded(g, root, current, path, visited, todoAfter[|todo|..], dirty, dirtyAfter)
    ensures dirtyAfter == if ImportsDirty(g, current.file, dirty) then dirty + StackNames(current) else dirty
  {
    hide ImportGraph.Sound, ImportGraph.Valid, ImportGraph.Edge, StackIsPath;
    dirtyAfter := dirty;
    todoAfter := todo;
    var importStack := current.importStack + [current.file.relative];
    var imports := g.imports[current.file];
    ghost var pushed: seq<Todo> := [];
    ghost var marked := false;
    for k := 0 to |imports|
      invariant dirty <= dirtyAfter && g.Sound(dirtyAfter, changed)
      invariant todoAfter == todo + pushed
      invariant forall i | 0 <= i < |pushed| ::
          && StackIsPath(g, root, pushed[i], path + [pushed[i].file])
          && g.Edge(current.file, pushed[i].file)
          && pushed[i].file.fileName !in visited
          && pushed[i].file.relative !in dirty
      invariant forall j | 0 <= j < k && !imports[j].external ::
          imports[j].target.relative in dirtyAfter || imports[j].target.fileName in visited
          || Queued(pushed, imports[j].target)
      invariant dirtyAfter == if marked then dirty + StackNames(current) else dirty
      invariant marked ==> root.relative in dirtyAfter && ImportsDirty(g, current.file, dirty)
      invariant !marked ==> forall j | 0 <= j < k && !imports[j].external :: imports[j].target.relative !in dirty
    {
      if !imports[k].external {
        var next := imports[k].target;
        IsEdge(g, current.file, k);
        if next.relative in dirtyAfter {
          StackBecomesDirty(g, root, current, path, next, dirtyAfter, changed);
          dirtyAfter := MarkStack(importStack, dirtyAfter);
          marked := true;
        } else if next.fileName !in visited {
          PushKeepsPath(g, root, current, path, next);
          QueuedGrows(pushed, Todo(next, importStack));
          todoAfter := todoAfter + [Todo(next, importStack)];
          pushed := pushed + [Todo(next, importStack)];
        }
      }
    }
    EdgesAreImports(g, current.file);
    assert todoAfter[|todo|..] == pushed;
  }

  /** The loop that marks a whole import stack. */
  method MarkStack(importStack: seq<string>, dirty: set<string>) returns (dirtyAfter: set<string>)
    ensures dirtyAfter == dirty + set r | r in importStack
  {
    dirtyAfter := dirty;
    for j := 0 to |importStack|
      invariant dirtyAfter == dirty + set r | r in importStack[..j]
    {
      dirtyAfter := dirtyAfter + {importStack[j]};
    }
    assert importStack[..|importStack|] == importStack;
  }

  lemma IsEdge(g: ImportGraph, f: SourceFile, k: nat)
    requires f in g.imports && k < |g.imports[f]| && !g.imports[f][k].external
    ensures g.Edge(f, g.imports[f][k].target)
  {
  }

  lemma EdgesAreImports(g: ImportGraph, f: SourceFile)
    requires f in g.imports
    ensures forall s | g.Edge(f, s) ::
              exists k :: 0 <= k < |g.imports[f]| && !g.imports[f][k].external && g.imports[f][k].target == s
  {
  }

  lemma WalkStarts(g: ImportGraph, root: SourceFile, dirty0: set<string>, changed: set<string>)
    requires root in g.imports && g.Sound(dirty0, changed)
    ensures WalkInv(g, root, {}, [Todo(root, [])], [[root]], dirty0, dirty0, changed)
  {
    assert [Todo(root, [])][0].file == root;
  }

  /** Dequeuing one entry and expanding it keeps the invariant and makes progress. */
  lemma WalkStep(g: ImportGraph, root: SourceFile, visited: set<string>, todo: seq<Todo>, paths: seq<seq<SourceFile>>,
                 dirty: set<string>, dirty0: set<string>, changed: set<string>, pushed: seq<Todo>,
                 dirtyAfter: set<string>)
    returns (pathsAfter: seq<seq<SourceFile>>)
    requires g.Valid() && todo != [] && todo[0].file in g.imports
    requires WalkInv(g, root, visited, todo, paths, dirty, dirty0, changed)
    requires g.Sound(dirtyAfter, changed)
    requires Expanded(g, root, todo[0], paths[0], visited + {todo[0].file.fileName}, pushed, dirty, dirtyAfter)
    ensures var v, t := visited + {todo[0].file.fileName}, todo[1..] + pushed;
            && WalkInv(g, root, v, t, pathsAfter, dirtyAfter, dirty0, changed)
            && |Unvisited(g, v)| <= |Unvisited(g, visited)|
            && (|Unvisited(g, v)| == |Unvisited(g, visited)| ==> FirstUnvisited(t, v) < FirstUnvisited(todo, visited))
  {
    hide ImportGraph.Sound;
    var current := todo[0].file;
    var v, t := visited + {current.fileName}, todo[1..] + pushed;
    pathsAfter := paths[1..] + seq(|pushed|, i requires 0 <= i < |pushed| => paths[0] + [pushed[i].file]);
    StepKeepsPaths(g, root, todo, paths, pushed);
    StepKeepsCover(g, root, visited, todo, paths[0], dirty, pushed, dirtyAfter);
    StepKeepsRoot(g, root, visited, todo, paths, dirty, dirty0, changed, pushed, dirtyAfter);
    if current.fileName in visited {
      assert v == visited;
      FirstUnvisitedBounds(todo, visited);
      DuplicatePushesNothing(g, root, visited, todo, paths[0], dirty, pushed, dirtyAfter);
      DuplicateMakesProgress(todo, pushed, visited);
    } else {
      UnvisitedShrinks(g, visited, current);
    }
  }

  lemma StepKeepsPaths(g: ImportGraph, root: SourceFile, todo: seq<Todo>, paths: seq<seq<SourceFile>>,
                       pushed: seq<Todo>)
    requires todo != [] && StacksArePaths(g, root, todo, paths)
    requires forall i | 0 <= i < |pushed| :: StackIsPath(g, root, pushed[i], paths[0] + [pushed[i].file])
    ensures StacksArePaths(g, root, todo[1..] + pushed,
              paths[1..] + seq(|pushed|, i requires 0 <= i < |pushed| => paths[0] + [pushed[i].file]))
  {
  }

  lemma StepKeepsCover(g: ImportGraph, root: SourceFile, visited: set<string>, todo: seq<Todo>, path: seq<SourceFile>,
                       dirty: set<string>, pushed: seq<Todo>, dirtyAfter: set<string>)
    requires g.Valid() && todo != [] && todo[0].file in g.imports
    requires AllCovered(g, visited, todo, dirty)
    requires Expanded(g, root, todo[0], path, visited + {todo[0].file.fileName}, pushed, dirty, dirtyAfter)
    ensures AllCovered(g, visited + {todo[0].file.fileName}, todo[1..] + pushed, dirtyAfter)
  {
    hide ImportGraph.Edge, StackIsPath, Queued;
    var current := todo[0].file;
    var v, t := visited + {current.fileName}, todo[1..] + pushed;
    QueuedParts(todo, pushed);
    forall f, s | f in g.imports && f.fileName in v && g.Edge(f, s)
      ensures s.relative in dirtyAfter || s.fileName in v || Queued(t, s)
    {
      if f.fileName == current.fileName {
        assert f == current;
        assert Covered(g, current, v, pushed, dirtyAfter);
      } else {
        assert Covered(g, f, visited, todo, dirty);
      }
    }
  }

  lemma StepKeepsRoot(g: ImportGraph, root: SourceFile, visited: set<string>, todo: seq<Todo>,
                      paths: seq<seq<SourceFile>>, dirty: set<string>, dirty0: set<string>, changed: set<string>,
                      pushed: seq<Todo>, dirtyAfter: set<string>)
    requires g.Valid() && todo != [] && todo[0].file in g.imports
    requires WalkInv(g, root, visited, todo, paths, dirty, dirty0, changed)
    requires Expanded(g, root, todo[0], paths[0], visited + {todo[0].file.fileName}, pushed, dirty, dirtyAfter)
    ensures var v, t := visited + {todo[0].file.fileName}, todo[1..] + pushed;
            && (root.fileName in v || Queued(t, root))
            && (root.relative in dirtyAfter || (dirtyAfter == dirty0 && Untouched(g, v, dirtyAfter)))
  {
    hide ImportGraph.Sound, ImportGraph.Edge, StackIsPath, AllCovered, Queued;
    QueuedParts(todo, pushed);
  }

  /** What was queued is still queued after a step, or was just visited; what is pushed is queued. */
  lemma QueuedParts(todo: seq<Todo>, pushed: seq<Todo>)
    requires todo != []
    ensures forall s | Queued(todo, s) :: s == todo[0].file || Queued(todo[1..] + pushed, s)
    ensures forall s | Queued(pushed, s) :: Queued(todo[1..] + pushed, s)
  {
    var t := todo[1..] + pushed;
    forall s | Queued(todo, s) && s != todo[0].file ensures Queued(t, s) {
      var i :| 0 <= i < |todo| && todo[i].file == s;
      assert t[i - 1].file == s;
    }
    forall s | Queued(pushed, s) ensures Queued(t, s) {
      var i :| 0 <= i < |pushed| && pushed[i].file == s;
      assert t[|todo| - 1 + i].file == s;
    }
  }

  /** If every queued file is visited, expanding a duplicate finds nothing new to push. */
  lemma DuplicatePushesNothing(g: ImportGraph, root: SourceFile, visited: set<string>, todo: seq<Todo>,
                               path: seq<SourceFile>, dirty: set<string>, pushed: seq<Todo>, dirtyAfter: set<string>)
    requires todo != [] && todo[0].file in g.imports && todo[0].file.fileName in visited
    requires AllCovered(g, visited, todo, dirty)
    requires Expanded(g, root, todo[0], path, visited, pushed, dirty, dirtyAfter)
    ensures FirstUnvisited(todo, visited) == |todo| ==> pushed == []
  {
    hide ImportGraph.Edge, StackIsPath;
    FirstUnvisitedBounds(todo, visited);
    if pushed != [] {
      assert Covered(g, todo[0].file, visited, todo, dirty);
      assert g.Edge(todo[0].file, pushed[0].file);
    }
  }

  /** All names on an import stack belong to the walk that it comes from. */
  lemma StackIsImported(g: ImportGraph, root: SourceFile, t: Todo, p: seq<SourceFile>)
    requires StackIsPath(g, root, t, p)
    ensures forall r | r in StackNames(t) :: g.Imported(root, r)
  {
    var stack := t.importStack + [t.file.relative];
    forall r | r in StackNames(t) ensures g.Imported(root, r) {
      var k :| 0 <= k < |stack| && stack[k] == r;
      var q := p[..k + 1];
      assert g.IsPath(q) && q[0] == root && q[|q| - 1].relative == r;
    }
  }

  lemma StackEndsInside(g: ImportGraph, root: SourceFile, t: Todo, p: seq<SourceFile>)
    requires g.Valid() && StackIsPath(g, root, t, p)
    ensures t.file in g.imports
  {
    PathStaysInside(g, p);
  }

  /** The walk that starts at one test file. */
  method Walk(g: ImportGraph, root: SourceFile, dirty0: set<string>, ghost changed: set<string>)
    returns (dirty: set<string>)
    requires g.Valid() && root in g.imports
    requires changed <= dirty0 && g.Sound(dirty0, changed)
    ensures dirty0 <= dirty && g.Sound(dirty, changed)
    ensures root.relative in dirty <==> g.ReachesChanged(root, changed)
    ensures forall r | r in dirty && r !in dirty0 :: g.Imported(root, r)
  {
    hide ImportGraph.Sound, ImportGraph.Valid, ImportGraph.ReachesChanged, ImportGraph.Imported;
    hide StackIsPath, Expanded, AllCovered, Untouched, StackNames, ImportsDirty;
    dirty := dirty0;
    var visited: set<string> := {};
    var todo := [Todo(root, [])];
    ghost var paths := [[root]];
    WalkStarts(g, root, dirty0, changed);
    while todo != []
      invariant WalkInv(g, root, visited, todo, paths, dirty, dirty0, changed)
      invariant forall r | r in dirty && r !in dirty0 :: g.Imported(root, r)
      decreases |Unvisited(g, visited)|, FirstUnvisited(todo, visited)
    {
      var current := todo[0];
      StackEndsInside(g, root, current, paths[0]);
      StackIsImported(g, root, current, paths[0]);
      var todoAfter, dirtyAfter :=
        Expand(g, root, current, visited + {current.file.fileName}, todo[1..], dirty, paths[0], changed);
      var pushed := todoAfter[|todo| - 1..];
      assert todoAfter == todo[1..] + pushed;
      paths := WalkStep(g, root, visited, todo, paths, dirty, dirty0, changed, pushed, dirtyAfter);
      visited, todo, dirty := visited + {current.file.fileName}, todoAfter, dirtyAfter;
    }
    WalkIsComplete(g, root, visited, paths, dirty, dirty0, changed);
  }

  /** When the queue is empty, the root is dirty exactly if it reaches a changed file. */
  lemma WalkIsComplete(g: ImportGraph, root: SourceFile, visited: set<string>, paths: seq<seq<SourceFile>>,
                       dirty: set<string>, dirty0: set<string>, changed: set<string>)
    requires g.Valid() && root in g.imports && changed <= dirty0
    requires WalkInv(g, root, visited, [], paths, dirty, dirty0, changed)
    ensures root.relative in dirty <==> g.ReachesChanged(root, changed)
  {
    if g.ReachesChanged(root, changed) && root.relative !in dirty {
      var p: seq<SourceFile> :| g.IsPath(p) && p[0] == root && p[|p| - 1].relative in changed;
      ClosedWalkMissesChanges(g, visited, dirty, p);
    }
  }

  lemma QueuedGrows(todo: seq<Todo>, t: Todo)
    ensures Queued(todo + [t], t.file)
    ensures forall s | Queued(todo, s) :: Queued(todo + [t], s)
  {
    assert (todo + [t])[|todo|].file == t.file;
    forall s | Queued(todo, s) ensures Queued(todo + [t], s) {
      var i :| 0 <= i < |todo| && todo[i].file == s;
      assert (todo + [t])[i].file == s;
    }
  }

  lemma PushKeepsPath(g: ImportGraph, root: SourceFile, current: Todo, path: seq<SourceFile>, next: SourceFile)
    requires StackIsPath(g, root, current, path) && g.Edge(current.file, next)
    ensures StackIsPath(g, root, Todo(next, current.importStack + [current.file.relative]), path + [next])
  {
  }

  /** Marking an import stack stays sound, and always marks the root of the walk. */
  lemma StackBecomesDirty(g: ImportGraph, root: SourceFile, current: Todo, path: seq<SourceFile>, next: SourceFile,
                          dirty: set<string>, changed: set<string>)
    requires g.Valid() && StackIsPath(g, root, current, path) && g.Edge(current.file, next)
    requires g.Sound(dirty, changed) && next.relative in dirty
    ensures var stack := current.importStack + [current.file.relative];
            var after := dirty + (set r | r in stack);
            g.Sound(after, changed) && root.relative in after
  {
    var stack := current.importStack + [current.file.relative];
    var after := dirty + (set r | r in stack);
    PathStaysInside(g, path);
    assert forall i | 0 <= i < |path| :: stack[i] == path[i].relative;
    assert stack[0] == root.relative;
    forall f | f in g.imports && f.relative in after ensures g.ReachesChanged(f, changed) {
      if f.relative !in dirty {
        var k :| 0 <= k < |stack| && stack[k] == f.relative;
        assert path[k] == f;
        StackReaches(g, path, k, next, changed);
      }
    }
    forall r | r in after ensures r in changed || exists f :: f in g.imports && f.relative == r {
      if r !in dirty {
        var k :| 0 <= k < |stack| && stack[k] == r;
        assert path[k] in g.imports && path[k].relative == r;
      }
    }
  }

  predicate EndsWith(s: string, suffix: string) {
    |suffix| <= |s| && s[|s| - |suffix|..] == suffix
  }

  /** Only test files inside the packages directory start a walk. */
  predicate IsScanned(f: SourceFile) {
    "packages/" <= f.relative && EndsWith(f.relative, ".test.ts")
  }

  /** The i-th file is a test inside the packages directory that imports `r`. */
  ghost predicate IsImportedByTest(g: ImportGraph, sourceFiles: seq<SourceFile>, i: int, r: string) {
    && 0 <= i < |sourceFiles|
    && var s := sourceFiles[i].relative;
       |s| >= 9 && s[..9] == "packages/" && s[|s| - 8..] == ".test.ts" && g.Imported(sourceFiles[i], r)
  }

  /** A file is marked only if it is changed, or some scanned test imports it. */
  ghost predicate HasCause(g: ImportGraph, sourceFiles: seq<SourceFile>, changedFiles: seq<string>, r: string) {
    r in changedFiles || exists i :: IsImportedByTest(g, sourceFiles, i, r)
  }

  /** Walks from every scanned test in the given order.  Whatever the graph and the order, a scanned test
      is reported exactly if it is changed or reaches a changed file, and nothing is reported without cause. */
  method ResolveDirtyTests(g: ImportGraph, sourceFiles: seq<SourceFile>, changedFiles: seq<string>)
    returns (dirtyTests: set<string>, dirty: set<string>)
    requires g.Valid()
    requires forall i | 0 <= i < |sourceFiles| :: sourceFiles[i] in g.imports
    ensures var changed := set c | c in changedFiles;
            && changed <= dirty
            && g.Sound(dirty, changed)
            && (forall r :: r in dirtyTests <==> r in dirty && |r| >= 8 && r[|r| - 8..] == ".test.ts")
            && (forall i | 0 <= i < |sourceFiles| ::
                  var r := sourceFiles[i].relative;
                  |r| >= 9 && r[..9] == "packages/" && r[|r| - 8..] == ".test.ts" ==>
                    (r in dirtyTests <==> g.ReachesChanged(sourceFiles[i], changed)))
    ensures forall r | r in dirty :: HasCause(g, sourceFiles, changedFiles, r)
  {
    hide ImportGraph.Sound, ImportGraph.ReachesChanged, ImportGraph.Valid, HasCause, IsScanned;
    ghost var changed := set c | c in changedFiles;
    dirty := set c | c in changedFiles;
    ChangedIsSound(g, changed);
    ChangedIsCause(g, sourceFiles, changedFiles);
    for n := 0 to |sourceFiles|
      invariant changed <= dirty && g.Sound(dirty, changed)
      invariant forall i | 0 <= i < n && IsScanned(sourceFiles[i]) ::
          g.ReachesChanged(sourceFiles[i], changed) ==> sourceFiles[i].relative in dirty
      invariant forall r | r in dirty :: HasCause(g, sourceFiles, changedFiles, r)
    {
      if IsScanned(sourceFiles[n]) {
        ghost var before := dirty;
        dirty := Walk(g, sourceFiles[n], dirty, changed);
        TestIsCause(g, sourceFiles, changedFiles, n, before, dirty);
      }
    }
    dirtyTests := set r | r in dirty && EndsWith(r, ".test.ts");
    DirtyReachesChanged(g, dirty, changed);
    ScannedIff(sourceFiles);
  }

  lemma ScannedIff(sourceFiles: seq<SourceFile>)
    ensures forall i | 0 <= i < |sourceFiles| ::
              var r := sourceFiles[i].relative;
              IsScanned(sourceFiles[i]) <==>
              |r| >= 9 && r[..9] == "packages/" && r[|r| - 8..] == ".test.ts"
  {
  }

  lemma ChangedIsCause(g: ImportGraph, sourceFiles: seq<SourceFile>, changedFiles: seq<string>)
    ensures forall r | r in changedFiles :: HasCause(g, sourceFiles, changedFiles, r)
  {
  }

  lemma TestIsCause(g: ImportGraph, sourceFiles: seq<SourceFile>, changedFiles: seq<string>, n: nat,
                    before: set<string>, dirty: set<string>)
    requires n < |sourceFiles| && IsScanned(sourceFiles[n])
    requires forall r | r in before :: HasCause(g, sourceFiles, changedFiles, r)
    requires forall r | r in dirty && r !in before :: g.Imported(sourceFiles[n], r)
    ensures forall r | r in dirty :: HasCause(g, sourceFiles, changedFiles, r)
  {
    hide ImportGraph.Imported;
    forall r | r in dirty && r !in before ensures HasCause(g, sourceFiles, changedFiles, r) {
      assert IsImportedByTest(g, sourceFiles, n, r);
    }
  }

  lemma DirtyReachesChanged(g: ImportGraph, dirty: set<string>, changed: set<string>)
    requires g.Sound(dirty, changed)
    ensures forall f | f in g.imports && f.relative in dirty :: g.ReachesChanged(f, changed)
  {
  }

  lemma ChangedIsSound(g: ImportGraph, changed: set<string>)
    ensures g.Sound(changed, changed)
  {
    forall f | f in g.imports && f.relative in changed ensures g.ReachesChanged(f, changed) {
      assert g.IsPath([f]);
    }
  }
}
