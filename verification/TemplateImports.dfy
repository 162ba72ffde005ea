/** When resolving `$import` keys succeeds: the import chains from the root file decide it. */
module TemplateImports {
  import opened Collections
  import opened Json
  import opened TemplateSpec
  import opened Wrappers

  /** `v` is the value of an `$import` key in `fields`, or in an object reached from there through object
      properties and direct array elements. */
  ghost predicate FieldHasImport(fields: Fields, v: Json)
    decreases fields
  {
    && fields != []
    && var last := fields[|fields| - 1];
       || FieldHasImport(fields[..|fields| - 1], v)
       || (if last.key == IMPORT_KEY then last.value == v else ValueHasImport(last.value, v))
  }

  ghost predicate ValueHasImport(j: Json, v: Json)
    decreases j
  {
    match j
    case Obj(fields) => FieldHasImport(fields, v)
    case Arr(items) => ItemHasImport(items, v)
    case _ => false
  }

  ghost predicate ItemHasImport(items: seq<Json>, v: Json)
    decreases items
  {
    && items != []
    && var last := items[|items| - 1];
       || ItemHasImport(items[..|items| - 1], v)
       || (last.Obj? && FieldHasImport(last.fields, v))
  }

  ghost predicate Resolves(fs: FileSystem, n: Node, visited: seq<string>) {
    Known(fs, n.selector) && ResolveFile(fs, n, visited).Ok?
  }

  ghost predicate ImportResolves(fs: FileSystem, filename: string, visited: seq<string>, v: Json) {
    Target(fs, filename, v).Ok? && Resolves(fs, Target(fs, filename, v).value, visited)
  }

  // ---- One file: it resolves exactly if everything it imports does

  lemma SplitImports(fields: Fields)
    ensures fields == [] ==> forall v :: !FieldHasImport(fields, v)
    ensures fields != [] ==>
              var init, last := fields[..|fields| - 1], fields[|fields| - 1];
              forall v :: FieldHasImport(fields, v) <==>
                          FieldHasImport(init, v)
                          || (if last.key == IMPORT_KEY then last.value == v else ValueHasImport(last.value, v))
  {
  }

  lemma ImportResolvesMeans(fs: FileSystem, filename: string, visited: seq<string>, v: Json)
    ensures ImportResolves(fs, filename, visited, v)
            <==> Target(fs, filename, v).Ok? && Known(fs, Target(fs, filename, v).value.selector)
                 && ResolveFile(fs, Target(fs, filename, v).value, visited).Ok?
  {
  }

  lemma {:induction false} FieldsResolve(fs: FileSystem, fields: Fields, filename: string, visited: seq<string>)
    requires FieldImports(fields) <= AllImports(fs)
    ensures ResolveFields(fs, fields, filename, visited).Ok?
            <==> forall v | FieldHasImport(fields, v) :: ImportResolves(fs, filename, visited, v)
    decreases fields
  {
    hide Known, ResolveFile, Target, AllImports, FieldHasImport, ImportResolves;
    SplitImports(fields);
    if fields != [] {
      var init, last := fields[..|fields| - 1], fields[|fields| - 1];
      FieldsResolve(fs, init, filename, visited);
      if last.key == IMPORT_KEY {
        ImportResolvesMeans(fs, filename, visited, last.value);
        if Target(fs, filename, last.value).Ok? {
          ImportTargetIsKnown(fs, fields, filename, last.value);
        }
      } else {
        ValueResolves(fs, last.value, filename, visited);
      }
    }
  }

  lemma {:induction false} ValueResolves(fs: FileSystem, j: Json, filename: string, visited: seq<string>)
    requires ImportStrings(j) <= AllImports(fs)
    ensures ResolveValue(fs, j, filename, visited).Ok?
            <==> forall v | ValueHasImport(j, v) :: ImportResolves(fs, filename, visited, v)
    decreases j
  {
    match j
    case Obj(fields) => FieldsResolve(fs, fields, filename, visited);
    case Arr(items) => ItemsResolve(fs, items, filename, visited);
    case _ =>
  }

  lemma {:induction false} ItemsResolve(fs: FileSystem, items: seq<Json>, filename: string, visited: seq<string>)
    requires ItemImports(items) <= AllImports(fs)
    ensures ResolveItems(fs, items, filename, visited).Ok?
            <==> forall v | ItemHasImport(items, v) :: ImportResolves(fs, filename, visited, v)
    decreases items
  {
    hide Known, ResolveFile, Target, AllImports;
    if items != [] {
      var init, last := items[..|items| - 1], items[|items| - 1];
      ItemsResolve(fs, init, filename, visited);
      if last.Obj? {
        assert ImportStrings(last) <= ItemImports(items);
        FieldsResolve(fs, last.fields, filename, visited);
      }
    }
  }

  /** An `$import` string inside loaded fields is one of the finitely many in the files. */
  lemma {:induction false} HasImportIsCounted(fields: Fields, v: Json)
    requires FieldHasImport(fields, v) && v.Str?
    ensures v.s in FieldImports(fields)
    decreases fields
  {
    var init, last := fields[..|fields| - 1], fields[|fields| - 1];
    if FieldHasImport(init, v) {
      HasImportIsCounted(init, v);
    } else if last.key != IMPORT_KEY {
      match last.value
      case Obj(f) => HasImportIsCounted(f, v);
      case Arr(items) => ItemImportIsCounted(items, v);
    }
  }

  lemma {:induction false} ItemImportIsCounted(items: seq<Json>, v: Json)
    requires ItemHasImport(items, v) && v.Str?
    ensures v.s in ItemImports(items)
    decreases items
  {
    var init, last := items[..|items| - 1], items[|items| - 1];
    if ItemHasImport(init, v) {
      ItemImportIsCounted(init, v);
    } else {
      HasImportIsCounted(last.fields, v);
      assert ImportStrings(last) <= ItemImports(items);
    }
  }

  lemma ImportTargetIsKnown(fs: FileSystem, fields: Fields, filename: string, v: Json)
    requires FieldImports(fields) <= AllImports(fs)
    requires FieldHasImport(fields, v) && Target(fs, filename, v).Ok?
    ensures Known(fs, Target(fs, filename, v).value.selector)
  {
    HasImportIsCounted(fields, v);
    TargetIsKnown(fs, filename, v);
  }

  // ---- Chains of imports

  ghost predicate Imports(fs: FileSystem, n: Node, m: Node) {
    Load(fs, n).Ok? && exists v :: FieldHasImport(Load(fs, n).value, v) && Target(fs, n.filename, v) == Ok(m)
  }

  /** Each node of the chain imports the next one. */
  ghost predicate IsChain(fs: FileSystem, p: seq<Node>) {
    p != [] && forall i | 0 <= i < |p| - 1 :: Imports(fs, p[i], p[i + 1])
  }

  /** The file is allowed, loads, its selector finds an object, and all its `$import` values are valid. */
  ghost predicate Usable(fs: FileSystem, n: Node) {
    && !OutsideRoots(fs, n.filename)
    && Load(fs, n).Ok?
    && forall v | FieldHasImport(Load(fs, n).value, v) :: Target(fs, n.filename, v).Ok?
  }

  ghost predicate NoneRepeats(p: seq<Node>) {
    forall i, j | 0 <= i < j < |p| :: SpecifierOf(p[i]) != SpecifierOf(p[j])
  }

  ghost predicate Avoids(p: seq<Node>, visited: seq<string>) {
    forall i | 0 <= i < |p| :: SpecifierOf(p[i]) !in visited
  }

  ghost predicate GoodChain(fs: FileSystem, visited: seq<string>, p: seq<Node>) {
    p != [] && Usable(fs, p[|p| - 1]) && NoneRepeats(p) && Avoids(p, visited)
  }

  /** One level of the expansion. */
  lemma FileResolves(fs: FileSystem, n: Node, visited: seq<string>)
    requires Known(fs, n.selector)
    ensures Resolves(fs, n, visited)
            <==> !OutsideRoots(fs, n.filename) && SpecifierOf(n) !in visited && Load(fs, n).Ok?
                 && forall v | FieldHasImport(Load(fs, n).value, v) ::
                      ImportResolves(fs, n.filename, visited + [SpecifierOf(n)], v)
  {
    hide Known, Load, FieldHasImport;
    if Load(fs, n).Ok? {
      LoadImports(fs, n);
      FieldsResolve(fs, Load(fs, n).value, n.filename, visited + [SpecifierOf(n)]);
    }
  }

  /** What a resolved file imports is resolved, with the file's specifier on the stack. */
  lemma ResolvedStep(fs: FileSystem, n: Node, visited: seq<string>)
    requires Resolves(fs, n, visited)
    ensures Usable(fs, n) && SpecifierOf(n) !in visited
    ensures forall m | Imports(fs, n, m) :: Resolves(fs, m, visited + [SpecifierOf(n)])
  {
    FileResolves(fs, n, visited);
    forall m | Imports(fs, n, m) ensures Resolves(fs, m, visited + [SpecifierOf(n)]) {
      var v :| FieldHasImport(Load(fs, n).value, v) && Target(fs, n.filename, v) == Ok(m);
      assert ImportResolves(fs, n.filename, visited + [SpecifierOf(n)], v);
    }
  }

  lemma ImportedResolves(fs: FileSystem, n: Node, visited: seq<string>, v: Json)
    requires Resolves(fs, n, visited) && FieldHasImport(Load(fs, n).value, v)
    ensures Target(fs, n.filename, v).Ok?
    ensures Resolves(fs, Target(fs, n.filename, v).value, visited + [SpecifierOf(n)])
  {
    FileResolves(fs, n, visited);
    assert ImportResolves(fs, n.filename, visited + [SpecifierOf(n)], v);
  }

  lemma ChainTail(fs: FileSystem, p: seq<Node>)
    requires IsChain(fs, p) && |p| > 1
    ensures Imports(fs, p[0], p[1]) && IsChain(fs, p[1..])
  {
  }

  lemma ChainCons(fs: FileSystem, n: Node, q: seq<Node>)
    requires IsChain(fs, q) && Imports(fs, n, q[0])
    ensures IsChain(fs, [n] + q)
  {
  }

  lemma GoodCons(fs: FileSystem, visited: seq<string>, n: Node, q: seq<Node>)
    requires q != []
    ensures GoodChain(fs, visited, [n] + q)
            <==> GoodChain(fs, visited + [SpecifierOf(n)], q) && SpecifierOf(n) !in visited
  {
    hide Usable;
    var p, spec := [n] + q, SpecifierOf(n);
    assert p[0] == n && forall i | 0 < i < |p| :: p[i] == q[i - 1];
    ConsAvoids(visited, n, q);
    ConsRepeats(n, q);
  }

  lemma ConsAvoids(visited: seq<string>, n: Node, q: seq<Node>)
    ensures Avoids([n] + q, visited) <==> Avoids(q, visited) && SpecifierOf(n) !in visited
    ensures Avoids(q, visited + [SpecifierOf(n)]) <==> Avoids(q, visited) && Avoids(q, [SpecifierOf(n)])
  {
    hide SpecifierOf;
    var p := [n] + q;
    assert p[0] == n && forall i | 0 <= i < |q| :: q[i] == p[i + 1];
    assert forall i | 0 < i < |p| :: p[i] == q[i - 1];
  }

  lemma ConsRepeats(n: Node, q: seq<Node>)
    ensures NoneRepeats([n] + q) <==> NoneRepeats(q) && Avoids(q, [SpecifierOf(n)])
  {
    hide SpecifierOf;
    var p := [n] + q;
    assert p[0] == n && forall i | 0 < i < |p| :: p[i] == q[i - 1];
    if NoneRepeats(p) {
      forall i | 0 <= i < |q| ensures SpecifierOf(q[i]) != SpecifierOf(n) {
        assert q[i] == p[i + 1];
      }
      forall i, j | 0 <= i < j < |q| ensures SpecifierOf(q[i]) != SpecifierOf(q[j]) {
        assert q[i] == p[i + 1] && q[j] == p[j + 1];
      }
    }
  }

  lemma {:induction false} ResolvedChainIsGood(fs: FileSystem, n: Node, visited: seq<string>, p: seq<Node>)
    requires Resolves(fs, n, visited) && IsChain(fs, p) && p[0] == n
    ensures GoodChain(fs, visited, p)
    decreases |p|
  {
    hide Usable, Resolves, Imports;
    ResolvedStep(fs, n, visited);
    if |p| > 1 {
      ChainTail(fs, p);
      ResolvedChainIsGood(fs, p[1], visited + [SpecifierOf(n)], p[1..]);
      GoodCons(fs, visited, n, p[1..]);
      assert p == [n] + p[1..];
    }
  }

  lemma {:induction false} GoodChainsResolve(fs: FileSystem, n: Node, visited: seq<string>)
    requires Known(fs, n.selector)
    requires forall p | IsChain(fs, p) && p[0] == n :: GoodChain(fs, visited, p)
    ensures Resolves(fs, n, visited)
    decreases Budget(fs, visited)
  {
    hide Known, Load, FieldHasImport, Target, Resolves, Imports, Budget, AllImports;
    SingletonChain(fs, n);
    assert GoodChain(fs, visited, [n]);
    BudgetShrinks(fs, n, visited);
    FileResolves(fs, n, visited);
    forall v | FieldHasImport(Load(fs, n).value, v)
      ensures ImportResolves(fs, n.filename, visited + [SpecifierOf(n)], v)
    {
      var m := Target(fs, n.filename, v).value;
      ImportedNode(fs, n, v);
      GoodTails(fs, n, m, visited);
      GoodChainsResolve(fs, m, visited + [SpecifierOf(n)]);
    }
  }

  lemma SingletonChain(fs: FileSystem, n: Node)
    ensures IsChain(fs, [n])
    ensures forall visited :: GoodChain(fs, visited, [n]) <==> Usable(fs, n) && SpecifierOf(n) !in visited
  {
  }

  lemma GoodTails(fs: FileSystem, n: Node, m: Node, visited: seq<string>)
    requires Imports(fs, n, m)
    requires forall p | IsChain(fs, p) && p[0] == n :: GoodChain(fs, visited, p)
    ensures forall q | IsChain(fs, q) && q[0] == m :: GoodChain(fs, visited + [SpecifierOf(n)], q)
  {
    hide Imports, GoodChain, SpecifierOf;
    forall q | IsChain(fs, q) && q[0] == m ensures GoodChain(fs, visited + [SpecifierOf(n)], q) {
      ChainCons(fs, n, q);
      assert GoodChain(fs, visited, [n] + q);
      GoodCons(fs, visited, n, q);
    }
  }

  lemma ImportedNode(fs: FileSystem, n: Node, v: Json)
    requires Load(fs, n).Ok? && FieldHasImport(Load(fs, n).value, v) && Target(fs, n.filename, v).Ok?
    ensures Imports(fs, n, Target(fs, n.filename, v).value)
    ensures Known(fs, Target(fs, n.filename, v).value.selector)
  {
    LoadImports(fs, n);
    ImportTargetIsKnown(fs, Load(fs, n).value, n.filename, v);
  }

  /** Resolution succeeds exactly if, on every import chain that starts at the file, the last file is usable
      and no specifier occurs twice. */
  lemma ResolutionSucceedsIff(fs: FileSystem, n: Node)
    requires Known(fs, n.selector)
    ensures ResolveFile(fs, n, []).Ok?
            <==> forall p | IsChain(fs, p) && p[0] == n :: Usable(fs, p[|p| - 1]) && NoneRepeats(p)
  {
    hide Usable, Imports, Known, ResolveFile;
    if ResolveFile(fs, n, []).Ok? {
      forall p | IsChain(fs, p) && p[0] == n ensures GoodChain(fs, [], p) {
        ResolvedChainIsGood(fs, n, [], p);
      }
    }
    if forall p | IsChain(fs, p) && p[0] == n :: Usable(fs, p[|p| - 1]) && NoneRepeats(p) {
      forall p | IsChain(fs, p) && p[0] == n ensures GoodChain(fs, [], p) {
      }
      GoodChainsResolve(fs, n, []);
    }
  }

  // ---- Circular imports

  ghost predicate OkOrCircular<T>(r: Result<T, Error>) {
    r.Ok? || r.error == Circular
  }

  ghost predicate ImportOkOrCircular(fs: FileSystem, filename: string, visited: seq<string>, v: Json) {
    && Target(fs, filename, v).Ok?
    && Known(fs, Target(fs, filename, v).value.selector)
    && OkOrCircular(ResolveFile(fs, Target(fs, filename, v).value, visited))
  }

  lemma {:induction false} FieldsOkOrCircular(fs: FileSystem, fields: Fields, filename: string, visited: seq<string>)
    requires FieldImports(fields) <= AllImports(fs)
    requires forall v | FieldHasImport(fields, v) :: ImportOkOrCircular(fs, filename, visited, v)
    ensures OkOrCircular(ResolveFields(fs, fields, filename, visited))
    decreases fields
  {
    hide Known, ResolveFile, Target, AllImports, ImportOkOrCircular;
    if fields != [] {
      var init, last := fields[..|fields| - 1], fields[|fields| - 1];
      FieldsOkOrCircular(fs, init, filename, visited);
      if last.key == IMPORT_KEY {
        assert FieldHasImport(fields, last.value);
        ImportMeans(fs, filename, visited, last.value);
      } else {
        ValueOkOrCircular(fs, last.value, filename, visited);
      }
    }
  }

  lemma ImportMeans(fs: FileSystem, filename: string, visited: seq<string>, v: Json)
    requires ImportOkOrCircular(fs, filename, visited, v)
    ensures Target(fs, filename, v).Ok? && Known(fs, Target(fs, filename, v).value.selector)
            && OkOrCircular(ResolveFile(fs, Target(fs, filename, v).value, visited))
  {
  }

  lemma {:induction false} ValueOkOrCircular(fs: FileSystem, j: Json, filename: string, visited: seq<string>)
    requires ImportStrings(j) <= AllImports(fs)
    requires forall v | ValueHasImport(j, v) :: ImportOkOrCircular(fs, filename, visited, v)
    ensures OkOrCircular(ResolveValue(fs, j, filename, visited))
    decreases j
  {
    hide ImportOkOrCircular;
    match j
    case Obj(fields) =>
      assert forall v | FieldHasImport(fields, v) :: ValueHasImport(j, v);
      FieldsOkOrCircular(fs, fields, filename, visited);
    case Arr(items) =>
      assert forall v | ItemHasImport(items, v) :: ValueHasImport(j, v);
      ItemsOkOrCircular(fs, items, filename, visited);
    case _ =>
  }

  lemma {:induction false} ItemsOkOrCircular(fs: FileSystem, items: seq<Json>, filename: string, visited: seq<string>)
    requires ItemImports(items) <= AllImports(fs)
    requires forall v | ItemHasImport(items, v) :: ImportOkOrCircular(fs, filename, visited, v)
    ensures OkOrCircular(ResolveItems(fs, items, filename, visited))
    decreases items
  {
    hide Known, ResolveFile, Target, AllImports;
    if items != [] {
      var init, last := items[..|items| - 1], items[|items| - 1];
      ItemsOkOrCircular(fs, init, filename, visited);
      if last.Obj? {
        assert ImportStrings(last) <= ItemImports(items);
        FieldsOkOrCircular(fs, last.fields, filename, visited);
      }
    }
  }

  /** If every file on every import chain is usable, the only error that can arise is the circular one. */
  lemma {:induction false} UsableOkOrCircular(fs: FileSystem, n: Node, visited: seq<string>)
    requires Known(fs, n.selector)
    requires AllUsable(fs, n)
    ensures OkOrCircular(ResolveFile(fs, n, visited))
    decreases Budget(fs, visited)
  {
    hide Known, Load, FieldHasImport, Target, Imports, AllUsable, Budget, AllImports;
    var spec := SpecifierOf(n);
    UsableStep(fs, n);
    if spec !in visited {
      BudgetShrinks(fs, n, visited);
      LoadImports(fs, n);
      forall v | FieldHasImport(Load(fs, n).value, v)
        ensures ImportOkOrCircular(fs, n.filename, visited + [spec], v)
      {
        ImportedNode(fs, n, v);
        UsableOkOrCircular(fs, Target(fs, n.filename, v).value, visited + [spec]);
      }
      FieldsOkOrCircular(fs, Load(fs, n).value, n.filename, visited + [spec]);
    }
  }

  /** Every file on every import chain from `n` is usable. */
  ghost predicate AllUsable(fs: FileSystem, n: Node) {
    forall p | IsChain(fs, p) && p[0] == n :: Usable(fs, p[|p| - 1])
  }

  lemma UsableStep(fs: FileSystem, n: Node)
    requires AllUsable(fs, n)
    ensures Usable(fs, n)
    ensures forall m | Imports(fs, n, m) :: AllUsable(fs, m)
  {
    hide Usable, Imports;
    SingletonChain(fs, n);
    assert Usable(fs, [n][0]);
    forall m, q | Imports(fs, n, m) && IsChain(fs, q) && q[0] == m ensures Usable(fs, q[|q| - 1]) {
      ChainCons(fs, n, q);
      assert ([n] + q)[|q|] == q[|q| - 1];
    }
  }

  /** No file name holds a `#`, so a specifier says which file and which part of it is meant. */
  ghost predicate NoHash(fs: FileSystem) {
    forall f | f in fs.contents :: '#' !in f
  }

  lemma {:induction false} FirstHash(file: string, rest: string)
    requires '#' !in file && (rest == "" || rest[0] == '#')
    ensures IndexOf(file + rest, '#') == |file|
  {
    if file == "" {
      assert file + rest == rest;
    } else {
      assert (file + rest)[1..] == file[1..] + rest;
      assert file[0] in file;
      FirstHash(file[1..], rest);
    }
  }

  /** What follows the file name in a specifier. */
  function AfterName(selector: Option<string>): string {
    if selector.Some? then "#" + selector.value else ""
  }

  lemma AfterNameInjective(a: Option<string>, b: Option<string>)
    requires AfterName(a) == AfterName(b)
    ensures a == b
  {
    assert a.Some? ==> AfterName(a)[1..] == a.value;
    assert b.Some? ==> AfterName(b)[1..] == b.value;
  }

  lemma SplitAt(a: string, ra: string, b: string, rb: string)
    requires a + ra == b + rb && |a| == |b|
    ensures a == b && ra == rb
  {
    assert (a + ra)[..|a|] == a && (b + rb)[..|b|] == b;
    assert (a + ra)[|a|..] == ra && (b + rb)[|b|..] == rb;
  }

  lemma SpecifiersDiffer(fs: FileSystem, a: Node, b: Node)
    requires NoHash(fs) && a.filename in fs.contents && b.filename in fs.contents
    requires SpecifierOf(a) == SpecifierOf(b)
    ensures a == b
  {
    hide IndexOf;
    var ra, rb := AfterName(a.selector), AfterName(b.selector);
    FirstHash(a.filename, ra);
    FirstHash(b.filename, rb);
    assert SpecifierOf(a) == a.filename + ra && SpecifierOf(b) == b.filename + rb;
    SplitAt(a.filename, ra, b.filename, rb);
    AfterNameInjective(a.selector, b.selector);
  }

  /** Some import chain comes to a specifier that it has come to before. */
  ghost predicate RepeatsSpecifier(fs: FileSystem, n: Node) {
    exists p :: IsChain(fs, p) && p[0] == n && !NoneRepeats(p)
  }

  /** An import cycle can be reached: some chain comes back to a node it has visited. */
  ghost predicate ReachesCycle(fs: FileSystem, n: Node) {
    exists p, i, j :: IsChain(fs, p) && p[0] == n && 0 <= i < j < |p| && p[i] == p[j]
  }

  /** If all specifiers, files and selectors that can be reached are valid, resolution succeeds exactly if no import
      chain repeats a specifier, and reports a circular import otherwise. */
  lemma ResolvesIffNoneRepeats(fs: FileSystem, n: Node)
    requires Known(fs, n.selector) && AllUsable(fs, n)
    ensures ResolveFile(fs, n, []).Ok? <==> !RepeatsSpecifier(fs, n)
    ensures RepeatsSpecifier(fs, n) ==> ResolveFile(fs, n, []) == Err(Circular)
  {
    hide Usable, Imports, Known, ResolveFile, NoneRepeats;
    ResolutionSucceedsIff(fs, n);
    UsableOkOrCircular(fs, n, []);
  }

  /** Unless a file name holds a `#`, a repeated specifier is an import cycle. */
  lemma RepeatsIffCycle(fs: FileSystem, n: Node)
    requires NoHash(fs) && AllUsable(fs, n)
    ensures RepeatsSpecifier(fs, n) <==> ReachesCycle(fs, n)
  {
    hide Usable, Imports, NoHash;
    if ReachesCycle(fs, n) {
      var p, i, j :| IsChain(fs, p) && p[0] == n && 0 <= i < j < |p| && p[i] == p[j];
      assert !NoneRepeats(p);
    }
    if RepeatsSpecifier(fs, n) {
      var p :| IsChain(fs, p) && p[0] == n && !NoneRepeats(p);
      var i, j :| 0 <= i < j < |p| && SpecifierOf(p[i]) == SpecifierOf(p[j]);
      ChainIsLoaded(fs, n, p, i);
      ChainIsLoaded(fs, n, p, j);
      SpecifiersDiffer(fs, p[i], p[j]);
    }
  }

  /** So, if no file name holds a `#`, resolution of usable files succeeds exactly if their imports are acyclic. */
  lemma ResolvesIffAcyclic(fs: FileSystem, n: Node)
    requires Known(fs, n.selector) && NoHash(fs) && AllUsable(fs, n)
    ensures ResolveFile(fs, n, []).Ok? <==> !ReachesCycle(fs, n)
    ensures ReachesCycle(fs, n) ==> ResolveFile(fs, n, []) == Err(Circular)
  {
    hide ResolveFile, AllUsable, NoHash, Known, RepeatsSpecifier, ReachesCycle;
    ResolvesIffNoneRepeats(fs, n);
    RepeatsIffCycle(fs, n);
  }

  lemma ChainIsLoaded(fs: FileSystem, n: Node, p: seq<Node>, i: nat)
    requires AllUsable(fs, n)
    requires IsChain(fs, p) && p[0] == n && i < |p|
    ensures p[i].filename in fs.contents
  {
    hide Imports;
    var q := p[..i + 1];
    assert IsChain(fs, q) by {
      forall k | 0 <= k < |q| - 1 ensures Imports(fs, q[k], q[k + 1]) {
        assert Imports(fs, p[k], p[k + 1]);
      }
    }
    assert Usable(fs, q[|q| - 1]);
  }
}
