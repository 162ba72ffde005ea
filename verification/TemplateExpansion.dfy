/** What resolving `$import` keys means: the result is the one solution of the import equations, in which
    every object is its own fields with each `$import` replaced by the fields of the imported object. */
module TemplateExpansion {
  import opened Json
  import opened TemplateImports
  import opened TemplateSpec
  import opened Wrappers

  /** What each import target stands for. */
  type Meaning = map<Node, Fields>

  function MeaningOf(fs: FileSystem, m: Meaning, filename: string, val: Json): Fields {
    var t := Target(fs, filename, val);
    if t.Ok? && t.value in m then m[t.value] else []
  }

  /** The fields with every import replaced by its meaning.  There is no import stack here, and no cycle check. */
  function ExpandFields(fs: FileSystem, m: Meaning, filename: string, fields: Fields): Fields
    decreases fields
  {
    if fields == [] then []
    else
      Assign(ExpandFields(fs, m, filename, fields[..|fields| - 1]),
             Contribution(fs, m, filename, fields[|fields| - 1]))
  }

  /** What one field adds to the object around it. */
  function Contribution(fs: FileSystem, m: Meaning, filename: string, f: Field): Fields
    decreases f
  {
    if f.key == IMPORT_KEY then MeaningOf(fs, m, filename, f.value)
    else [Field(f.key, ExpandValue(fs, m, filename, f.value))]
  }

  function ExpandValue(fs: FileSystem, m: Meaning, filename: string, j: Json): Json
    decreases j
  {
    match j
    case Obj(fields) => Obj(ExpandFields(fs, m, filename, fields))
    case Arr(items) => Arr(ExpandItems(fs, m, filename, items))
    case _ => j
  }

  function ExpandItems(fs: FileSystem, m: Meaning, filename: string, items: seq<Json>): seq<Json>
    decreases items
  {
    if items == [] then []
    else
      var last := items[|items| - 1];
      ExpandItems(fs, m, filename, items[..|items| - 1])
      + [if last.Obj? then Obj(ExpandFields(fs, m, filename, last.fields)) else last]
  }

  ghost predicate ImportHasMeaning(fs: FileSystem, m: Meaning, filename: string, v: Json) {
    Target(fs, filename, v).Ok? && Target(fs, filename, v).value in m
  }

  /** `m` solves the import equation of `n`, and gives a meaning to everything `n` imports. */
  ghost predicate Solves(fs: FileSystem, m: Meaning, n: Node) {
    && n in m && Load(fs, n).Ok?
    && (forall v | FieldHasImport(Load(fs, n).value, v) :: ImportHasMeaning(fs, m, n.filename, v))
    && m[n] == ExpandFields(fs, m, n.filename, Load(fs, n).value)
  }

  ghost predicate IsExpansion(fs: FileSystem, m: Meaning) {
    forall n | n in m :: Solves(fs, m, n)
  }

  // ---- Agreement of the code's expansion with the equations

  /** The import resolves, and to what `m` says it means. */
  ghost predicate ImportAgrees(fs: FileSystem, m: Meaning, filename: string, visited: seq<string>, v: Json) {
    && ImportHasMeaning(fs, m, filename, v)
    && var t := Target(fs, filename, v).value;
       Known(fs, t.selector) && ResolveFile(fs, t, visited) == Ok(m[t])
  }

  lemma AssignOne(fields: Fields, key: string, value: Json)
    ensures Assign(fields, [Field(key, value)]) == Put(fields, key, value)
  {
  }

  lemma {:induction false} FieldsAgree(fs: FileSystem, m: Meaning, fields: Fields, filename: string,
                                       visited: seq<string>)
    requires FieldImports(fields) <= AllImports(fs)
    requires forall v | FieldHasImport(fields, v) :: ImportAgrees(fs, m, filename, visited, v)
    ensures ResolveFields(fs, fields, filename, visited) == Ok(ExpandFields(fs, m, filename, fields))
    decreases fields
  {
    hide Known, ResolveFile, Target, AllImports, ImportAgrees, Assign, Put;
    if fields != [] {
      var init, last := fields[..|fields| - 1], fields[|fields| - 1];
      FieldsAgree(fs, m, init, filename, visited);
      if last.key == IMPORT_KEY {
        assert FieldHasImport(fields, last.value);
        AgreeingImport(fs, m, filename, visited, last.value);
      } else {
        ValueAgrees(fs, m, last.value, filename, visited);
        AssignOne(ExpandFields(fs, m, filename, init), last.key, ExpandValue(fs, m, filename, last.value));
      }
    }
  }

  lemma AgreeingImport(fs: FileSystem, m: Meaning, filename: string, visited: seq<string>, v: Json)
    requires ImportAgrees(fs, m, filename, visited, v)
    ensures Target(fs, filename, v).Ok? && Known(fs, Target(fs, filename, v).value.selector)
    ensures ResolveFile(fs, Target(fs, filename, v).value, visited) == Ok(MeaningOf(fs, m, filename, v))
  {
  }

  lemma {:induction false} ValueAgrees(fs: FileSystem, m: Meaning, j: Json, filename: string, visited: seq<string>)
    requires ImportStrings(j) <= AllImports(fs)
    requires forall v | ValueHasImport(j, v) :: ImportAgrees(fs, m, filename, visited, v)
    ensures ResolveValue(fs, j, filename, visited) == Ok(ExpandValue(fs, m, filename, j))
    decreases j
  {
    hide ImportAgrees;
    match j
    case Obj(fields) =>
      assert forall v | FieldHasImport(fields, v) :: ValueHasImport(j, v);
      FieldsAgree(fs, m, fields, filename, visited);
    case Arr(items) =>
      assert forall v | ItemHasImport(items, v) :: ValueHasImport(j, v);
      ItemsAgree(fs, m, items, filename, visited);
    case _ =>
  }

  lemma {:induction false} ItemsAgree(fs: FileSystem, m: Meaning, items: seq<Json>, filename: string,
                                      visited: seq<string>)
    requires ItemImports(items) <= AllImports(fs)
    requires forall v | ItemHasImport(items, v) :: ImportAgrees(fs, m, filename, visited, v)
    ensures ResolveItems(fs, items, filename, visited) == Ok(ExpandItems(fs, m, filename, items))
    decreases items
  {
    hide AllImports, ImportAgrees;
    if items != [] {
      var init, last := items[..|items| - 1], items[|items| - 1];
      ItemsAgree(fs, m, init, filename, visited);
      if last.Obj? {
        assert ImportStrings(last) <= ItemImports(items);
        FieldsAgree(fs, m, last.fields, filename, visited);
      }
    }
  }

  /** Wherever resolution succeeds, its result is what any solution of the equations says: the import stack
      decides only whether there is a result, never which one. */
  lemma {:induction false} ResolutionIsTheExpansion(fs: FileSystem, m: Meaning, n: Node, visited: seq<string>)
    requires IsExpansion(fs, m) && n in m && Resolves(fs, n, visited)
    ensures ResolveFile(fs, n, visited) == Ok(m[n])
    decreases Budget(fs, visited)
  {
    hide Known, Load, FieldHasImport, Target, Budget, AllImports, ImportHasMeaning;
    var stack := visited + [SpecifierOf(n)];
    FileResolves(fs, n, visited);
    BudgetShrinks(fs, n, visited);
    LoadImports(fs, n);
    forall v | FieldHasImport(Load(fs, n).value, v) ensures ImportAgrees(fs, m, n.filename, stack, v) {
      assert ImportHasMeaning(fs, m, n.filename, v);
      MeaningIsThere(fs, m, n.filename, v);
      ImportedResolves(fs, n, visited, v);
      ResolutionIsTheExpansion(fs, m, Target(fs, n.filename, v).value, stack);
    }
    FieldsAgree(fs, m, Load(fs, n).value, n.filename, stack);
  }

  lemma MeaningIsThere(fs: FileSystem, m: Meaning, filename: string, v: Json)
    requires ImportHasMeaning(fs, m, filename, v)
    ensures Target(fs, filename, v).Ok? && Target(fs, filename, v).value in m
  {
  }

  // ---- The solution exists for everything that resolves

  /** The targets that can occur: each file as a whole, and each file with each selector in use. */
  ghost function Candidates(fs: FileSystem): set<Node> {
    (set f | f in fs.contents :: Node(f, None))
    + (set f, s | f in fs.contents && s in AllImports(fs) && ParseSpecifierSelector(s).Some? ::
         Node(f, ParseSpecifierSelector(s)))
  }

  ghost function ParseSpecifierSelector(s: string): Option<string> {
    var r := ImportSpecifier.ParseSpecifier(s);
    if r.Some? then r.value.selector else None
  }

  ghost predicate ResolvesAlone(fs: FileSystem, n: Node) {
    Resolves(fs, n, [])
  }

  /** The expansion of everything that resolves on its own. */
  ghost function Expansion(fs: FileSystem): Meaning {
    map n | n in Candidates(fs) && ResolvesAlone(fs, n) :: ResolveFile(fs, n, []).value
  }

  lemma ResolvedIsCandidate(fs: FileSystem, n: Node, visited: seq<string>)
    requires Resolves(fs, n, visited)
    ensures n in Candidates(fs)
  {
    if n.selector.Some? {
      var s :| s in AllImports(fs) && ImportSpecifier.ParseSpecifier(s).Some?
               && ImportSpecifier.ParseSpecifier(s).value.selector == n.selector;
      assert ParseSpecifierSelector(s) == n.selector;
    }
    assert n.filename in fs.contents;
  }

  /** A longer import stack can only turn a result into an error. */
  lemma ShorterStackResolves(fs: FileSystem, n: Node, visited: seq<string>)
    requires Resolves(fs, n, visited)
    ensures Resolves(fs, n, [])
  {
    hide Usable, Imports, Known, Resolves;
    forall p | IsChain(fs, p) && p[0] == n ensures GoodChain(fs, [], p) {
      ResolvedChainIsGood(fs, n, visited, p);
    }
    ResolvesIsKnown(fs, n, visited);
    GoodChainsResolve(fs, n, []);
  }

  lemma ResolvesIsKnown(fs: FileSystem, n: Node, visited: seq<string>)
    requires Resolves(fs, n, visited)
    ensures Known(fs, n.selector) && ResolveFile(fs, n, visited).Ok?
  {
  }

  /** Two import stacks that both admit a result admit the same one. */
  lemma {:induction false} StackDoesNotMatter(fs: FileSystem, n: Node, visited: seq<string>, other: seq<string>)
    requires Resolves(fs, n, visited) && Resolves(fs, n, other)
    ensures ResolveFile(fs, n, visited) == ResolveFile(fs, n, other)
    decreases Budget(fs, visited)
  {
    hide Known, Load, FieldHasImport, Target, Budget, AllImports;
    var spec := SpecifierOf(n);
    FileResolves(fs, n, visited);
    FileResolves(fs, n, other);
    BudgetShrinks(fs, n, visited);
    LoadImports(fs, n);
    forall v | FieldHasImport(Load(fs, n).value, v)
      ensures ImportSame(fs, n.filename, visited + [spec], other + [spec], v)
    {
      ImportedResolves(fs, n, visited, v);
      ImportedResolves(fs, n, other, v);
      StackDoesNotMatter(fs, Target(fs, n.filename, v).value, visited + [spec], other + [spec]);
    }
    FieldsSame(fs, Load(fs, n).value, n.filename, visited + [spec], other + [spec]);
  }

  ghost predicate ImportSame(fs: FileSystem, filename: string, visited: seq<string>, other: seq<string>, v: Json) {
    && Target(fs, filename, v).Ok? && Known(fs, Target(fs, filename, v).value.selector)
    && ResolveFile(fs, Target(fs, filename, v).value, visited) == ResolveFile(fs, Target(fs, filename, v).value, other)
  }

  lemma {:induction false} FieldsSame(fs: FileSystem, fields: Fields, filename: string, visited: seq<string>,
                                      other: seq<string>)
    requires FieldImports(fields) <= AllImports(fs)
    requires forall v | FieldHasImport(fields, v) :: ImportSame(fs, filename, visited, other, v)
    ensures ResolveFields(fs, fields, filename, visited) == ResolveFields(fs, fields, filename, other)
    decreases fields
  {
    hide Known, ResolveFile, Target, AllImports, Assign, Put;
    if fields != [] {
      var init, last := fields[..|fields| - 1], fields[|fields| - 1];
      FieldsSame(fs, init, filename, visited, other);
      if last.key == IMPORT_KEY {
        assert FieldHasImport(fields, last.value);
        assert ImportSame(fs, filename, visited, other, last.value);
      } else {
        ValueSame(fs, last.value, filename, visited, other);
      }
    }
  }

  lemma {:induction false} ValueSame(fs: FileSystem, j: Json, filename: string, visited: seq<string>,
                                     other: seq<string>)
    requires ImportStrings(j) <= AllImports(fs)
    requires forall v | ValueHasImport(j, v) :: ImportSame(fs, filename, visited, other, v)
    ensures ResolveValue(fs, j, filename, visited) == ResolveValue(fs, j, filename, other)
    decreases j
  {
    hide ImportSame;
    match j
    case Obj(fields) =>
      assert forall v | FieldHasImport(fields, v) :: ValueHasImport(j, v);
      FieldsSame(fs, fields, filename, visited, other);
    case Arr(items) =>
      assert forall v | ItemHasImport(items, v) :: ValueHasImport(j, v);
      ItemsSame(fs, items, filename, visited, other);
    case _ =>
  }

  lemma {:induction false} ItemsSame(fs: FileSystem, items: seq<Json>, filename: string, visited: seq<string>,
                                     other: seq<string>)
    requires ItemImports(items) <= AllImports(fs)
    requires forall v | ItemHasImport(items, v) :: ImportSame(fs, filename, visited, other, v)
    ensures ResolveItems(fs, items, filename, visited) == ResolveItems(fs, items, filename, other)
    decreases items
  {
    hide AllImports, ImportSame;
    if items != [] {
      var init, last := items[..|items| - 1], items[|items| - 1];
      ItemsSame(fs, init, filename, visited, other);
      if last.Obj? {
        assert ImportStrings(last) <= ItemImports(items);
        FieldsSame(fs, last.fields, filename, visited, other);
      }
    }
  }

  /** Whatever the import stack, a successful resolution is recorded in the expansion. */
  lemma ResolvedInExpansion(fs: FileSystem, n: Node, visited: seq<string>)
    requires Resolves(fs, n, visited)
    ensures n in Expansion(fs) && ResolveFile(fs, n, visited) == Ok(Expansion(fs)[n])
  {
    hide Resolves, ResolveFile, Candidates, Known;
    ResolvedIsCandidate(fs, n, visited);
    ShorterStackResolves(fs, n, visited);
    ResolvesIsKnown(fs, n, visited);
    ResolvesIsKnown(fs, n, []);
    StackDoesNotMatter(fs, n, visited, []);
  }

  /** The results of resolution solve the import equations, so with `ResolutionIsTheExpansion` they are the
      only solution wherever resolution succeeds. */
  lemma ExpansionSolvesTheEquations(fs: FileSystem)
    ensures IsExpansion(fs, Expansion(fs))
    ensures forall n :: n in Expansion(fs) <==> Resolves(fs, n, [])
  {
    hide Resolves, Candidates;
    var m := Expansion(fs);
    forall n | Resolves(fs, n, []) ensures n in m {
      ResolvedInExpansion(fs, n, []);
    }
    forall n | n in m ensures Solves(fs, m, n) {
      ExpansionSolves(fs, n);
    }
  }

  lemma ExpansionSolves(fs: FileSystem, n: Node)
    requires Resolves(fs, n, [])
    ensures Solves(fs, Expansion(fs), n)
  {
    hide Known, Load, FieldHasImport, Target, AllImports, Expansion, ResolveFields, ExpandFields;
    var m, stack := Expansion(fs), [SpecifierOf(n)];
    assert [] + stack == stack;
    FileResolves(fs, n, []);
    LoadImports(fs, n);
    ResolvedInExpansion(fs, n, []);
    forall v | FieldHasImport(Load(fs, n).value, v) ensures ImportAgrees(fs, m, n.filename, stack, v) {
      ImportedResolves(fs, n, [], v);
      ResolvedInExpansion(fs, Target(fs, n.filename, v).value, stack);
    }
    FieldsAgree(fs, m, Load(fs, n).value, n.filename, stack);
  }

  // ---- What the equations say about single keys

  /** Later keys override earlier ones: a key's value comes from the last field that provides the key. */
  lemma {:induction false} LaterKeysOverride(fs: FileSystem, m: Meaning, filename: string, fields: Fields, k: string)
    returns (i: int)
    ensures var r := ExpandFields(fs, m, filename, fields);
            && -1 <= i < |fields|
            && NotProvidedAfter(fs, m, filename, fields, k, i)
            && (if i == -1 then !HasKey(r, k)
                else HasKey(Contribution(fs, m, filename, fields[i]), k)
                     && Lookup(r, k) == Lookup(Contribution(fs, m, filename, fields[i]), k))
  {
    hide Contribution, Lookup, Assign;
    i := -1;
    if fields != [] {
      var n := |fields| - 1;
      var last := Contribution(fs, m, filename, fields[n]);
      LookupAssign(ExpandFields(fs, m, filename, fields[..n]), last, k);
      i := LaterKeysOverride(fs, m, filename, fields[..n], k);
      if HasKey(last, k) {
        i := n;
      }
    }
  }

  ghost predicate NotProvidedAfter(fs: FileSystem, m: Meaning, filename: string, fields: Fields, k: string, i: int) {
    forall j | i < j < |fields| && 0 <= j :: !HasKey(Contribution(fs, m, filename, fields[j]), k)
  }

  // ---- No import is left

  /** No `$import` key in the fields, nor in any object reached through object properties and direct array
      elements; and no key twice. */
  ghost predicate Clean(fields: Fields)
    decreases fields
  {
    Distinct(fields) && forall i | 0 <= i < |fields| :: fields[i].key != IMPORT_KEY && CleanValue(fields[i].value)
  }

  ghost predicate CleanValue(j: Json)
    decreases j
  {
    match j
    case Obj(fields) => Clean(fields)
    case Arr(items) => forall i | 0 <= i < |items| && items[i].Obj? :: Clean(items[i].fields)
    case _ => true
  }

  lemma {:induction false} CleanPut(fields: Fields, key: string, value: Json)
    requires Clean(fields) && key != IMPORT_KEY && CleanValue(value)
    ensures Clean(Put(fields, key, value))
  {
    PutDistinct(fields, key, value);
    if HasKey(fields, key) && fields[|fields| - 1].key != key {
      var n := |fields| - 1;
      CleanPut(fields[..n], key, value);
      var r := Put(fields, key, value);
      assert forall i | 0 <= i < |r| - 1 :: r[i] == Put(fields[..n], key, value)[i];
    }
  }

  lemma {:induction false} CleanAssign(fields: Fields, more: Fields)
    requires Clean(fields) && Clean(more)
    ensures Clean(Assign(fields, more))
  {
    if more != [] {
      var n := |more| - 1;
      CleanAssign(fields, more[..n]);
      CleanPut(Assign(fields, more[..n]), more[n].key, more[n].value);
    }
  }

  /** A resolved file has no imports left. */
  lemma {:induction false} ResolvedFileIsClean(fs: FileSystem, n: Node, visited: seq<string>)
    requires Resolves(fs, n, visited)
    ensures Clean(ResolveFile(fs, n, visited).value)
    decreases Budget(fs, visited), 0
  {
    hide Known, Load, Budget, AllImports, Clean;
    BudgetShrinks(fs, n, visited);
    LoadImports(fs, n);
    ResolvedFieldsAreClean(fs, Load(fs, n).value, n.filename, visited + [SpecifierOf(n)]);
  }

  lemma {:induction false} ResolvedFieldsAreClean(fs: FileSystem, fields: Fields, filename: string,
                                                  visited: seq<string>)
    requires FieldImports(fields) <= AllImports(fs) && ResolveFields(fs, fields, filename, visited).Ok?
    ensures Clean(ResolveFields(fs, fields, filename, visited).value)
    decreases Budget(fs, visited), 1, fields
  {
    hide Known, Target, Budget, AllImports, ResolveFile, Assign, Put;
    if fields != [] {
      var init, last := fields[..|fields| - 1], fields[|fields| - 1];
      ResolvedFieldsAreClean(fs, init, filename, visited);
      var ret := ResolveFields(fs, init, filename, visited).value;
      if last.key == IMPORT_KEY {
        var t := Target(fs, filename, last.value).value;
        ImportTargetIsKnown(fs, fields, filename, last.value);
        ResolvedFileIsClean(fs, t, visited);
        CleanAssign(ret, ResolveFile(fs, t, visited).value);
      } else {
        ResolvedValueIsClean(fs, last.value, filename, visited);
        CleanPut(ret, last.key, ResolveValue(fs, last.value, filename, visited).value);
      }
    }
  }

  lemma {:induction false} ResolvedValueIsClean(fs: FileSystem, j: Json, filename: string, visited: seq<string>)
    requires ImportStrings(j) <= AllImports(fs) && ResolveValue(fs, j, filename, visited).Ok?
    ensures CleanValue(ResolveValue(fs, j, filename, visited).value)
    decreases Budget(fs, visited), 1, j
  {
    match j
    case Obj(fields) => ResolvedFieldsAreClean(fs, fields, filename, visited);
    case Arr(items) => ResolvedItemsAreClean(fs, items, filename, visited);
    case _ =>
  }

  lemma {:induction false} ResolvedItemsAreClean(fs: FileSystem, items: seq<Json>, filename: string,
                                                 visited: seq<string>)
    requires ItemImports(items) <= AllImports(fs) && ResolveItems(fs, items, filename, visited).Ok?
    ensures CleanValue(Arr(ResolveItems(fs, items, filename, visited).value))
    decreases Budget(fs, visited), 1, items
  {
    hide Budget, AllImports, Clean, ResolveFields;
    if items != [] {
      var init, last := items[..|items| - 1], items[|items| - 1];
      ResolvedItemsAreClean(fs, init, filename, visited);
      if last.Obj? {
        assert ImportStrings(last) <= ItemImports(items);
        ResolvedFieldsAreClean(fs, last.fields, filename, visited);
      }
    }
  }
}
