/** The reader itself: a cache of parsed files that is shared by one read, and a cache of template files that
    survives between reads.  Neither cache can be noticed in the results. */
module TemplateReader {
  import opened ImportSpecifier
  import opened Json
  import opened TemplateImports
  import opened TemplateSpec
  import opened Wrappers

  type Cache = map<string, Json>

  /** The file system as seen through a cache: cached files hide what is on disk. */
  ghost function Effective(fs: FileSystem, entries: Cache): FileSystem {
    fs.(contents := fs.contents + (map f | f in entries :: Parsed(entries[f])))
  }

  /** Every entry is what its file parses to. */
  ghost predicate Consistent(fs: FileSystem, entries: Cache) {
    forall f | f in entries :: f in fs.contents && fs.contents[f] == Parsed(entries[f])
  }

  lemma ConsistentCacheIsInvisible(fs: FileSystem, entries: Cache)
    requires Consistent(fs, entries)
    ensures Effective(fs, entries) == fs
  {
  }

  /** `after` extends `before` with nothing but parsed files. */
  ghost predicate Extends(fs: FileSystem, before: Cache, after: Cache) {
    && (forall f | f in before :: f in after && after[f] == before[f])
    && (forall f | f in after && f !in before :: f in fs.contents && fs.contents[f] == Parsed(after[f]))
  }

  lemma ExtendedCacheSeesTheSame(fs: FileSystem, before: Cache, after: Cache)
    requires Extends(fs, before, after)
    ensures Effective(fs, after) == Effective(fs, before)
  {
  }

  lemma {:induction false} FirstExistingSame(fs: FileSystem, eff: FileSystem, dirs: seq<string>, name: string)
    requires eff == fs.(contents := eff.contents)
    ensures FirstExisting(eff, dirs, name) == FirstExisting(fs, dirs, name)
  {
    if dirs != [] {
      FirstExistingSame(fs, eff, dirs[1..], name);
    }
  }

  lemma TargetSame(fs: FileSystem, entries: Cache, filename: string, val: Json)
    ensures Target(Effective(fs, entries), filename, val) == Target(fs, filename, val)
  {
    hide ParseSpecifier, Effective, FirstExisting;
    EffectiveFunctions(fs, entries);
    if val.Str? && ParseSpecifier(val.s).Some? && fs.rootDirs.Some? {
      var imported := ParseSpecifier(val.s).value.filename;
      if imported.Some? && "~/" <= imported.value {
        FirstExistingSame(fs, Effective(fs, entries), fs.rootDirs.value, imported.value[2..]);
      }
    }
  }

  // ---- The parts without state

  method Select(json: Json, selector: string) returns (r: Result<Json, Error>)
    ensures r == SelectSpec(json, selector)
  {
    var ret := Some(json);
    var parts := SelectorParts(selector);
    for i := 0 to |parts|
      invariant SelectParts(ret, parts[i..]) == SelectParts(Some(json), parts)
    {
      var part := parts[i];
      assert parts[i..][1..] == parts[i + 1..];
      if ret.Some? && ret.value.Arr? {
        var item := FindParam(ret.value.items, part);
        if item.Some? {
          ret := Some(Obj(Without(item.value, "#")));
          continue;
        }
      }
      var next := Property(ret, part);
      if next.Err? {
        return Err(next.error);
      }
      ret := next.value;
    }
    return if ret.Some? && ret.value.Obj? then Ok(ret.value) else Err(Invalid);
  }

  /** The file name and the selector that an `$import` value stands for. */
  method ResolvePath(fs: FileSystem, filename: string, val: Json) returns (r: Result<(string, Option<string>), Error>)
    ensures Target(fs, filename, val) == if r.Ok? then Ok(Node(fs.normalize(r.value.0), r.value.1)) else Err(r.error)
  {
    if !val.Str? || ParseSpecifier(val.s).None? {
      return Err(Invalid);
    }
    var spec := ParseSpecifier(val.s).value;
    var newFilename := filename;
    if spec.filename.Some? {
      if "~/" <= spec.filename.value {
        if fs.rootDirs.None? {
          return Err(Invalid);
        }
        var dirs, name := fs.rootDirs.value, spec.filename.value[2..];
        var found: Option<string> := None;
        var i := 0;
        while i < |dirs| && found.None?
          invariant 0 <= i <= |dirs|
          invariant FirstExisting(fs, dirs, name)
                    == if found.Some? then found else FirstExisting(fs, dirs[i..], name)
        {
          if fs.pathExists(fs.join(dirs[i], name)) {
            found := Some(fs.join(dirs[i], name));
          }
          assert dirs[i..][1..] == dirs[i + 1..];
          i := i + 1;
        }
        if found.None? {
          return Err(Invalid);
        }
        newFilename := found.value;
      } else {
        newFilename := fs.sibling(filename, spec.filename.value);
      }
    }
    return Ok((newFilename, spec.selector));
  }

  // ---- Which files a read parses

  /** `f` is on an import chain from `n`. */
  ghost predicate Reaches(fs: FileSystem, n: Node, f: string) {
    exists p: seq<Node> :: IsChain(fs, p) && p[0] == n && p[|p| - 1].filename == f
  }

  ghost function FilesOf(fs: FileSystem, n: Node): iset<string> {
    iset f | Reaches(fs, n, f)
  }

  ghost function FilesOfImport(fs: FileSystem, filename: string, v: Json): iset<string> {
    if Target(fs, filename, v).Ok? then FilesOf(fs, Target(fs, filename, v).value) else iset{}
  }

  ghost predicate FieldsReach(fs: FileSystem, filename: string, fields: Fields, f: string) {
    exists v :: FieldHasImport(fields, v) && f in FilesOfImport(fs, filename, v)
  }

  ghost function FilesOfFields(fs: FileSystem, filename: string, fields: Fields): iset<string> {
    iset f | FieldsReach(fs, filename, fields, f)
  }

  ghost predicate ValueReach(fs: FileSystem, filename: string, j: Json, f: string) {
    exists v :: ValueHasImport(j, v) && f in FilesOfImport(fs, filename, v)
  }

  ghost function FilesOfValue(fs: FileSystem, filename: string, j: Json): iset<string> {
    iset f | ValueReach(fs, filename, j, f)
  }

  ghost predicate ItemsReach(fs: FileSystem, filename: string, items: seq<Json>, f: string) {
    exists v :: ItemHasImport(items, v) && f in FilesOfImport(fs, filename, v)
  }

  ghost function FilesOfItems(fs: FileSystem, filename: string, items: seq<Json>): iset<string> {
    iset f | ItemsReach(fs, filename, items, f)
  }

  /** The cache has grown by exactly these files. */
  ghost predicate Adds(before: Cache, after: Cache, files: iset<string>) {
    forall f :: f in after <==> f in before || f in files
  }

  lemma AddsTwice(a: Cache, b: Cache, c: Cache, x: iset<string>, y: iset<string>)
    requires Adds(a, b, x) && Adds(b, c, y)
    ensures Adds(a, c, x + y)
  {
  }

  /** The chains from a file: the file itself, and the chains from what it imports. */
  lemma FilesOfFile(fs: FileSystem, n: Node)
    requires Load(fs, n).Ok?
    ensures FilesOf(fs, n) == iset{n.filename} + FilesOfFields(fs, n.filename, Load(fs, n).value)
  {
    hide Load, Target, FieldHasImport;
    var fields := Load(fs, n).value;
    assert IsChain(fs, [n]) && [n][0] == n;
    forall f | f in FilesOf(fs, n) ensures f == n.filename || f in FilesOfFields(fs, n.filename, fields) {
      var p: seq<Node> :| IsChain(fs, p) && p[0] == n && p[|p| - 1].filename == f;
      if |p| > 1 {
        ChainTail(fs, p);
        var v :| FieldHasImport(fields, v) && Target(fs, n.filename, v) == Ok(p[1]);
        assert p[1..][0] == p[1];
        assert f in FilesOfImport(fs, n.filename, v);
      }
    }
    forall f | f in FilesOfFields(fs, n.filename, fields) ensures f in FilesOf(fs, n) {
      var v :| FieldHasImport(fields, v) && f in FilesOfImport(fs, n.filename, v);
      var q: seq<Node> :| IsChain(fs, q) && q[0] == Target(fs, n.filename, v).value && q[|q| - 1].filename == f;
      ChainCons(fs, n, q);
      assert ([n] + q)[0] == n && ([n] + q)[|q|] == q[|q| - 1];
    }
  }

  lemma FilesOfNextField(fs: FileSystem, filename: string, fields: Fields, i: nat)
    requires i < |fields|
    ensures FilesOfFields(fs, filename, fields[..0]) == iset{}
    ensures FilesOfFields(fs, filename, fields[..i + 1])
            == FilesOfFields(fs, filename, fields[..i])
               + if fields[i].key == IMPORT_KEY then FilesOfImport(fs, filename, fields[i].value)
                 else FilesOfValue(fs, filename, fields[i].value)
  {
    hide FilesOfImport;
    assert fields[..i + 1][..i] == fields[..i];
  }

  lemma FilesOfNextItem(fs: FileSystem, filename: string, items: seq<Json>, i: nat)
    requires i < |items|
    ensures FilesOfItems(fs, filename, items[..0]) == iset{}
    ensures FilesOfItems(fs, filename, items[..i + 1])
            == if items[i].Obj?
               then FilesOfItems(fs, filename, items[..i]) + FilesOfFields(fs, filename, items[i].fields)
               else FilesOfItems(fs, filename, items[..i])
  {
    hide FilesOfImport;
    assert items[..i + 1][..i] == items[..i];
  }

  lemma NoFiles(fs: FileSystem, filename: string)
    ensures FilesOfFields(fs, filename, []) == iset{} && FilesOfItems(fs, filename, []) == iset{}
  {
  }

  lemma FilesOfOneValue(fs: FileSystem, filename: string, j: Json)
    ensures FilesOfValue(fs, filename, j)
            == match j
               case Obj(fields) => FilesOfFields(fs, filename, fields)
               case Arr(items) => FilesOfItems(fs, filename, items)
               case _ => iset{}
  {
  }

  // ---- One read

  class FileCache {
    var entries: Cache

    constructor (initial: Cache)
      ensures entries == initial
    {
      entries := initial;
    }
  }

  /** Once a prefix of the fields fails, the whole object fails in the same way. */
  lemma {:induction false} PrefixFails(fs: FileSystem, fields: Fields, i: nat, filename: string, visited: seq<string>)
    requires i <= |fields| && FieldImports(fields) <= AllImports(fs)
    ensures FieldImports(fields[..i]) <= AllImports(fs)
    ensures ResolveFields(fs, fields[..i], filename, visited).Err? ==>
              ResolveFields(fs, fields, filename, visited) == ResolveFields(fs, fields[..i], filename, visited)
  {
    if i < |fields| {
      var n := |fields| - 1;
      PrefixFails(fs, fields[..n], i, filename, visited);
      assert fields[..n][..i] == fields[..i];
    } else {
      assert fields[..i] == fields;
    }
  }

  /** What the parts of a field may import. */
  lemma FieldIsKnown(fs: FileSystem, fields: Fields, i: nat, filename: string)
    requires i < |fields| && FieldImports(fields) <= AllImports(fs)
    ensures ImportStrings(fields[i].value) <= AllImports(fs)
    ensures fields[i].key == IMPORT_KEY && Target(fs, filename, fields[i].value).Ok? ==>
              Known(fs, Target(fs, filename, fields[i].value).value.selector)
  {
    FieldImportsContain(fields, i);
    if fields[i].key == IMPORT_KEY && Target(fs, filename, fields[i].value).Ok? {
      TargetIsKnown(fs, filename, fields[i].value);
    }
  }

  /** Resolving one more field. */
  lemma ResolveNextField(fs: FileSystem, fields: Fields, i: nat, filename: string, visited: seq<string>)
    requires i < |fields| && FieldImports(fields) <= AllImports(fs)
    ensures FieldImports(fields[..i]) <= AllImports(fs) && FieldImports(fields[..i + 1]) <= AllImports(fs)
    ensures ImportStrings(fields[i].value) <= AllImports(fs)
    ensures ResolveFields(fs, fields[..i], filename, visited).Ok? ==>
              ResolveFields(fs, fields[..i + 1], filename, visited) ==
                var ret := ResolveFields(fs, fields[..i], filename, visited).value;
                if fields[i].key == IMPORT_KEY then
                  var target := Target(fs, filename, fields[i].value);
                  if target.Err? then Err(target.error)
                  else
                    FieldIsKnown(fs, fields, i, filename);
                    var imported := ResolveFile(fs, target.value, visited);
                    if imported.Err? then imported else Ok(Assign(ret, imported.value))
                else
                  var v := ResolveValue(fs, fields[i].value, filename, visited);
                  if v.Err? then Err(v.error) else Ok(Put(ret, fields[i].key, v.value))
  {
    hide AllImports, Target, ResolveFile, ResolveValue, Assign, Put, Known;
    PrefixFails(fs, fields, i, filename, visited);
    PrefixFails(fs, fields, i + 1, filename, visited);
    FieldIsKnown(fs, fields, i, filename);
    assert fields[..i + 1][..i] == fields[..i];
  }

  lemma {:induction false} ItemsPrefixFail(fs: FileSystem, items: seq<Json>, i: nat, filename: string,
                                           visited: seq<string>)
    requires i <= |items| && ItemImports(items) <= AllImports(fs)
    ensures ItemImports(items[..i]) <= AllImports(fs)
    ensures ResolveItems(fs, items[..i], filename, visited).Err? ==>
              ResolveItems(fs, items, filename, visited) == ResolveItems(fs, items[..i], filename, visited)
  {
    if i < |items| {
      var n := |items| - 1;
      ItemsPrefixFail(fs, items[..n], i, filename, visited);
      assert items[..n][..i] == items[..i];
    } else {
      assert items[..i] == items;
    }
  }

  /** Resolving one more array element. */
  lemma ResolveNextItem(fs: FileSystem, items: seq<Json>, i: nat, filename: string, visited: seq<string>)
    requires i < |items| && ItemImports(items) <= AllImports(fs)
    ensures ItemImports(items[..i]) <= AllImports(fs) && ItemImports(items[..i + 1]) <= AllImports(fs)
    ensures ImportStrings(items[i]) <= AllImports(fs)
    ensures ResolveItems(fs, items[..i], filename, visited).Ok? ==>
              ResolveItems(fs, items[..i + 1], filename, visited) ==
                var vals := ResolveItems(fs, items[..i], filename, visited).value;
                if items[i].Obj? then
                  var v := ResolveFields(fs, items[i].fields, filename, visited);
                  if v.Err? then Err(v.error) else Ok(vals + [Obj(v.value)])
                else Ok(vals + [items[i]])
  {
    hide AllImports, ResolveFields;
    ItemsPrefixFail(fs, items, i, filename, visited);
    ItemsPrefixFail(fs, items, i + 1, filename, visited);
    ItemImportsContain(items, i);
    assert items[..i + 1][..i] == items[..i];
  }

  /** `readJsonWithTemplateInternal`.  `eff` is the file system as seen through the cache. */
  method ReadInternal(fs: FileSystem, file: string, selector: Option<string>, visited: seq<string>, cache: FileCache,
                      ghost eff: FileSystem)
    returns (r: Result<Fields, Error>)
    requires eff == Effective(fs, cache.entries) && Known(eff, selector)
    modifies cache
    ensures Extends(fs, old(cache.entries), cache.entries)
    ensures r == ResolveFile(eff, Node(fs.normalize(file), selector), visited)
    ensures r.Ok? ==> Adds(old(cache.entries), cache.entries, FilesOf(eff, Node(fs.normalize(file), selector)))
    decreases Budget(eff, visited), 0
  {
    hide AllImports, Known, Universe, Budget, ResolveFields, SelectSpec, Effective, FilesOf, FilesOfFields, Adds;
    EffectiveFunctions(fs, cache.entries);
    var filename := fs.normalize(file);
    ghost var n := Node(filename, selector);
    if OutsideRoots(fs, filename) {
      return Err(Invalid);
    }
    var specifier := SpecifierOf(Node(filename, selector));
    if specifier in visited {
      return Err(Circular);
    }
    var json: Json;
    ghost var before := cache.entries;
    EffectiveContent(fs, cache.entries, filename);
    if filename in cache.entries {
      json := cache.entries[filename];
    } else {
      if filename !in fs.contents || fs.contents[filename].Unparsable? {
        return Err(Invalid);
      }
      json := fs.contents[filename].json;
      cache.entries := cache.entries[filename := json];
    }
    ExtendedCacheSeesTheSame(fs, before, cache.entries);
    var part := json;
    if selector.Some? {
      var selected := Select(json, selector.value);
      if selected.Err? {
        return Err(selected.error);
      }
      part := selected.value;
    }
    var fields := Entries(part);
    if fields.Err? {
      return Err(fields.error);
    }
    BudgetShrinks(eff, n, visited);
    LoadImports(eff, n);
    FilesOfFile(eff, n);
    AddsOne(before, cache.entries, filename);
    ghost var middle := cache.entries;
    r := ResolveJsonImports(fs, fields.value, filename, visited + [specifier], cache, eff);
    if r.Ok? {
      AddsTwice(before, middle, cache.entries, iset{filename}, FilesOfFields(eff, filename, fields.value));
    }
  }

  lemma AddsOne(before: Cache, after: Cache, f: string)
    requires f in after && after == before[f := after[f]]
    ensures Adds(before, after, iset{f})
  {
  }

  lemma AddsNothing(entries: Cache)
    ensures Adds(entries, entries, iset{})
  {
  }

  lemma EffectiveFunctions(fs: FileSystem, entries: Cache)
    ensures Effective(fs, entries) == fs.(contents := Effective(fs, entries).contents)
  {
  }

  lemma EffectiveContent(fs: FileSystem, entries: Cache, f: string)
    ensures f in Effective(fs, entries).contents <==> f in entries || f in fs.contents
    ensures f in Effective(fs, entries).contents ==>
              Effective(fs, entries).contents[f] == if f in entries then Parsed(entries[f]) else fs.contents[f]
  {
  }

  /** `resolveJsonImports`. */
  method ResolveJsonImports(fs: FileSystem, fields: Fields, filename: string, visited: seq<string>, cache: FileCache,
                            ghost eff: FileSystem)
    returns (r: Result<Fields, Error>)
    requires eff == Effective(fs, cache.entries) && FieldImports(fields) <= AllImports(eff)
    modifies cache
    ensures Extends(fs, old(cache.entries), cache.entries)
    ensures r == ResolveFields(eff, fields, filename, visited)
    ensures r.Ok? ==> Adds(old(cache.entries), cache.entries, FilesOfFields(eff, filename, fields))
    decreases Budget(eff, visited), 1, fields
  {
    hide AllImports, Known, Universe, Budget, ResolveFile, Effective, Target, Assign, Put;
    hide FieldImports, ImportStrings, Extends;
    hide FilesOf, FilesOfFields, FilesOfValue, Adds;
    AddsNothing(cache.entries);
    NoFiles(eff, filename);
    assert fields[..0] == [];
    var ret: Fields := [];
    ghost var before := cache.entries;
    ExtendsIsPreorder(fs, before);
    PrefixFails(eff, fields, 0, filename, visited);
    for i := 0 to |fields|
      invariant Extends(fs, before, cache.entries)
      invariant FieldImports(fields[..i]) <= AllImports(eff)
      invariant ResolveFields(eff, fields[..i], filename, visited) == Ok(ret)
      invariant Adds(before, cache.entries, FilesOfFields(eff, filename, fields[..i]))
    {
      ghost var middle := cache.entries;
      FilesOfNextField(eff, filename, fields, i);
      var prop, val := fields[i].key, fields[i].value;
      ExtendedCacheSeesTheSame(fs, before, cache.entries);
      ResolveNextField(eff, fields, i, filename, visited);
      PrefixFails(eff, fields, i + 1, filename, visited);
      if prop == IMPORT_KEY {
        TargetSame(fs, cache.entries, filename, val);
        var target := ResolvePath(fs, filename, val);
        if target.Err? {
          return Err(target.error);
        }
        FieldIsKnown(eff, fields, i, filename);
        var imported := ReadInternal(fs, target.value.0, target.value.1, visited, cache, eff);
        if imported.Err? {
          return imported;
        }
        AddsTwice(before, middle, cache.entries, FilesOfFields(eff, filename, fields[..i]),
                  FilesOfImport(eff, filename, val));
        ret := Assign(ret, imported.value);
      } else {
        var v := ResolveProperty(fs, val, filename, visited, cache, eff);
        if v.Err? {
          return Err(v.error);
        }
        AddsTwice(before, middle, cache.entries, FilesOfFields(eff, filename, fields[..i]),
                  FilesOfValue(eff, filename, val));
        ret := Put(ret, prop, v.value);
      }
    }
    assert fields[..|fields|] == fields;
    return Ok(ret);
  }

  lemma ExtendsIsPreorder(fs: FileSystem, before: Cache)
    ensures Extends(fs, before, before)
    ensures forall c, d | Extends(fs, before, c) && Extends(fs, c, d) :: Extends(fs, before, d)
  {
  }

  /** The three cases for an ordinary property: an object, an array, anything else. */
  method ResolveProperty(fs: FileSystem, val: Json, filename: string, visited: seq<string>, cache: FileCache,
                         ghost eff: FileSystem)
    returns (r: Result<Json, Error>)
    requires eff == Effective(fs, cache.entries) && ImportStrings(val) <= AllImports(eff)
    modifies cache
    ensures Extends(fs, old(cache.entries), cache.entries)
    ensures r == ResolveValue(eff, val, filename, visited)
    ensures r.Ok? ==> Adds(old(cache.entries), cache.entries, FilesOfValue(eff, filename, val))
    decreases Budget(eff, visited), 1, val
  {
    hide AllImports, Budget, Effective, ResolveFields, Extends, FilesOfFields, FilesOfValue, FilesOfItems, Adds;
    ghost var before := cache.entries;
    AddsNothing(before);
    NoFiles(eff, filename);
    FilesOfOneValue(eff, filename, val);
    ExtendsIsPreorder(fs, before);
    if val.Obj? {
      var v := ResolveJsonImports(fs, val.fields, filename, visited, cache, eff);
      return if v.Err? then Err(v.error) else Ok(Obj(v.value));
    }
    if val.Arr? {
      var vals: seq<Json> := [];
      var items := val.items;
      assert items[..0] == [];
      for i := 0 to |items|
        invariant Extends(fs, before, cache.entries)
        invariant ItemImports(items[..i]) <= AllImports(eff)
        invariant ResolveItems(eff, items[..i], filename, visited) == Ok(vals)
        invariant Adds(before, cache.entries, FilesOfItems(eff, filename, items[..i]))
      {
        ghost var middle := cache.entries;
        FilesOfNextItem(eff, filename, items, i);
        ExtendedCacheSeesTheSame(fs, before, cache.entries);
        ResolveNextItem(eff, items, i, filename, visited);
        ItemsPrefixFail(eff, items, i + 1, filename, visited);
        if items[i].Obj? {
          var v := ResolveJsonImports(fs, items[i].fields, filename, visited, cache, eff);
          if v.Err? {
            return Err(v.error);
          }
          AddsTwice(before, middle, cache.entries, FilesOfItems(eff, filename, items[..i]),
                    FilesOfFields(eff, filename, items[i].fields));
          vals := vals + [Obj(v.value)];
        } else {
          vals := vals + [items[i]];
        }
      }
      assert items[..|items|] == items;
      return Ok(Arr(vals));
    }
    return Ok(val);
  }

  // ---- Reads that share a template cache

  predicate IsSlash(c: char) {
    c == '/' || c == '\\'
  }

  /** The file lies in a directory called `templates`. */
  predicate IsTemplate(filename: string) {
    exists i | 0 <= i <= |filename| - 11 ::
      IsSlash(filename[i]) && filename[i + 1..i + 10] == "templates" && IsSlash(filename[i + 10])
  }

  ghost function Templates(files: iset<string>): iset<string> {
    iset f | f in files && IsTemplate(f)
  }

  /** A successful read adds to the template cache exactly the templates on the import chains from the file. */
  ghost predicate Remembers(fs: FileSystem, before: Cache, filename: string, after: Cache) {
    Extends(fs, before, after)
    && Adds(before, after, Templates(FilesOf(Effective(fs, before), Node(fs.normalize(filename), None))))
  }

  /** The template cache after a read that has parsed `read`; templates that were removed meanwhile come back. */
  function WithTemplates(cache: Cache, read: Cache): Cache {
    cache + map f | f in read && IsTemplate(f) :: read[f]
  }

  /** The optional argument that limits a read to one or several root directories. */
  datatype RootDirs = Unlimited | OneRoot(dir: string) | Roots(dirs: seq<string>)

  /** The file system as a read with these root directories sees it. */
  function Limited(fs: FileSystem, rootDirs: RootDirs): FileSystem {
    match rootDirs
    case Unlimited => fs.(rootDirs := None)
    case OneRoot(dir) => fs.(rootDirs := Some([dir]))
    case Roots(dirs) => fs.(rootDirs := Some(dirs))
  }

  class Reader {
    var templateCache: Cache

    constructor ()
      ensures templateCache == map[]
    {
      templateCache := map[];
    }

    method ClearTemplateCache()
      modifies this
      ensures templateCache == map[]
    {
      templateCache := map[];
    }

    /** `readJsonWithTemplate`: an uncached read of the file system as seen through the template cache.  Only a
        successful read changes the cache. */
    method ReadJsonWithTemplate(disk: FileSystem, filename: string, rootDirs: RootDirs)
      returns (r: Result<Fields, Error>)
      modifies this
      ensures r == ReadSpec(Effective(Limited(disk, rootDirs), old(templateCache)), filename)
      ensures if r.Ok? then Remembers(Limited(disk, rootDirs), old(templateCache), filename, templateCache)
              else templateCache == old(templateCache)
      ensures CallStep(disk, old(templateCache), Read(filename, rootDirs, r), templateCache)
      ensures Consistent(disk, old(templateCache)) ==>
                r == ReadSpec(Limited(disk, rootDirs), filename) && Consistent(disk, templateCache)
    {
      var fs := Limited(disk, rootDirs);
      RootsDoNotMatter(disk, rootDirs);
      hide ReadSpec, Effective, IsTemplate, FilesOf, Adds;
      ReadThroughCache(fs, templateCache, filename);
      if !fs.pathExists(filename) {
        return Err(NotFound);
      }
      var fileCache := new FileCache(templateCache);
      r := ReadInternal(fs, filename, None, [], fileCache, Effective(fs, templateCache));
      if r.Err? {
        return;
      }
      RememberTemplates(fileCache.entries);
      TemplatesRemembered(fs, old(templateCache), fileCache.entries,
                          FilesOf(Effective(fs, old(templateCache)), Node(fs.normalize(filename), None)));
    }

    /** The loop at the end of a successful read. */
    method RememberTemplates(read: Cache)
      modifies this
      ensures templateCache == WithTemplates(old(templateCache), read)
    {
      hide IsTemplate;
      var names := read.Keys;
      while names != {}
        invariant names <= read.Keys
        invariant templateCache
                  == old(templateCache) + map f | f in read && f !in names && IsTemplate(f) :: read[f]
        decreases names
      {
        var f :| f in names;
        if IsTemplate(f) {
          templateCache := templateCache[f := read[f]];
        }
        names := names - {f};
      }
    }
  }

  lemma TemplatesRemembered(fs: FileSystem, before: Cache, read: Cache, files: iset<string>)
    requires Extends(fs, before, read) && Adds(before, read, files)
    ensures var after := WithTemplates(before, read);
            && Extends(fs, before, after) && Adds(before, after, Templates(files))
            && (Consistent(fs, before) ==> Consistent(fs, after))
  {
    hide IsTemplate;
  }

  /** Whether cached entries are what their files parse to has nothing to do with root directories. */
  lemma RootsDoNotMatter(fs: FileSystem, rootDirs: RootDirs)
    ensures forall entries :: Consistent(Limited(fs, rootDirs), entries) <==> Consistent(fs, entries)
  {
  }

  lemma ReadThroughCache(fs: FileSystem, entries: Cache, filename: string)
    ensures ReadSpec(Effective(fs, entries), filename)
            == if !fs.pathExists(filename) then Err(NotFound)
               else ResolveFile(Effective(fs, entries), Node(fs.normalize(filename), None), [])
    ensures Consistent(fs, entries) ==> ReadSpec(Effective(fs, entries), filename) == ReadSpec(fs, filename)
  {
    hide ResolveFile;
    if Consistent(fs, entries) {
      ConsistentCacheIsInvisible(fs, entries);
    }
  }

  // ---- Any sequence of calls on an unchanged file system

  /** Every read brings its own root directories, so a template cached under one may be found under another. */
  datatype Call = ClearCache | Read(filename: string, rootDirs: RootDirs, result: Result<Fields, Error>)

  /** What the contracts of `ClearTemplateCache` and `ReadJsonWithTemplate` allow a call to do. */
  ghost predicate CallStep(fs: FileSystem, before: Cache, call: Call, after: Cache) {
    match call
    case ClearCache => after == map[]
    case Read(filename, rootDirs, result) =>
      && result == ReadSpec(Effective(Limited(fs, rootDirs), before), filename)
      && if result.Ok? then Remembers(Limited(fs, rootDirs), before, filename, after) else after == before
  }

  ghost predicate IsHistory(fs: FileSystem, caches: seq<Cache>, calls: seq<Call>) {
    && |caches| == |calls| + 1
    && caches[0] == map[]
    && forall i | 0 <= i < |calls| :: CallStep(fs, caches[i], calls[i], caches[i + 1])
  }

  lemma {:induction false} CachesStayConsistent(fs: FileSystem, caches: seq<Cache>, calls: seq<Call>, i: nat)
    requires IsHistory(fs, caches, calls) && i < |caches|
    ensures Consistent(fs, caches[i])
  {
    if i > 0 {
      CachesStayConsistent(fs, caches, calls, i - 1);
      assert CallStep(fs, caches[i - 1], calls[i - 1], caches[i]);
      if calls[i - 1].Read? {
        RootsDoNotMatter(fs, calls[i - 1].rootDirs);
      }
    }
  }

  /** The template cache is transparent: in every sequence of reads, under whatever root directories, and clears,
      every read returns what an uncached read with its root directories returns. */
  lemma TemplateCacheIsTransparent(fs: FileSystem, caches: seq<Cache>, calls: seq<Call>)
    requires IsHistory(fs, caches, calls)
    ensures forall i | 0 <= i < |calls| && calls[i].Read? ::
              calls[i].result == ReadSpec(Limited(fs, calls[i].rootDirs), calls[i].filename)
  {
    hide ReadSpec, Effective, Limited;
    forall i | 0 <= i < |calls| && calls[i].Read?
      ensures calls[i].result == ReadSpec(Limited(fs, calls[i].rootDirs), calls[i].filename)
    {
      CachesStayConsistent(fs, caches, calls, i);
      assert CallStep(fs, caches[i], calls[i], caches[i + 1]);
      RootsDoNotMatter(fs, calls[i].rootDirs);
      ReadThroughCache(Limited(fs, calls[i].rootDirs), caches[i], calls[i].filename);
    }
  }

  // ---- Reads that overlap

  type ReadId = nat

  /** A read that has copied the template cache and is not done yet. */
  datatype Ongoing = Ongoing(filename: string, rootDirs: RootDirs, copied: Cache)

  datatype Readers = Readers(cache: Cache, ongoing: map<ReadId, Ongoing>)

  /** Reads are asynchronous: between the copy of the template cache and the end of a read, other reads may start and
      end, and the cache may be cleared.  `parsed` is what the read's own cache holds in the end. */
  datatype Event =
    | Cleared
    | Started(id: ReadId, filename: string, rootDirs: RootDirs)
    | Ended(id: ReadId, result: Result<Fields, Error>, parsed: Cache)

  /** The parts of the contracts of `ReadJsonWithTemplate`, `ReadInternal` and `RememberTemplates`, apart in time. */
  ghost predicate EventStep(fs: FileSystem, s: Readers, e: Event, t: Readers) {
    match e
    case Cleared => t == s.(cache := map[])
    case Started(id, filename, rootDirs) =>
      id !in s.ongoing && t == s.(ongoing := s.ongoing[id := Ongoing(filename, rootDirs, s.cache)])
    case Ended(id, result, parsed) =>
      && id in s.ongoing && t.ongoing == s.ongoing - {id}
      && var o := s.ongoing[id];
         var seen := Limited(fs, o.rootDirs);
         && Extends(seen, o.copied, parsed)
         && result == ReadSpec(Effective(seen, o.copied), o.filename)
         && t.cache == if result.Ok? then WithTemplates(s.cache, parsed) else s.cache
  }

  ghost predicate IsOverlapping(fs: FileSystem, ss: seq<Readers>, events: seq<Event>) {
    && |ss| == |events| + 1
    && ss[0] == Readers(map[], map[])
    && forall i | 0 <= i < |events| :: EventStep(fs, ss[i], events[i], ss[i + 1])
  }

  ghost predicate AllConsistent(fs: FileSystem, s: Readers) {
    Consistent(fs, s.cache) && forall id | id in s.ongoing :: Consistent(fs, s.ongoing[id].copied)
  }

  lemma EventKeepsConsistency(fs: FileSystem, s: Readers, e: Event, t: Readers)
    requires AllConsistent(fs, s) && EventStep(fs, s, e, t)
    ensures AllConsistent(fs, t)
  {
    hide ReadSpec, Effective, IsTemplate;
  }

  lemma {:induction false} OverlapsStayConsistent(fs: FileSystem, ss: seq<Readers>, events: seq<Event>, i: nat)
    requires IsOverlapping(fs, ss, events) && i < |ss|
    ensures AllConsistent(fs, ss[i])
  {
    hide EventStep;
    if i > 0 {
      OverlapsStayConsistent(fs, ss, events, i - 1);
      EventKeepsConsistency(fs, ss[i - 1], events[i - 1], ss[i]);
    }
  }

  /** However reads and clears overlap, every read ends with what an uncached read returns. */
  lemma OverlappingReadsAreTransparent(fs: FileSystem, ss: seq<Readers>, events: seq<Event>, i: nat)
    requires IsOverlapping(fs, ss, events) && i < |events| && events[i].Ended?
    ensures events[i].id in ss[i].ongoing
    ensures var o := ss[i].ongoing[events[i].id];
            events[i].result == ReadSpec(Limited(fs, o.rootDirs), o.filename)
  {
    hide ReadSpec, Effective, Limited;
    OverlapsStayConsistent(fs, ss, events, i);
    assert EventStep(fs, ss[i], events[i], ss[i + 1]);
    var o := ss[i].ongoing[events[i].id];
    RootsDoNotMatter(fs, o.rootDirs);
    ReadThroughCache(Limited(fs, o.rootDirs), o.copied, o.filename);
  }
}
