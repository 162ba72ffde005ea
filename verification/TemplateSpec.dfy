/** What `readJsonWithTemplate` computes: `$import` keys are replaced by the fields of the imported object.
    The import stack of specifiers catches circular imports, which is also why the expansion terminates. */
module TemplateSpec {
  import opened ImportSpecifier
  import opened Json
  import opened Text
  import opened Wrappers

  datatype Error = NotFound | Invalid | Circular | TypeFault

  type Fields = seq<Field>

  /** The content of a file: JSON, or text that does not parse. */
  datatype Content = Parsed(json: Json) | Unparsable

  /** The file system together with the path functions: `sibling(f, g)` is `g` seen from the directory of `f`,
      `join` appends to a root directory, `outside` tells whether a file lies outside a root directory. */
  datatype FileSystem = FileSystem(
    contents: map<string, Content>,
    pathExists: string -> bool,
    normalize: string -> string,
    sibling: (string, string) -> string,
    join: (string, string) -> string,
    outside: (string, string) -> bool,
    rootDirs: Option<seq<string>>)

  /** A resolved import target: a normalized file name and an optional selector inside that file. */
  datatype Node = Node(filename: string, selector: Option<string>)

  const IMPORT_KEY := "$import"

  function SpecifierOf(n: Node): string {
    if n.selector.Some? then n.filename + "#" + n.selector.value else n.filename
  }

  predicate OutsideRoots(fs: FileSystem, filename: string) {
    fs.rootDirs.Some? && forall d | d in fs.rootDirs.value :: fs.outside(d, filename)
  }

  // ---- Selecting part of a file

  /** `value[part]` for a part of a selector; `None` stands for `undefined`. */
  function Property(v: Option<Json>, part: string): Result<Option<Json>, Error> {
    match v
    case None => Err(TypeFault)
    case Some(Null) => Err(TypeFault)
    case Some(Obj(fields)) => Ok(Lookup(fields, part))
    case Some(Arr(items)) =>
      var i := IndexNamed(|items|, part);
      Ok(if i.Some? then Some(items[i.value]) else if part == "length" then Some(Num(|items|)) else None)
    case Some(Str(s)) =>
      var i := IndexNamed(|s|, part);
      Ok(if i.Some? then Some(Str([s[i.value]])) else if part == "length" then Some(Num(|s|)) else None)
    case Some(_) => Ok(None)
  }

  /** The first object among `items` whose `#` property is `part`. */
  function FindParam(items: seq<Json>, part: string): (r: Option<Fields>)
    ensures r.Some? ==> Obj(r.value) in items && Lookup(r.value, "#") == Some(Str(part))
    ensures r.None? ==> forall f :: Obj(f) in items ==> Lookup(f, "#") != Some(Str(part))
  {
    if items == [] then None
    else if items[0].Obj? && Lookup(items[0].fields, "#") == Some(Str(part)) then Some(items[0].fields)
    else FindParam(items[1..], part)
  }

  function Without(fields: Fields, key: string): Fields {
    if fields == [] then []
    else
      var rest := Without(fields[..|fields| - 1], key);
      if fields[|fields| - 1].key == key then rest else rest + [fields[|fields| - 1]]
  }

  function SelectPart(v: Option<Json>, part: string): Result<Option<Json>, Error> {
    var param := if v.Some? && v.value.Arr? then FindParam(v.value.items, part) else None;
    if param.Some? then Ok(Some(Obj(Without(param.value, "#")))) else Property(v, part)
  }

  function SelectParts(v: Option<Json>, parts: seq<string>): Result<Option<Json>, Error>
    decreases parts
  {
    if parts == [] then Ok(v)
    else
      var next :- SelectPart(v, parts[0]);
      SelectParts(next, parts[1..])
  }

  function NonEmpty(parts: seq<string>): seq<string> {
    if parts == [] then []
    else if parts[0] == "" then NonEmpty(parts[1..])
    else [parts[0]] + NonEmpty(parts[1..])
  }

  function SelectorParts(selector: string): seq<string> {
    NonEmpty(SplitOn(selector, '/'))
  }

  function SelectSpec(json: Json, selector: string): Result<Json, Error> {
    var r :- SelectParts(Some(json), SelectorParts(selector));
    if r.Some? && r.value.Obj? then Ok(r.value) else Err(Invalid)
  }

  /** `Object.entries(json)`. */
  function Entries(json: Json): Result<Fields, Error> {
    match json
    case Obj(fields) => Ok(fields)
    case Arr(items) => Ok(seq(|items|, i requires 0 <= i < |items| => Field(Decimal(i), items[i])))
    case Str(s) => Ok(seq(|s|, i requires 0 <= i < |s| => Field(Decimal(i), Str([s[i]]))))
    case Null => Err(TypeFault)
    case _ => Ok([])
  }

  /** The fields of an import target before its own imports are replaced. */
  function Load(fs: FileSystem, n: Node): Result<Fields, Error> {
    if n.filename !in fs.contents || fs.contents[n.filename].Unparsable? then Err(Invalid)
    else
      var json := fs.contents[n.filename].json;
      var part :- if n.selector.Some? then SelectSpec(json, n.selector.value) else Ok(json);
      Entries(part)
  }

  // ---- Resolving one `$import` value

  function FirstExisting(fs: FileSystem, dirs: seq<string>, name: string): Option<string> {
    if dirs == [] then None
    else if fs.pathExists(fs.join(dirs[0], name)) then Some(fs.join(dirs[0], name))
    else FirstExisting(fs, dirs[1..], name)
  }

  /** The name of the file that an `$import` inside `filename` refers to, before normalization. */
  function ImportedFile(fs: FileSystem, filename: string, imported: Option<string>): Result<string, Error> {
    if imported.None? then Ok(filename)
    else if !("~/" <= imported.value) then Ok(fs.sibling(filename, imported.value))
    else if fs.rootDirs.None? then Err(Invalid)
    else
      var found := FirstExisting(fs, fs.rootDirs.value, imported.value[2..]);
      if found.Some? then Ok(found.value) else Err(Invalid)
  }

  function Target(fs: FileSystem, filename: string, val: Json): Result<Node, Error> {
    if !val.Str? || ParseSpecifier(val.s).None? then Err(Invalid)
    else
      var spec := ParseSpecifier(val.s).value;
      var file :- ImportedFile(fs, filename, spec.filename);
      Ok(Node(fs.normalize(file), spec.selector))
  }

  // ---- The finitely many specifiers that can occur

  /** The string values of all `$import` keys inside a value. */
  ghost function ImportStrings(v: Json): set<string>
    decreases v
  {
    match v
    case Obj(fields) => FieldImports(fields)
    case Arr(items) => ItemImports(items)
    case _ => {}
  }

  ghost function FieldImports(fields: Fields): set<string>
    decreases fields
  {
    if fields == [] then {}
    else
      var last := fields[|fields| - 1];
      FieldImports(fields[..|fields| - 1]) + ImportStrings(last.value)
      + (if last.key == IMPORT_KEY && last.value.Str? then {last.value.s} else {})
  }

  ghost function ItemImports(items: seq<Json>): set<string>
    decreases items
  {
    if items == [] then {} else ItemImports(items[..|items| - 1]) + ImportStrings(items[|items| - 1])
  }

  ghost function AllImports(fs: FileSystem): set<string> {
    set f, s | f in fs.contents && fs.contents[f].Parsed? && s in ImportStrings(fs.contents[f].json) :: s
  }

  /** The selectors that occur in any file. */
  ghost predicate Known(fs: FileSystem, selector: Option<string>) {
    selector.Some? ==> exists s | s in AllImports(fs) ::
      ParseSpecifier(s).Some? && ParseSpecifier(s).value.selector == selector
  }

  ghost function Universe(fs: FileSystem): set<string> {
    (set f | f in fs.contents :: f)
    + (set f, s | f in fs.contents && s in AllImports(fs) && ParseSpecifier(s).Some?
                  && ParseSpecifier(s).value.selector.Some? ::
         f + "#" + ParseSpecifier(s).value.selector.value)
  }

  ghost function Budget(fs: FileSystem, visited: seq<string>): nat {
    |Universe(fs) - (set s | s in visited)|
  }

  /** Pushing a specifier that can be loaded and is not on the stack uses up part of the finite universe. */
  lemma BudgetShrinks(fs: FileSystem, n: Node, visited: seq<string>)
    requires Load(fs, n).Ok? && Known(fs, n.selector) && SpecifierOf(n) !in visited
    ensures Budget(fs, visited + [SpecifierOf(n)]) < Budget(fs, visited)
  {
    var spec := SpecifierOf(n);
    assert spec in Universe(fs);
    var before, after := Universe(fs) - (set s | s in visited), Universe(fs) - (set s | s in visited + [spec]);
    assert spec in before;
    assert after == before - {spec};
  }

  lemma TargetIsKnown(fs: FileSystem, filename: string, val: Json)
    requires Target(fs, filename, val).Ok? && val.s in AllImports(fs)
    ensures Known(fs, Target(fs, filename, val).value.selector)
  {
  }

  lemma {:induction false} FieldImportsContain(fields: Fields, i: nat)
    requires i < |fields|
    ensures ImportStrings(fields[i].value) <= FieldImports(fields)
    ensures fields[i].key == IMPORT_KEY && fields[i].value.Str? ==> fields[i].value.s in FieldImports(fields)
  {
    if i < |fields| - 1 {
      FieldImportsContain(fields[..|fields| - 1], i);
    }
  }

  lemma {:induction false} ItemImportsContain(items: seq<Json>, i: nat)
    requires i < |items|
    ensures ImportStrings(items[i]) <= ItemImports(items)
  {
    if i < |items| - 1 {
      ItemImportsContain(items[..|items| - 1], i);
    }
  }

  lemma {:induction false} LookupImports(fields: Fields, key: string)
    requires HasKey(fields, key)
    ensures ImportStrings(Lookup(fields, key).value) <= FieldImports(fields)
  {
    if fields[|fields| - 1].key != key {
      LookupImports(fields[..|fields| - 1], key);
    }
  }

  lemma {:induction false} WithoutImports(fields: Fields, key: string)
    ensures FieldImports(Without(fields, key)) <= FieldImports(fields)
  {
    if fields != [] {
      var n := |fields| - 1;
      WithoutImports(fields[..n], key);
      if fields[n].key != key {
        var w := Without(fields, key);
        assert w[..|w| - 1] == Without(fields[..n], key);
      }
    }
  }

  ghost function OptionImports(v: Option<Json>): set<string> {
    if v.Some? then ImportStrings(v.value) else {}
  }

  lemma SelectPartImports(v: Option<Json>, part: string)
    requires SelectPart(v, part).Ok?
    ensures OptionImports(SelectPart(v, part).value) <= OptionImports(v)
  {
    if v.value.Arr? {
      var items := v.value.items;
      var param, i := FindParam(items, part), IndexNamed(|items|, part);
      if param.Some? {
        var k :| 0 <= k < |items| && items[k] == Obj(param.value);
        ItemImportsContain(items, k);
        WithoutImports(param.value, "#");
      } else if i.Some? {
        ItemImportsContain(items, i.value);
      }
    } else if v.value.Obj? && HasKey(v.value.fields, part) {
      LookupImports(v.value.fields, part);
    }
  }

  lemma {:induction false} SelectPartsImports(v: Option<Json>, parts: seq<string>)
    requires SelectParts(v, parts).Ok?
    ensures OptionImports(SelectParts(v, parts).value) <= OptionImports(v)
    decreases parts
  {
    if parts != [] {
      SelectPartImports(v, parts[0]);
      SelectPartsImports(SelectPart(v, parts[0]).value, parts[1..]);
    }
  }

  lemma {:induction false} NoImports(fields: Fields)
    requires forall i | 0 <= i < |fields| :: fields[i].key != IMPORT_KEY && fields[i].value.Str?
    ensures FieldImports(fields) == {}
  {
    if fields != [] {
      NoImports(fields[..|fields| - 1]);
    }
  }

  lemma {:induction false} ArrayEntriesImports(items: seq<Json>)
    ensures FieldImports(Entries(Arr(items)).value) == ItemImports(items)
  {
    var e := Entries(Arr(items)).value;
    if items != [] {
      ArrayEntriesImports(items[..|items| - 1]);
      assert e[..|e| - 1] == Entries(Arr(items[..|items| - 1])).value;
    }
  }

  lemma EntriesImports(json: Json)
    requires Entries(json).Ok?
    ensures FieldImports(Entries(json).value) <= ImportStrings(json)
  {
    match json
    case Arr(items) => ArrayEntriesImports(items);
    case Str(s) => NoImports(Entries(json).value);
    case _ =>
  }

  /** Whatever is loaded can only import what some file imports. */
  lemma LoadImports(fs: FileSystem, n: Node)
    requires Load(fs, n).Ok?
    ensures FieldImports(Load(fs, n).value) <= AllImports(fs)
  {
    var json := fs.contents[n.filename].json;
    if n.selector.Some? {
      SelectPartsImports(Some(json), SelectorParts(n.selector.value));
      EntriesImports(SelectSpec(json, n.selector.value).value);
    } else {
      EntriesImports(json);
    }
    assert ImportStrings(json) <= AllImports(fs);
  }

  // ---- The expansion

  /** `readJsonWithTemplateInternal`, on the specification level. */
  function ResolveFile(fs: FileSystem, n: Node, visited: seq<string>): (r: Result<Fields, Error>)
    requires Known(fs, n.selector)
    decreases Budget(fs, visited), 0
  {
    if OutsideRoots(fs, n.filename) then Err(Invalid)
    else if SpecifierOf(n) in visited then Err(Circular)
    else
      var fields :- Load(fs, n);
      BudgetShrinks(fs, n, visited);
      LoadImports(fs, n);
      ResolveFields(fs, fields, n.filename, visited + [SpecifierOf(n)])
  }

  /** `resolveJsonImports`: later fields override earlier ones. */
  function ResolveFields(fs: FileSystem, fields: Fields, filename: string, visited: seq<string>)
    : (r: Result<Fields, Error>)
    requires FieldImports(fields) <= AllImports(fs)
    decreases Budget(fs, visited), 1, fields
  {
    if fields == [] then Ok([])
    else
      var last := fields[|fields| - 1];
      var ret :- ResolveFields(fs, fields[..|fields| - 1], filename, visited);
      if last.key == IMPORT_KEY then
        var target :- Target(fs, filename, last.value);
        var imported :- ResolveFile(fs, target, visited);
        Ok(Assign(ret, imported))
      else
        var v :- ResolveValue(fs, last.value, filename, visited);
        Ok(Put(ret, last.key, v))
  }

  function ResolveValue(fs: FileSystem, v: Json, filename: string, visited: seq<string>): (r: Result<Json, Error>)
    requires ImportStrings(v) <= AllImports(fs)
    decreases Budget(fs, visited), 1, v
  {
    match v
    case Obj(fields) =>
      var r :- ResolveFields(fs, fields, filename, visited);
      Ok(Obj(r))
    case Arr(items) =>
      var r :- ResolveItems(fs, items, filename, visited);
      Ok(Arr(r))
    case _ => Ok(v)
  }

  /** Only objects directly inside an array are expanded; an array inside an array is copied as it is. */
  function ResolveItems(fs: FileSystem, items: seq<Json>, filename: string, visited: seq<string>)
    : (r: Result<seq<Json>, Error>)
    requires ItemImports(items) <= AllImports(fs)
    decreases Budget(fs, visited), 1, items
  {
    if items == [] then Ok([])
    else
      var last := items[|items| - 1];
      var vals :- ResolveItems(fs, items[..|items| - 1], filename, visited);
      if last.Obj? then
        assert ImportStrings(last) <= ItemImports(items);
        var v :- ResolveFields(fs, last.fields, filename, visited);
        Ok(vals + [Obj(v)])
      else Ok(vals + [last])
  }

  /** `readJsonWithTemplate` without any cache. */
  function ReadSpec(fs: FileSystem, filename: string): Result<Fields, Error> {
    if !fs.pathExists(filename) then Err(NotFound)
    else ResolveFile(fs, Node(fs.normalize(filename), None), [])
  }
}
