/** What the parts of an import mean, without saying how they are computed: one part of a selector, a whole selector,
    the file that is meant, what is loaded from it, and what becomes of the values in it. */
module TemplateSelection {
  import opened Collections
  import opened ImportSpecifier
  import opened Json
  import opened TemplateExpansion
  import opened TemplateImports
  import opened TemplateReader
  import opened TemplateSpec
  import opened Text
  import opened Wrappers

  // ---- One part of a selector

  ghost predicate IsParam(item: Json, part: string) {
    item.Obj? && Lookup(item.fields, "#") == Some(Str(part))
  }

  ghost predicate FirstParam(items: seq<Json>, part: string, i: int) {
    0 <= i < |items| && IsParam(items[i], part) && forall j | 0 <= j < i :: !IsParam(items[j], part)
  }

  /** `g` has the fields of `f` except the parameter number. */
  ghost predicate CopiesWithoutNumber(f: Fields, g: Fields) {
    && !HasKey(g, "#")
    && (forall k | k != "#" :: Lookup(g, k) == Lookup(f, k))
    && (Distinct(f) ==> forall i | 0 <= i < |f| && f[i].key == "#" :: g == f[..i] + f[i + 1..])
  }

  /** `r` is the element with the index `part`, or the length, or nothing. */
  ghost predicate IsElement(items: seq<Json>, part: string, r: Option<Json>) {
    if exists i | 0 <= i < |items| :: Decimal(i) == part
    then exists i | 0 <= i < |items| :: Decimal(i) == part && r == Some(items[i])
    else r == if part == "length" then Some(Num(|items|)) else None
  }

  function Characters(s: string): seq<Json> {
    seq(|s|, i requires 0 <= i < |s| => Str([s[i]]))
  }

  /** Selecting `part` from a value that is neither null nor undefined gives `r`. */
  ghost predicate Picks(v: Json, part: string, r: Option<Json>) {
    match v
    case Null => false
    case Obj(fields) => if HasKey(fields, part) then IsValueOf(fields, part, r) else r == None
    case Arr(items) =>
      if exists i :: FirstParam(items, part, i)
      then exists i :: FirstParam(items, part, i)
                       && r.Some? && r.value.Obj? && CopiesWithoutNumber(items[i].fields, r.value.fields)
      else IsElement(items, part, r)
    case Str(s) => IsElement(Characters(s), part, r)
    case _ => r == None
  }

  ghost predicate IsValueOf(fields: Fields, key: string, r: Option<Json>) {
    exists i | 0 <= i < |fields| ::
      fields[i].key == key && r == Some(fields[i].value) && forall j | i < j < |fields| :: fields[j].key != key
  }

  lemma LookupIsValue(fields: Fields, key: string)
    requires HasKey(fields, key)
    ensures IsValueOf(fields, key, Lookup(fields, key))
  {
    hide Lookup;
    var i := LastWith(fields, key);
    LookupFinds(fields, key, i);
  }

  lemma {:induction false} LastWith(fields: Fields, key: string) returns (i: nat)
    requires HasKey(fields, key)
    ensures i < |fields| && fields[i].key == key && forall j | i < j < |fields| :: fields[j].key != key
  {
    i := |fields| - 1;
    if fields[i].key != key {
      i := LastWith(fields[..i], key);
    }
  }

  lemma {:induction false} FoundIsFirst(items: seq<Json>, part: string)
    ensures FindParam(items, part).Some? <==> exists i :: FirstParam(items, part, i)
    ensures FindParam(items, part).Some? ==>
              exists i :: FirstParam(items, part, i) && items[i] == Obj(FindParam(items, part).value)
  {
    if items != [] {
      if IsParam(items[0], part) {
        assert FirstParam(items, part, 0);
      } else {
        FoundIsFirst(items[1..], part);
        if i :| FirstParam(items[1..], part, i) && items[1..][i] == Obj(FindParam(items[1..], part).value) {
          assert FirstParam(items, part, i + 1);
        }
      }
    }
  }

  lemma {:induction false} WithoutLookup(f: Fields, k: string)
    ensures Lookup(Without(f, "#"), k) == if k == "#" then None else Lookup(f, k)
  {
    if f != [] {
      WithoutLookup(f[..|f| - 1], k);
      if f[|f| - 1].key != "#" {
        var g := Without(f, "#");
        assert g[..|g| - 1] == Without(f[..|f| - 1], "#");
      }
    }
  }

  lemma WithoutCopies(f: Fields)
    ensures CopiesWithoutNumber(f, Without(f, "#"))
  {
    hide Without;
    WithoutLookup(f, "#");
    forall k | k != "#" ensures Lookup(Without(f, "#"), k) == Lookup(f, k) {
      WithoutLookup(f, k);
    }
    forall i | Distinct(f) && 0 <= i < |f| && f[i].key == "#" ensures Without(f, "#") == f[..i] + f[i + 1..] {
      WithoutAt(f, i);
    }
  }

  lemma {:induction false} WithoutNone(f: Fields)
    requires forall i | 0 <= i < |f| :: f[i].key != "#"
    ensures Without(f, "#") == f
  {
    if f != [] {
      WithoutNone(f[..|f| - 1]);
    }
  }

  lemma {:induction false} WithoutAt(f: Fields, i: nat)
    requires Distinct(f) && i < |f| && f[i].key == "#"
    ensures Without(f, "#") == f[..i] + f[i + 1..]
  {
    var n := |f| - 1;
    var init := f[..n];
    if i < n {
      assert f[n].key != "#";
      WithoutAt(init, i);
      hide Without, Distinct;
      assert Without(f, "#") == Without(init, "#") + [f[n]] by {
        WithoutLast(f);
      }
      assert init[..i] == f[..i] && f[i + 1..] == init[i + 1..] + [f[n]];
    } else {
      WithoutNone(init);
      assert f[i + 1..] == [];
    }
  }

  lemma WithoutLast(f: Fields)
    requires f != [] && f[|f| - 1].key != "#"
    ensures Without(f, "#") == Without(f[..|f| - 1], "#") + [f[|f| - 1]]
  {
  }

  /** One part of a selector: a type fault for null and undefined, and otherwise what is picked. */
  lemma PartIsPicked(v: Option<Json>, part: string, r: Result<Option<Json>, Error>)
    requires r == SelectPart(v, part)
    ensures r.Err? <==> v.None? || v == Some(Null)
    ensures if r.Ok? then Picks(v.value, part, r.value) else r.error == TypeFault
  {
    hide CopiesWithoutNumber, FirstParam, IsValueOf, Without;
    if v.Some? && v.value.Arr? {
      FoundIsFirst(v.value.items, part);
      var param := FindParam(v.value.items, part);
      if param.Some? {
        WithoutCopies(param.value);
      }
    } else if v.Some? && v.value.Obj? && HasKey(v.value.fields, part) {
      LookupIsValue(v.value.fields, part);
    }
  }

  // ---- Whole selectors

  ghost predicate Advances(v: Option<Json>, part: string, next: Option<Json>) {
    if part == "" then next == v else v.Some? && Picks(v.value, part, next)
  }

  /** `trace` are the values that the parts select one after the other; empty parts are skipped. */
  ghost predicate IsTrace(v: Option<Json>, parts: seq<string>, trace: seq<Option<Json>>) {
    && 1 <= |trace| <= |parts| + 1 && trace[0] == v
    && forall i | 0 <= i < |trace| - 1 :: Advances(trace[i], parts[i], trace[i + 1])
  }

  /** How far the parts can be followed: to the end, or to a part that is selected from null or undefined. */
  ghost predicate Ends(parts: seq<string>, trace: seq<Option<Json>>, r: Result<Option<Json>, Error>) {
    && 1 <= |trace| <= |parts| + 1
    && var last := trace[|trace| - 1];
       match r
       case Ok(x) => |trace| == |parts| + 1 && x == last
       case Err(e) => |trace| <= |parts| && parts[|trace| - 1] != "" && (last == None || last == Some(Null))
                      && e == TypeFault
  }

  lemma TraceCons(v: Option<Json>, next: Option<Json>, parts: seq<string>, rest: seq<Option<Json>>,
                  r: Result<Option<Json>, Error>)
    requires parts != [] && IsTrace(next, parts[1..], rest) && Ends(parts[1..], rest, r)
    requires Advances(v, parts[0], next)
    ensures IsTrace(v, parts, [v] + rest) && Ends(parts, [v] + rest, r)
  {
    hide Advances;
    var trace := [v] + rest;
    assert trace[|trace| - 1] == rest[|rest| - 1];
    assert r.Err? ==> parts[|trace| - 1] == parts[1..][|rest| - 1];
    forall i | 0 <= i < |trace| - 1 ensures Advances(trace[i], parts[i], trace[i + 1]) {
      if i > 0 {
        assert Advances(rest[i - 1], parts[1..][i - 1], rest[i - 1 + 1]);
      }
    }
  }

  lemma {:induction false} PartsAreFollowed(v: Option<Json>, parts: seq<string>, r: Result<Option<Json>, Error>)
    returns (trace: seq<Option<Json>>)
    requires r == SelectParts(v, NonEmpty(parts))
    ensures IsTrace(v, parts, trace) && Ends(parts, trace, r)
    decreases |parts|
  {
    hide Picks, SelectPart;
    trace := [v];
    if parts != [] {
      if parts[0] == "" {
        var rest := PartsAreFollowed(v, parts[1..], r);
        TraceCons(v, v, parts, rest, r);
        trace := [v] + rest;
      } else {
        var next := SelectPart(v, parts[0]);
        PartIsPicked(v, parts[0], next);
        assert NonEmpty(parts)[1..] == NonEmpty(parts[1..]);
        if next.Ok? {
          var rest := PartsAreFollowed(next.value, parts[1..], r);
          TraceCons(v, next.value, parts, rest, r);
          trace := [v] + rest;
        }
      }
    }
  }

  /** A selector whose parts are joined with slashes selects part after part, skips empty parts, and must end at an
      object; selecting from null or undefined is a type fault. */
  lemma SelectorIsFollowed(json: Json, selector: string, parts: seq<string>, r: Result<Json, Error>)
    returns (trace: seq<Option<Json>>)
    requires r == SelectSpec(json, selector)
    requires parts != [] && Join(parts, '/') == selector && forall i | 0 <= i < |parts| :: '/' !in parts[i]
    ensures IsTrace(Some(json), parts, trace)
    ensures var last := trace[|trace| - 1];
            match r
            case Ok(v) => |trace| == |parts| + 1 && last == Some(v) && v.Obj?
            case Err(Invalid) => |trace| == |parts| + 1 && (last.Some? ==> !last.value.Obj?)
            case Err(TypeFault) =>
              |trace| <= |parts| && parts[|trace| - 1] != "" && (last == None || last == Some(Null))
            case _ => false
  {
    hide SelectParts, IsTrace;
    SplitOfJoin(parts, '/');
    trace := PartsAreFollowed(Some(json), parts, SelectParts(Some(json), NonEmpty(parts)));
  }

  // ---- What is loaded

  /** The fields of an import target: those of the file or of what its selector finds; an array or a string counts as
      an object with its indices as keys. */
  lemma LoadedFields(fs: FileSystem, n: Node, r: Result<Fields, Error>)
    requires r == Load(fs, n)
    ensures n.filename !in fs.contents || fs.contents[n.filename].Unparsable? ==> r == Err(Invalid)
    ensures n.filename in fs.contents && fs.contents[n.filename].Parsed? ==>
              var json := fs.contents[n.filename].json;
              if n.selector.Some? then
                var part := SelectSpec(json, n.selector.value);
                r == if part.Ok? then Ok(part.value.fields) else Err(part.error)
              else
                match json
                case Obj(fields) => r == Ok(fields)
                case Arr(items) => r.Ok? && AreEntries(items, r.value)
                case Str(s) => r.Ok? && AreEntries(Characters(s), r.value)
                case Null => r == Err(TypeFault)
                case _ => r == Ok([])
  {
  }

  ghost predicate AreEntries(items: seq<Json>, fields: Fields) {
    |fields| == |items| && forall i | 0 <= i < |items| :: fields[i] == Field(Decimal(i), items[i])
  }

  // ---- Which file is meant

  ghost predicate FirstIn(fs: FileSystem, dirs: seq<string>, name: string, i: int) {
    && 0 <= i < |dirs| && fs.pathExists(fs.join(dirs[i], name))
    && forall j | 0 <= j < i :: !fs.pathExists(fs.join(dirs[j], name))
  }

  /** `g` is the file that an import inside `filename` names: the same file if there is no name, the first root
      directory's file for names that start with `~/`, and the sibling otherwise. */
  ghost predicate Locates(fs: FileSystem, filename: string, imported: Option<string>, g: string) {
    match imported
    case None => g == filename
    case Some(name) =>
      if |name| >= 2 && name[0] == '~' && name[1] == '/' then
        fs.rootDirs.Some?
        && exists i :: FirstIn(fs, fs.rootDirs.value, name[2..], i) && g == fs.join(fs.rootDirs.value[i], name[2..])
      else g == fs.sibling(filename, name)
  }

  lemma {:induction false} FirstExistingIff(fs: FileSystem, dirs: seq<string>, name: string)
    ensures FirstExisting(fs, dirs, name).Some? <==> exists i :: FirstIn(fs, dirs, name, i)
    ensures forall i | FirstIn(fs, dirs, name, i) :: FirstExisting(fs, dirs, name) == Some(fs.join(dirs[i], name))
  {
    if dirs != [] {
      FirstExistingIff(fs, dirs[1..], name);
      if fs.pathExists(fs.join(dirs[0], name)) {
        assert FirstIn(fs, dirs, name, 0);
      } else {
        forall i | FirstIn(fs, dirs, name, i) ensures FirstIn(fs, dirs[1..], name, i - 1) {
        }
        if i :| FirstIn(fs, dirs[1..], name, i) {
          assert FirstIn(fs, dirs, name, i + 1);
        }
      }
    }
  }

  /** An import leads to a target exactly if its value is a specifier that locates a file; the target is that file,
      normalized, with the specifier's selector.  Anything else is an invalid configuration. */
  lemma TargetIff(fs: FileSystem, filename: string, val: Json, n: Node)
    ensures Target(fs, filename, val) == Ok(n) <==>
            && val.Str? && ParseSpecifier(val.s).Some?
            && var spec := ParseSpecifier(val.s).value;
               n.selector == spec.selector
               && exists g :: Locates(fs, filename, spec.filename, g) && n.filename == fs.normalize(g)
    ensures Target(fs, filename, val).Err? ==> Target(fs, filename, val).error == Invalid
  {
    hide ParseSpecifier, FirstExisting, FirstIn;
    if val.Str? && ParseSpecifier(val.s).Some? {
      LocatesIff(fs, filename, ParseSpecifier(val.s).value.filename);
    }
  }

  lemma LocatesIff(fs: FileSystem, filename: string, imported: Option<string>)
    ensures forall g :: ImportedFile(fs, filename, imported) == Ok(g) <==> Locates(fs, filename, imported, g)
  {
    hide FirstExisting, FirstIn;
    if imported.Some? && "~/" <= imported.value && fs.rootDirs.Some? {
      FirstExistingIff(fs, fs.rootDirs.value, imported.value[2..]);
    }
  }

  /** The name of a file is `tilde`, `name` and `dot` one after the other. */
  ghost predicate NamesJson(s: string, tilde: string, name: string, dot: string) {
    && s == tilde + name + dot && (tilde == "" || tilde == "~/") && name != ""
    && (forall c | c in name :: 'a' <= c <= 'z' || 'A' <= c <= 'Z' || '0' <= c <= '9'
                               || c == '_' || c == '/' || c == '\\' || c == '.' || c == '-')
    && |dot| == 5 && dot[0] == '.' && dot[1] in "jJ" && dot[2] in "sS" && dot[3] in "oO" && dot[4] in "nN"
  }

  ghost predicate Selects(s: string, path: string, mask: string) {
    && s == path + mask && path != ""
    && (forall c | c in path :: 'a' <= c <= 'z' || 'A' <= c <= 'Z' || '0' <= c <= '9'
                               || c == '_' || c == '/' || c == '.' || c == '-')
    && (mask == ""
        || (|mask| > 4 && mask[0] == '[' && mask[1] == '0' && mask[2] in "xX" && mask[|mask| - 1] == ']'
            && forall i | 3 <= i < |mask| - 1 :: IsHexDigit(mask[i])))
  }

  lemma PathIsNameAndDot(path: string)
    requires IsPath(path)
    ensures |path| > 5
    ensures NamesJson(path, "", path[..|path| - 5], path[|path| - 5..])
  {
    var name, dot := path[..|path| - 5], path[|path| - 5..];
    assert path == name + dot && "" + name + dot == path;
    forall c | c in name ensures IsFilenameChar(c) {
      var i :| 0 <= i < |name| && name[i] == c;
      assert IsFilenameChar(path[i]);
    }
  }

  lemma NameAndDotIsPath(name: string, dot: string)
    requires NamesJson(name + dot, "", name, dot)
    ensures IsPath(name + dot)
  {
    var path := name + dot;
    assert path[|path| - 5..] == dot;
    forall i | 0 <= i < |path| ensures IsFilenameChar(path[i]) {
      if i < |name| {
        assert path[i] == name[i] && name[i] in name;
      } else {
        assert path[i] == dot[i - |name|];
      }
    }
  }

  lemma FilenameIsNamed(s: string) returns (tilde: string, name: string, dot: string)
    requires IsFilename(s)
    ensures NamesJson(s, tilde, name, dot)
  {
    hide IsPath, NamesJson;
    tilde := if "~/" <= s then "~/" else "";
    var path := if "~/" <= s then s[2..] else s;
    PathIsNameAndDot(path);
    name, dot := path[..|path| - 5], path[|path| - 5..];
    assert s == tilde + path;
    WithTilde(s, tilde, path, name, dot);
  }

  lemma WithTilde(s: string, tilde: string, path: string, name: string, dot: string)
    requires NamesJson(path, "", name, dot) && s == tilde + path && (tilde == "" || tilde == "~/")
    ensures NamesJson(s, tilde, name, dot)
  {
    assert path == "" + name + dot == name + dot;
    assert s == tilde + name + dot;
  }

  lemma NamedIsFilename(s: string, tilde: string, name: string, dot: string)
    requires NamesJson(s, tilde, name, dot)
    ensures IsFilename(s) && s != "" && '#' !in s
  {
    hide IsPath;
    assert "" + name + dot == name + dot && s == tilde + (name + dot);
    NameAndDotIsPath(name, dot);
    assert '#' !in name && '#' !in dot && '#' !in tilde;
    if tilde == "" {
      assert s == name + dot && s[0] == name[0] && name[0] in name;
    } else {
      assert s[..2] == "~/" && s[2..] == name + dot;
    }
  }

  lemma FilenameIff(s: string)
    ensures IsFilename(s) <==> exists tilde, name, dot :: NamesJson(s, tilde, name, dot)
    ensures IsFilename(s) ==> s != "" && '#' !in s
  {
    hide IsFilename, NamesJson;
    if IsFilename(s) {
      var tilde, name, dot := FilenameIsNamed(s);
      NamedIsFilename(s, tilde, name, dot);
    }
    if tilde, name, dot :| NamesJson(s, tilde, name, dot) {
      NamedIsFilename(s, tilde, name, dot);
    }
  }

  lemma SelectorIff(s: string)
    ensures IsSelector(s) <==> exists path, mask :: Selects(s, path, mask)
  {
    if IsSelector(s) {
      var k :| 0 < k <= |s| && (k == |s| || IsBitMask(s[k..])) && forall i | 0 <= i < k :: IsSelectorChar(s[i]);
      SplitSelects(s, k);
    }
    if path, mask :| Selects(s, path, mask) {
      SelectsSplit(s, path, mask);
    }
  }

  lemma SplitSelects(s: string, k: nat)
    requires 0 < k <= |s| && (k == |s| || IsBitMask(s[k..])) && forall i | 0 <= i < k :: IsSelectorChar(s[i])
    ensures Selects(s, s[..k], s[k..])
  {
    assert s == s[..k] + s[k..];
  }

  lemma SelectsSplit(s: string, path: string, mask: string)
    requires Selects(s, path, mask)
    ensures IsSelector(s)
  {
    var k := |path|;
    assert s[k..] == mask && s[..k] == path;
    assert k == |s| || IsBitMask(s[k..]);
    assert forall i | 0 <= i < k :: s[i] == path[i] && path[i] in path;
    assert forall i | 0 <= i < k :: IsSelectorChar(s[i]);
  }

  lemma ParsedAt(s: string, file: string, selector: Option<string>)
    requires IndexOf(s, '#') == |file| <= |s| && s[..|file|] == file && (file == "" || IsFilename(file))
    requires if selector.None? then |s| == |file|
             else |file| < |s| && s[|file| + 1..] == selector.value && IsSelector(selector.value)
    ensures ParseSpecifier(s) == Some(Specifier(if file == "" then None else Some(file), selector))
  {
    hide IsFilename, IsSelector, IndexOf;
  }

  /** What `ParseSpecifier` does with a file name and what follows it. */
  lemma ParsedParts(s: string, filename: Option<string>, selector: Option<string>)
    requires s == (if filename.Some? then filename.value else "") + AfterName(selector)
    requires (filename.Some? ==> IsFilename(filename.value)) && (selector.Some? ==> IsSelector(selector.value))
    ensures ParseSpecifier(s) == Some(Specifier(filename, selector))
  {
    hide IsFilename, IsSelector, IndexOf, ParseSpecifier;
    var file := if filename.Some? then filename.value else "";
    if filename.Some? {
      FilenameIff(filename.value);
    }
    FirstHash(file, AfterName(selector));
    CutAt(file, AfterName(selector));
    assert selector.Some? ==> AfterName(selector)[1..] == selector.value;
    ParsedAt(s, file, selector);
  }

  lemma CutAt(file: string, rest: string)
    ensures (file + rest)[..|file|] == file
    ensures rest != "" ==> (file + rest)[|file| + 1..] == rest[1..]
  {
  }

  lemma ParsedPartsMatch(s: string)
    requires ParseSpecifier(s).Some?
    ensures var r := ParseSpecifier(s).value;
            && s == (if r.filename.Some? then r.filename.value else "") + AfterName(r.selector)
            && (r.filename.Some? ==> IsFilename(r.filename.value))
            && (r.selector.Some? ==> IsSelector(r.selector.value))
  {
    hide IsFilename, IsSelector, IndexOf;
  }

  lemma SpecifierParts(s: string, filename: Option<string>, selector: Option<string>)
    ensures ParseSpecifier(s) == Some(Specifier(filename, selector)) <==>
            && s == (if filename.Some? then filename.value else "") + AfterName(selector)
            && (filename.Some? ==> IsFilename(filename.value)) && (selector.Some? ==> IsSelector(selector.value))
  {
    hide IsFilename, IsSelector, ParseSpecifier;
    if ParseSpecifier(s).Some? {
      ParsedPartsMatch(s);
    }
    if s == (if filename.Some? then filename.value else "") + AfterName(selector)
       && (filename.Some? ==> IsFilename(filename.value)) && (selector.Some? ==> IsSelector(selector.value)) {
      ParsedParts(s, filename, selector);
    }
  }

  /** A specifier is an optional file name - optionally `~/`, then at least one of the allowed characters, then
      `.json` in any case - and optionally `#` and a selector, which may end in a bit mask. */
  lemma SpecifierIff(s: string, filename: Option<string>, selector: Option<string>)
    ensures ParseSpecifier(s) == Some(Specifier(filename, selector)) <==>
            && s == (if filename.Some? then filename.value else "")
                    + (if selector.Some? then "#" + selector.value else "")
            && (filename.Some? ==> exists tilde, name, dot :: NamesJson(filename.value, tilde, name, dot))
            && (selector.Some? ==> exists path, mask :: Selects(selector.value, path, mask))
  {
    hide IsFilename, IsSelector, NamesJson, Selects, ParseSpecifier;
    if filename.Some? {
      FilenameIff(filename.value);
    }
    if selector.Some? {
      SelectorIff(selector.value);
    }
    SpecifierParts(s, filename, selector);
  }

  // ---- What becomes of the values in a file

  /** `r` is `v` with its imports replaced: an object is resolved; of an array, the objects directly in it are; and
      anything else stays as it is. */
  ghost predicate IsResolved(fs: FileSystem, filename: string, visited: seq<string>, v: Json, r: Json) {
    match v
    case Obj(_) => IsResolvedObject(fs, filename, visited, v, r)
    case Arr(items) =>
      r.Arr? && |r.items| == |items|
      && forall i | 0 <= i < |items| ::
           if items[i].Obj? then IsResolvedObject(fs, filename, visited, items[i], r.items[i])
           else r.items[i] == items[i]
    case _ => r == v
  }

  ghost predicate IsResolvedObject(fs: FileSystem, filename: string, visited: seq<string>, v: Json, r: Json) {
    && v.Obj? && r.Obj? && FieldImports(v.fields) <= AllImports(fs)
    && ResolveFields(fs, v.fields, filename, visited) == Ok(r.fields)
  }

  lemma {:induction false} ItemsAreResolved(fs: FileSystem, items: seq<Json>, filename: string, visited: seq<string>)
    requires ItemImports(items) <= AllImports(fs) && ResolveItems(fs, items, filename, visited).Ok?
    ensures IsResolved(fs, filename, visited, Arr(items), Arr(ResolveItems(fs, items, filename, visited).value))
    decreases |items|
  {
    hide AllImports, ResolveFields;
    if items != [] {
      ItemsAreResolved(fs, items[..|items| - 1], filename, visited);
      ItemImportsContain(items, |items| - 1);
    }
  }

  /** An ordinary property that no later field or import overrides: the result holds its resolved value. */
  lemma {:induction false} PropertyIsResolved(fs: FileSystem, fields: Fields, i: nat, filename: string,
                                              visited: seq<string>)
    requires FieldImports(fields) <= AllImports(fs) && ResolveFields(fs, fields, filename, visited).Ok?
    requires i < |fields| && fields[i].key != "$import"
    requires forall j | i < j < |fields| :: fields[j].key != "$import" && fields[j].key != fields[i].key
    ensures var v := Lookup(ResolveFields(fs, fields, filename, visited).value, fields[i].key);
            v.Some? && IsResolved(fs, filename, visited, fields[i].value, v.value)
    decreases |fields|
  {
    hide AllImports, Put, Lookup, IsResolved;
    var n := |fields| - 1;
    var ret, last := ResolveFields(fs, fields[..n], filename, visited).value, fields[n];
    LookupPut(ret, last.key, ResolveValue(fs, last.value, filename, visited).value, fields[i].key);
    if i < n {
      PropertyIsResolved(fs, fields[..n], i, filename, visited);
    } else {
      ValueIsResolved(fs, last.value, filename, visited);
    }
  }

  lemma ValueIsResolved(fs: FileSystem, v: Json, filename: string, visited: seq<string>)
    requires ImportStrings(v) <= AllImports(fs) && ResolveValue(fs, v, filename, visited).Ok?
    ensures IsResolved(fs, filename, visited, v, ResolveValue(fs, v, filename, visited).value)
  {
    hide AllImports, ResolveFields, ResolveItems;
    if v.Arr? {
      ItemsAreResolved(fs, v.items, filename, visited);
    }
  }

  /** The last import of an object: the result holds every key of the imported file that no later field overrides. */
  lemma {:induction false} ImportIsResolved(fs: FileSystem, fields: Fields, i: nat, filename: string,
                                            visited: seq<string>, k: string)
    requires FieldImports(fields) <= AllImports(fs) && ResolveFields(fs, fields, filename, visited).Ok?
    requires i < |fields| && fields[i].key == "$import"
    requires forall j | i < j < |fields| :: fields[j].key != "$import" && fields[j].key != k
    ensures var target := Target(fs, filename, fields[i].value);
            && target.Ok? && Known(fs, target.value.selector) && ResolveFile(fs, target.value, visited).Ok?
            && var imported := ResolveFile(fs, target.value, visited).value;
               HasKey(imported, k) ==>
                 Lookup(ResolveFields(fs, fields, filename, visited).value, k) == Lookup(imported, k)
    decreases |fields|
  {
    hide AllImports, Put, Assign, Lookup, ResolveFile, Target, Known;
    var n := |fields| - 1;
    var ret, last := ResolveFields(fs, fields[..n], filename, visited).value, fields[n];
    if i < n {
      ImportIsResolved(fs, fields[..n], i, filename, visited, k);
      LookupPut(ret, last.key, ResolveValue(fs, last.value, filename, visited).value, k);
    } else {
      var target := Target(fs, filename, last.value).value;
      assert last.value.Str? && last.value.s in AllImports(fs) by {
        ImportIsString(fs, fields, filename);
      }
      TargetIsKnown(fs, filename, last.value);
      LookupAssign(ret, ResolveFile(fs, target, visited).value, k);
    }
  }

  lemma ImportIsString(fs: FileSystem, fields: Fields, filename: string)
    requires fields != [] && FieldImports(fields) <= AllImports(fs)
    requires fields[|fields| - 1].key == "$import" && Target(fs, filename, fields[|fields| - 1].value).Ok?
    ensures fields[|fields| - 1].value.Str? && fields[|fields| - 1].value.s in AllImports(fs)
  {
    FieldImportsContain(fields, |fields| - 1);
  }

  // ---- Root directories and templates

  ghost predicate InsideRoots(fs: FileSystem, rootDirs: RootDirs, filename: string) {
    match rootDirs
    case Unlimited => true
    case OneRoot(dir) => !fs.outside(dir, filename)
    case Roots(dirs) => exists d | d in dirs :: !fs.outside(d, filename)
  }

  /** With root directories, a file outside all of them is refused before anything else; a file inside one of them is
      resolved unless it is on the import stack or its content, selector or imports stand against that. */
  lemma OutsideIsRefused(fs: FileSystem, rootDirs: RootDirs, n: Node, visited: seq<string>)
    requires Known(Limited(fs, rootDirs), n.selector)
    ensures var seen := Limited(fs, rootDirs);
            if !InsideRoots(fs, rootDirs, n.filename) then ResolveFile(seen, n, visited) == Err(Invalid)
            else if SpecifierOf(n) in visited then ResolveFile(seen, n, visited) == Err(Circular)
            else ResolveFile(seen, n, visited).Ok? <==>
                 Load(seen, n).Ok? && forall v | FieldHasImport(Load(seen, n).value, v) ::
                   ImportResolves(seen, n.filename, visited + [SpecifierOf(n)], v)
  {
    hide Load, FieldHasImport, ImportResolves, Known, SpecifierOf;
    FileResolves(Limited(fs, rootDirs), n, visited);
  }

  ghost predicate InTemplates(f: string, before: string, slash: char, slash': char, after: string) {
    && f == before + [slash] + "templates" + [slash'] + after
    && (slash == '/' || slash == '\\') && (slash' == '/' || slash' == '\\')
  }

  lemma TemplateAt(f: string, i: nat)
    requires i <= |f| - 11
    ensures f == f[..i] + [f[i]] + f[i + 1..i + 10] + [f[i + 10]] + f[i + 11..]
  {
    var a, b := f[..i] + [f[i]], f[i + 1..i + 10] + [f[i + 10]];
    assert a == f[..i + 1] && b == f[i + 1..i + 11];
    assert a + f[i + 1..i + 10] + [f[i + 10]] == a + b;
  }

  lemma TemplateParts(f: string, before: string, slash: char, slash': char, after: string)
    requires InTemplates(f, before, slash, slash', after)
    ensures IsTemplate(f)
  {
    var i, t := |before|, "templates";
    assert f == before + ([slash] + (t + ([slash'] + after)));
    assert f[i..] == [slash] + (t + ([slash'] + after));
    assert f[i + 1..] == f[i..][1..] == t + ([slash'] + after);
    assert f[i + 1..i + 10] == f[i + 1..][..9] == t;
    assert f[i] == f[i..][0] && f[i + 10] == f[i + 1..][9];
    assert IsSlash(f[i]) && IsSlash(f[i + 10]);
  }

  /** A template lies in a directory called `templates`, at any depth. */
  lemma TemplateIff(f: string)
    ensures IsTemplate(f) <==> exists before, slash, slash', after :: InTemplates(f, before, slash, slash', after)
  {
    if IsTemplate(f) {
      var i :| 0 <= i <= |f| - 11
               && IsSlash(f[i]) && f[i + 1..i + 10] == "templates" && IsSlash(f[i + 10]);
      TemplateAt(f, i);
      assert InTemplates(f, f[..i], f[i], f[i + 10], f[i + 11..]);
    }
    if before, slash, slash', after :| InTemplates(f, before, slash, slash', after) {
      hide InTemplates;
      TemplateParts(f, before, slash, slash', after);
    }
  }
}
