/** The syntax of `$import` values: an optional file name, then optionally `#` and a selector. */
module ImportSpecifier {
  import opened Collections
  import opened Text
  import opened Wrappers

  datatype Specifier = Specifier(filename: Option<string>, selector: Option<string>)

  predicate IsWordChar(c: char) {
    'a' <= c <= 'z' || 'A' <= c <= 'Z' || IsDigit(c) || c == '_'
  }

  predicate IsSelectorChar(c: char) {
    IsWordChar(c) || c == '/' || c == '.' || c == '-'
  }

  predicate IsFilenameChar(c: char) {
    IsSelectorChar(c) || c == '\\'
  }

  /** The extension is matched without regard to case. */
  predicate EndsWithJson(s: string) {
    && |s| >= 5
    && var e := s[|s| - 5..];
       e[0] == '.' && (e[1] == 'j' || e[1] == 'J') && (e[2] == 's' || e[2] == 'S')
       && (e[3] == 'o' || e[3] == 'O') && (e[4] == 'n' || e[4] == 'N')
  }

  predicate IsPath(s: string) {
    |s| > 5 && EndsWithJson(s) && forall i | 0 <= i < |s| :: IsFilenameChar(s[i])
  }

  predicate IsFilename(s: string) {
    IsPath(if "~/" <= s then s[2..] else s)
  }

  /** A bit mask such as `[0xff]`, which selects a partial parameter. */
  predicate IsBitMask(s: string) {
    && |s| >= 5 && s[0] == '[' && s[1] == '0' && (s[2] == 'x' || s[2] == 'X') && s[|s| - 1] == ']'
    && forall i | 3 <= i < |s| - 1 :: IsHexDigit(s[i])
  }

  predicate IsSelector(s: string) {
    exists k | 0 < k <= |s| ::
      (k == |s| || IsBitMask(s[k..])) && forall i | 0 <= i < k :: IsSelectorChar(s[i])
  }

  /** Matches an `$import` value.  Neither part can hold a `#`, so the parts determine the value. */
  function ParseSpecifier(s: string): (r: Option<Specifier>)
    ensures r.Some? && r.value.selector.Some? ==> r.value.selector.value != "" && '#' !in r.value.selector.value
    ensures r.Some? ==> s == (if r.value.filename.Some? then r.value.filename.value else "")
                             + (if r.value.selector.Some? then "#" + r.value.selector.value else "")
  {
    hide IsFilename, IsSelector;
    var h := IndexOf(s, '#');
    var file := s[..h];
    if file != "" && !IsFilename(file) then None
    else
      var filename := if file == "" then None else Some(file);
      if h == |s| then Some(Specifier(filename, None))
      else if IsSelector(s[h + 1..]) then
        SplitAtHash(s, h);
        SelectorHasNoHash(s[h + 1..]);
        Some(Specifier(filename, Some(s[h + 1..])))
      else None
  }

  lemma SplitAtHash(s: string, h: nat)
    requires h < |s| && s[h] == '#'
    ensures s == s[..h] + "#" + s[h + 1..] == s[..h] + ("#" + s[h + 1..])
  {
  }

  lemma SelectorHasNoHash(s: string)
    requires IsSelector(s)
    ensures s != "" && '#' !in s
  {
  }
}
