/** The input handling of DCTReduxGUI.py: normalising the input directory
    and expanding a filename pattern into the list of FITS files to load. */
module FileNames {
  import opened PyOps
  import opened Outcomes

  /** The characters the GUI accepts as a trailing directory separator. */
  const PathSeparators := {'\\', '/'}

  /** The first step of `loadImages`: append `/` unless the path already
      ends in `\` or `/`. */
  function NormalizePath(path: string): (r: Result<string>)
    ensures r.Err? <==> path == []
    ensures r.Ok? ==> r.value != [] && Last(r.value) in PathSeparators
    ensures r.Ok? ==> r.value == path || r.value == path + "/"
    ensures r.Ok? ==> path != [] && (r.value == path <==> Last(path) in PathSeparators)
  {
    if path == [] then Err(EmptyPath)
    else if Last(path) != '\\' && Last(path) != '/' then Ok(path + "/")
    else Ok(path)
  }

  /** Normalising a normalised path changes nothing. */
  lemma NormalizeIdempotent(path: string)
    requires path != []
    ensures NormalizePath(NormalizePath(path).value) == NormalizePath(path)
  {
    var once := NormalizePath(path).value;
    assert Last(once) in PathSeparators;
  }

  /** What `__getFiles` returns: a directory and the files in it, or, for a
      `*` pattern, the directory to list. In the latter case the caller keeps
      the listed names that match `pattern + ".fits"` and, when none does,
      uses `[pattern + ".fits"]`. */
  datatype Expansion =
    | Listed(path: string, files: seq<string>)
    | ListDirectory(path: string, pattern: string)

  /** The pattern with every `.fits` removed, as `__getFiles` first does. */
  function Stem(filenames: string): (s: string)
    ensures |s| <= |filenames|
    ensures forall j :: 0 <= j < |s| ==> s[j] in filenames
    ensures !Contains(filenames, ".fits") ==> s == filenames
  {
    if Contains(filenames, ".fits") then
      ReplaceChars(filenames, ".fits", "");
      ReplaceAll(filenames, ".fits", "")
    else filenames
  }

  /** `s.replace(' ', '')`. */
  function NoSpaces(s: string): (r: string)
    ensures ' ' !in r
  {
    ReplaceAll(s, " ", "")
  }

  /** Removing spaces keeps every other character, in order: a space
      disappears and any other character stays where it was. */
  lemma NoSpacesSplice(a: string, x: char, b: string)
    ensures NoSpaces(a + [x] + b) == NoSpaces(a) + (if x == ' ' then [] else [x]) + NoSpaces(b)
  {
    ReplaceCharConcat(a + [x], b, ' ', "");
    ReplaceCharConcat(a, [x], ' ', "");
    ReplaceCharSingle(x, ' ', "");
  }

  /** `[prefix + p + '.fits' for p in fields]`. */
  function WithExtension(prefix: string, fields: seq<string>): (files: seq<string>)
    ensures |files| == |fields|
    ensures forall i :: 0 <= i < |fields| ==> files[i] == prefix + fields[i] + ".fits"
  {
    seq(|fields|, i requires 0 <= i < |fields| => prefix + fields[i] + ".fits")
  }

  /** The fallback at the end of `__getFiles`: an empty list becomes the
      pattern itself with the extension put back. */
  function OrSingle(files: seq<string>, stem: string): (r: seq<string>)
    ensures |r| >= 1
    ensures files != [] ==> r == files
  {
    if files == [] then [stem + ".fits"] else files
  }

  /** Where one `rfind` step cuts the pattern: just after its last c, or at
      the start when there is none. */
  function CutIndex(pattern: string, c: char): (k: nat)
    ensures k <= |pattern|
    ensures k > 0 <==> c in pattern
    ensures k > 0 ==> pattern[k - 1] == c
    ensures forall j :: k <= j < |pattern| ==> pattern[j] != c
  {
    if c in pattern then RFind(pattern, c) + 1 else 0
  }

  /** One `rfind` step of the wildcard branch: move everything up to the last
      c, and c itself, from the pattern to the directory; without a c
      nothing moves. */
  function CutAt(path: string, pattern: string, c: char): (r: (string, string))
    ensures var k := CutIndex(pattern, c); r == (path + pattern[..k], pattern[k..])
  {
    if c in pattern then
      var k := RFind(pattern, c);
      assert pattern[0..k] + [c] == pattern[..k + 1];
      assert path + pattern[0..k] + [c] == path + pattern[..k + 1];
      (path + pattern[0..k] + [c], pattern[k + 1..])
    else
      assert pattern[..0] == [] && pattern[0..] == pattern;
      assert path + [] == path;
      (path, pattern)
  }

  /** The directory and name pattern of the wildcard branch: the pattern is
      the last field of the stem split at both separators, and the directory
      gains everything before it. Listing the directory is not part of the
      model. */
  function Wildcard(path: string, stem: string): (r: Expansion)
    ensures r.ListDirectory?
    ensures r.path + r.pattern == path + stem
    ensures NoneOf(r.pattern, PathSeparators)
    ensures r.pattern == Last(Split(stem, PathSeparators))
    ensures |r.pattern| <= |stem| && r.path == path + stem[..|stem| - |r.pattern|]
  {
    var first := CutAt(path, stem, '\\');
    var second := CutAt(first.0, first.1, '/');
    WildcardCuts(path, stem);
    ListDirectory(second.0, second.1)
  }

  /** The two cuts of the wildcard branch, after the last '\\' and then
      after the last '/', together cut the stem once, right after its last
      separator. */
  lemma WildcardCuts(path: string, stem: string)
    ensures var first := CutAt(path, stem, '\\');
      var second := CutAt(first.0, first.1, '/');
      second.0 + second.1 == path + stem &&
      NoneOf(second.1, PathSeparators) &&
      second.1 == Last(Split(stem, PathSeparators)) &&
      |second.1| <= |stem| && second.0 == path + stem[..|stem| - |second.1|]
  {
    var k1 := CutIndex(stem, '\\');
    var first := CutAt(path, stem, '\\');
    var k2 := CutIndex(stem[k1..], '/');
    var second := CutAt(first.0, first.1, '/');
    PatternAfterCuts(path, stem, k1, k2, second);
  }

  /** The result of cutting the stem after its last '\\' (at k1) and then
      after the last '/' of the rest (at k2). */
  lemma PatternAfterCuts(path: string, stem: string, k1: nat, k2: nat, second: (string, string))
    requires k1 <= |stem| && k2 <= |stem| - k1
    requires k1 == 0 || stem[k1 - 1] == '\\'
    requires forall j :: k1 <= j < |stem| ==> stem[j] != '\\'
    requires k2 == 0 || stem[k1..][k2 - 1] == '/'
    requires forall j :: k2 <= j < |stem[k1..]| ==> stem[k1..][j] != '/'
    requires second == (path + stem[..k1] + stem[k1..][..k2], stem[k1..][k2..])
    ensures second.0 + second.1 == path + stem
    ensures NoneOf(second.1, PathSeparators)
    ensures second.1 == Last(Split(stem, PathSeparators))
    ensures |second.1| <= |stem| && second.0 == path + stem[..|stem| - |second.1|]
  {
    TwoCuts(path, stem, k1, k2);
    var k := k1 + k2;
    LastFieldAt(stem, k);
    CutJoins(path, stem, k, second.0, second.1);
  }

  /** Cutting the stem at k, right after its last separator, leaves its last
      field. */
  lemma LastFieldAt(stem: string, k: int)
    requires 0 <= k <= |stem| && NoneOf(stem[k..], PathSeparators)
    requires k == 0 || stem[k - 1] in PathSeparators
    ensures stem[k..] == Last(Split(stem, PathSeparators))
  {
    var prefix := stem[..k];
    assert prefix + stem[k..] == stem;
    if k > 0 {
      assert Last(prefix) == stem[k - 1];
    }
    LastAfterSeparator(prefix, stem[k..], PathSeparators);
  }

  /** Cutting the stem at k moves its first k characters to the directory
      and loses none. */
  lemma CutJoins(path: string, stem: string, k: int, dir: string, pattern: string)
    requires 0 <= k <= |stem| && dir == path + stem[..k] && pattern == stem[k..]
    ensures dir + pattern == path + stem
    ensures |pattern| <= |stem| && dir == path + stem[..|stem| - |pattern|]
  {
    assert stem[..k] + pattern == stem;
    assert dir + pattern == path + (stem[..k] + pattern);
  }

  /** Cutting stem at k1 and then its rest at k2 is cutting it at k1 + k2;
      with no '\\' from k1 on and no '/' in the rest from k2 on, no
      separator follows the cut. */
  lemma TwoCuts(path: string, stem: string, k1: nat, k2: nat)
    requires k1 <= |stem| && k2 <= |stem| - k1
    requires k1 == 0 || stem[k1 - 1] == '\\'
    requires forall j :: k1 <= j < |stem| ==> stem[j] != '\\'
    requires k2 == 0 || stem[k1..][k2 - 1] == '/'
    requires forall j :: k2 <= j < |stem[k1..]| ==> stem[k1..][j] != '/'
    ensures var k := k1 + k2;
      (path + stem[..k1] + stem[k1..][..k2], stem[k1..][k2..]) == (path + stem[..k], stem[k..]) &&
      NoneOf(stem[k..], PathSeparators) && (k == 0 || stem[k - 1] in PathSeparators)
  {
    var k := k1 + k2;
    var f1 := stem[k1..];
    assert f1[k2..] == stem[k..];
    assert stem[..k1] + f1[..k2] == stem[..k];
    assert path + stem[..k1] + f1[..k2] == path + stem[..k];
    forall j | 0 <= j < |stem[k..]| ensures stem[k..][j] !in PathSeparators {
      assert stem[k..][j] == f1[k2 + j];
    }
    if k2 > 0 {
      assert stem[k - 1] == f1[k2 - 1];
    }
  }

  /** The bracket fields: what follows the `[` loses its last character and
      its spaces, and is split at commas. */
  function BracketFields(postfix: string): (fields: seq<string>)
    ensures var inner := PySlice(postfix, 0, -1);
      |fields| == CountOf(inner, {','}) + 1 &&
      Join(fields, ',') == NoSpaces(inner) &&
      forall i :: 0 <= i < |fields| ==> NoneOf(fields[i], {','}) && ' ' !in fields[i]
  {
    var inner := PySlice(postfix, 0, -1);
    SplitLength(NoSpaces(inner), {','});
    RemoveKeepsCount(inner, ' ', {','});
    SplitJoin(NoSpaces(inner), ',');
    SplitAvoids(NoSpaces(inner), {','}, ' ');
    Split(NoSpaces(inner), {','})
  }

  /** The comma fields: the pattern loses its spaces and is split at commas. */
  function CommaFields(stem: string): (fields: seq<string>)
    ensures |fields| == CountOf(stem, {','}) + 1
    ensures Join(fields, ',') == NoSpaces(stem)
    ensures forall i :: 0 <= i < |fields| ==> NoneOf(fields[i], {','}) && ' ' !in fields[i]
  {
    SplitLength(NoSpaces(stem), {','});
    RemoveKeepsCount(stem, ' ', {','});
    SplitJoin(NoSpaces(stem), ',');
    SplitAvoids(NoSpaces(stem), {','}, ' ');
    Split(NoSpaces(stem), {','})
  }

  /** `__getFiles(PATH, filenames)`: strip `.fits`; a `*` defers to a
      directory listing; otherwise a `[`..`]` pair expands to
      `prefix + field + ".fits"`, then a comma list to `field + ".fits"`, and
      anything else names the one file `stem + ".fits"`. Apart from the
      wildcard branch the directory is returned as given and the list is
      never empty. */
  function GetFiles(path: string, filenames: string): (r: Result<Expansion>)
    ensures var s := Stem(filenames);
      r.Err? <==> '*' !in s && '[' in s && ']' in s && CountOf(s, {'['}) >= 2
    ensures r.Ok? && r.value.Listed? ==> r.value.path == path && |r.value.files| >= 1
    ensures r.Ok? && r.value.ListDirectory? ==>
      r.value.path + r.value.pattern == path + Stem(filenames) && NoneOf(r.value.pattern, PathSeparators)
    ensures '*' in Stem(filenames) ==> r == Ok(Wildcard(path, Stem(filenames)))
  {
    var s := Stem(filenames);
    if '*' in s then Ok(Wildcard(path, s))
    else if '[' in s && ']' in s then
      var parts := Split(s, {'['});
      SplitLength(s, {'['});
      CountZero(s, {'['});
      if |parts| != 2 then Err(UnpackMismatch)
      else Ok(Listed(path, OrSingle(WithExtension(parts[0], BracketFields(parts[1])), s)))
    else if ',' in s then Ok(Listed(path, OrSingle(WithExtension("", CommaFields(s)), s)))
    else Ok(Listed(path, OrSingle([], s)))
  }

  /** A pattern ending in `.fits` expands as the same pattern without it. */
  lemma ExtensionIgnored(path: string, input: string, x: string)
    requires input == x + ".fits"
    ensures GetFiles(path, input) == GetFiles(path, x)
  {
    var pat := ".fits";
    assert pat[0] !in pat[1..];
    ContainsSuffix(x, pat);
    ReplaceAppend(x, pat, "");
    if !Contains(x, pat) {
      ReplaceAbsent(x, pat, "");
    }
    assert ReplaceAll(x, pat, "") + "" == ReplaceAll(x, pat, "");
    assert Stem(input) == Stem(x);
  }

  /** A pattern with no `*`, no bracket pair and no comma names one file. */
  lemma SingleName(path: string, x: string)
    requires var s := Stem(x); '*' !in s && !('[' in s && ']' in s) && ',' !in s
    ensures GetFiles(path, x) == Ok(Listed(path, [Stem(x) + ".fits"]))
  {
  }

  /** A comma list gives one file per field, in order, one more than there
      are commas: each field is free of spaces and commas, and joining the
      fields with commas gives back the pattern without its spaces. */
  lemma CommaList(path: string, x: string)
    requires var s := Stem(x); '*' !in s && !('[' in s && ']' in s) && ',' in s
    ensures var s := Stem(x); var fields := CommaFields(s);
      GetFiles(path, x) == Ok(Listed(path, WithExtension("", fields))) &&
      |fields| == CountOf(s, {','}) + 1 &&
      Join(fields, ',') == NoSpaces(s) &&
      forall i :: 0 <= i < |fields| ==> NoneOf(fields[i], {','}) && ' ' !in fields[i]
  {
  }

  /** The bracket form `prefix[body` (body holding the closing bracket as its
      last character) gives `prefix + field + ".fits"` for each field of the
      body, in order, whatever commas the prefix holds. */
  lemma BracketList(path: string, x: string, prefix: string, body: string)
    requires Stem(x) == prefix + "[" + body
    requires '[' !in prefix && '[' !in body && ']' in Stem(x) && '*' !in Stem(x)
    ensures var inner := PySlice(body, 0, -1); var fields := BracketFields(body);
      GetFiles(path, x) == Ok(Listed(path, WithExtension(prefix, fields))) &&
      |fields| == CountOf(inner, {','}) + 1 &&
      Join(fields, ',') == NoSpaces(inner) &&
      forall i :: 0 <= i < |fields| ==> NoneOf(fields[i], {','}) && ' ' !in fields[i]
  {
    var s := Stem(x);
    assert NoneOf(prefix, {'['});
    assert NoneOf(body, {'['});
    SplitFirst(prefix, '[', body, {'['});
    SplitNone(body, {'['});
    assert s == prefix + ['['] + body;
    assert Split(s, {'['}) == [prefix, body];
    assert '[' in s by {
      assert s[|prefix|] == '[';
    }
  }

  /** The example of the input help text: `bias_0[1,2,3].fits` names
      bias_01.fits, bias_02.fits and bias_03.fits. */
  lemma HelpTextExample(path: string, input: string)
    requires input == "bias_0[1,2,3].fits"
    ensures GetFiles(path, input) == Ok(Listed(path, ["bias_01.fits", "bias_02.fits", "bias_03.fits"]))
  {
    ExampleInput(path, input, "bias_0[1,2,3]");
    ExampleListed(path, "bias_0[1,2,3]");
  }

  /** The example's extension is ignored. */
  lemma ExampleInput(path: string, input: string, x: string)
    requires input == "bias_0[1,2,3].fits" && x == "bias_0[1,2,3]"
    ensures GetFiles(path, input) == GetFiles(path, x)
  {
    ExtensionIgnored(path, input, x);
  }

  /** The example without its extension names the three files. */
  lemma ExampleListed(path: string, x: string)
    requires x == "bias_0[1,2,3]"
    ensures GetFiles(path, x) == Ok(Listed(path, ["bias_01.fits", "bias_02.fits", "bias_03.fits"]))
  {
    var prefix, body := "bias_0", "1,2,3]";
    ExampleExpands(path, x, prefix, body);
    ExampleFiles(prefix, body);
  }

  /** The example is a bracket list with prefix `bias_0`. */
  lemma ExampleExpands(path: string, x: string, prefix: string, body: string)
    requires x == "bias_0[1,2,3]" && prefix == "bias_0" && body == "1,2,3]"
    ensures GetFiles(path, x) == Ok(Listed(path, WithExtension(prefix, BracketFields(body))))
  {
    assert x == prefix + "[" + body;
    ExampleStem(x);
    BracketList(path, x, prefix, body);
  }

  /** Its three fields with the prefix and extension put on. */
  lemma ExampleFiles(prefix: string, body: string)
    requires prefix == "bias_0" && body == "1,2,3]"
    ensures WithExtension(prefix, BracketFields(body)) == ["bias_01.fits", "bias_02.fits", "bias_03.fits"]
  {
    ExampleFields(body);
    var files := WithExtension(prefix, BracketFields(body));
    assert files[0] == prefix + "1" + ".fits" == "bias_01.fits";
    assert files[1] == prefix + "2" + ".fits" == "bias_02.fits";
    assert files[2] == prefix + "3" + ".fits" == "bias_03.fits";
  }

  /** The example holds no `.fits` once the extension is gone. */
  lemma ExampleStem(x: string)
    requires x == "bias_0[1,2,3]"
    ensures Stem(x) == x
  {
    if Contains(x, ".fits") {
      ContainsFirst(x, ".fits");
    }
  }

  /** The bracket body `1,2,3]` has the fields 1, 2 and 3. */
  lemma ExampleFields(body: string)
    requires body == "1,2,3]"
    ensures BracketFields(body) == ["1", "2", "3"]
  {
    var inner := PySlice(body, 0, -1);
    assert inner == "1,2,3";
    ReplaceCharAbsent(inner, ' ', "");
    assert inner == "1" + [','] + ("2" + [','] + "3");
    SplitFirst("1", ',', "2" + [','] + "3", {','});
    SplitFirst("2", ',', "3", {','});
    SplitNone("3", {','});
  }
}
