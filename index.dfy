/**
 * The language-service plugin of src/index.ts: the alias cache kept in step
 * with the addon files, the virtual-path codec that gives each module of a
 * multi-module file its own path, the `readFile` and `fileExists`
 * interceptors, the module-resolution decision and the directory-watcher
 * registry.
 *
 * The host's services are parameters: file contents arrive as
 * `Option<string>` (`undefined` is `None`), `resolvePath`, `fileExists` and
 * `readFile` are functions, the two regular-expression detectors are
 * functions from contents to aliases, a watcher is a handle number, and
 * `refreshDiagnostics` is a counter.
 */
module Plugin {
  import opened Wrappers
  import opened JsString
  import JsMap
  import opened Scanning
  import opened AstPatch

  /* ---------------------------------------------------------------------
   * search and exclude
   * --------------------------------------------------------------------- */

  /** `search(src, ...needle)`: some needle occurs in `src`. */
  function Search(src: string, needles: seq<string>): (r: bool)
    ensures r <==> exists i :: 0 <= i < |needles| && Contains(src, needles[i])
  {
    if needles == [] then false
    else if IndexOf(src, needles[0]) != -1 then true
    else
      var r := Search(src, needles[1..]);
      assert forall i :: 1 <= i < |needles| ==> needles[i] == needles[1..][i - 1];
      r
  }

  /** `exclude(left, right)`: `left.filter((elm) => !right.includes(elm))`. */
  function Exclude<T(==)>(left: seq<T>, right: seq<T>): (r: seq<T>)
    ensures |r| <= |left|
  {
    if left == [] then []
    else if left[0] in right then Exclude(left[1..], right)
    else [left[0]] + Exclude(left[1..], right)
  }

  /**
   * `exclude` keeps exactly the elements of `left` that are not in `right`,
   * each as often as it occurs in `left`.
   */
  lemma {:induction false} ExcludeSpec<T>(left: seq<T>, right: seq<T>)
    ensures forall x :: x in Exclude(left, right) <==> x in left && x !in right
    ensures forall x :: x !in right ==> multiset(Exclude(left, right))[x] == multiset(left)[x]
    ensures forall x :: x in right ==> multiset(Exclude(left, right))[x] == 0
  {
    if left != [] {
      ExcludeSpec(left[1..], right);
      assert left == [left[0]] + left[1..];
    }
  }

  /** The filter keeps order: excluding from a concatenation concatenates the results. */
  lemma {:induction false} ExcludeAppend<T>(a: seq<T>, b: seq<T>, right: seq<T>)
    ensures Exclude(a + b, right) == Exclude(a, right) + Exclude(b, right)
  {
    if a == [] {
      assert a + b == b;
    } else {
      assert (a + b)[0] == a[0] && (a + b)[1..] == a[1..] + b;
      ExcludeAppend(a[1..], b, right);
      if a[0] !in right {
        assert [a[0]] + (Exclude(a[1..], right) + Exclude(b, right))
            == ([a[0]] + Exclude(a[1..], right)) + Exclude(b, right);
      }
    }
  }

  /* ---------------------------------------------------------------------
   * The virtual-path codec
   * --------------------------------------------------------------------- */

  /** `VIRTUAL` */
  const Virtual := "#"

  /** The path of one module of a multi-module file: `${file}#${alias}${extname(file)}`. */
  function Encode(file: string, alias: string): (path: string)
    ensures |path| == |file| + 1 + |alias| + |Extname(file)|
    ensures path[..|file|] == file && path[|file|] == '#'
    ensures path[|file| + 1..|file| + 1 + |alias|] == alias
  {
    file + Virtual + alias + Extname(file)
  }

  /** A virtual path split into the physical file and the module alias. */
  datatype VirtualPath = VirtualPath(file: string, alias: string)

  /**
   * Split a path at its last `#`: the physical file is what precedes it,
   * the alias what follows it up to the path's extension. A path without
   * `#` is not virtual. When the extension reaches back over the `#`,
   * `substring` swaps its bounds, as JavaScript does.
   */
  function Decode(path: string): (r: Option<VirtualPath>)
    ensures r.None? <==> '#' !in path
    ensures r.Some? ==> var n := |r.value.file|; n < |path| && path[n] == '#' && r.value.file == path[..n]
    ensures r.Some? ==> '#' !in path[|r.value.file| + 1..]
    ensures r.Some? && |r.value.file| + 1 <= |path| - |Extname(path)| ==>
              r.value.alias == path[|r.value.file| + 1..|path| - |Extname(path)|]
  {
    var virtual := LastIndexOf(path, Virtual);
    LastIndexOfAbsent(path, '#');
    if virtual == -1 then None
    else
      OccursAtChar(path, '#', virtual);
      assert Substring(path, 0, virtual) == path[..virtual];
      assert '#' !in path[virtual + 1..] by {
        forall i | virtual + 1 <= i < |path| ensures path[i] != '#' {
          OccursAtChar(path, '#', i);
        }
      }
      Some(VirtualPath(Substring(path, 0, virtual),
                       Substring(path, virtual + |Virtual|, |path| - |Extname(path)|)))
  }

  /** The last component of `pre + tail`, when `tail` holds no separator, ends with `tail`. */
  lemma BasenameEndsWith(pre: string, tail: string)
    requires |tail| > 0 && '/' !in tail
    ensures var b := Basename(pre + tail); |tail| <= |b| && b[|b| - |tail|..] == tail
  {
    var p := pre + tail;
    assert p[|p| - 1] == tail[|tail| - 1];
    assert TrimTrailingSlashes(p) == p;
    var k := LastIndexOf(p, "/");
    OccursAtChar(p, '/', k);
    forall j | |pre| <= j < |p| ensures p[j] != '/' {
      assert p[j] == tail[j - |pre|];
    }
    assert Basename(p) == p[k + 1..];
  }

  /** A name ending in `mid + e` ends in `e`, preceded by `mid`. */
  lemma SuffixParts(b: string, mid: string, e: string)
    requires |mid + e| <= |b| && b[|b| - |mid + e|..] == mid + e
    ensures b[|b| - |e|..] == e && b[|b| - |e| - |mid|..|b| - |e|] == mid
  {
    var n := |b| - |mid + e|;
    assert b[n..][|mid|..] == e;
    assert b[n..][..|mid|] == mid;
  }

  /** A path's extension is `e` when its last component ends in `e` after at least one character and is not `..`. */
  lemma ExtnameFromBasename(p: string, e: string)
    requires |e| > 0 && e[0] == '.' && '.' !in e[1..]
    requires |e| < |Basename(p)| && Basename(p)[|Basename(p)| - |e|..] == e && Basename(p) != ".."
    ensures Extname(p) == e
  {
    LastIndexOfSuffix(Basename(p), '.', e);
  }

  /** `extname` of `pre + mid + e` is `e` when `e` is an extension and `mid` is a plain, non-empty name part. */
  lemma ExtnameOfSuffix(pre: string, mid: string, e: string)
    requires |e| > 0 && e[0] == '.' && '/' !in e && '.' !in e[1..]
    requires |mid| > 0 && '/' !in mid && mid != "."
    ensures Extname(pre + (mid + e)) == e
  {
    var p := pre + (mid + e);
    BasenameEndsWith(pre, mid + e);
    var b := Basename(p);
    SuffixParts(b, mid, e);
    assert b != ".." by {
      if |b| == 2 {
        assert mid == [mid[0]] && b[0] == mid[0] != '.';
      }
    }
    ExtnameFromBasename(p, e);
  }

  /** The `#` of an encoded path is its last one. */
  lemma EncodedSeparator(file: string, alias: string)
    requires '#' !in alias && '#' !in Extname(file)
    ensures LastIndexOf(Encode(file, alias), Virtual) == |file|
  {
    var e := Extname(file);
    assert Encode(file, alias) == file + ['#'] + (alias + e);
    LastIndexOfSeparator(file, '#', alias + e);
  }

  /** What follows the alias's last `/`: the whole alias when it has none. */
  function AliasTail(alias: string): (t: string)
    ensures '/' !in t && |t| <= |alias| && alias[|alias| - |t|..] == t
    ensures '/' !in alias ==> t == alias
  {
    var k := LastIndexOf(alias, "/");
    LastIndexOfAbsent(alias, '/');
    var t := alias[k + 1..];
    assert '/' !in t by {
      forall i | 0 <= i < |t| ensures t[i] != '/' {
        OccursAtChar(alias, '/', k + 1 + i);
      }
    }
    t
  }

  /**
   * The extension of an encoded path is read off the alias's last component:
   * it survives when that component is a name, neither empty nor `.`.
   */
  predicate NamedTail(alias: string) {
    '/' in alias ==> AliasTail(alias) != "" && AliasTail(alias) != "."
  }

  /** Regrouping an encoded path around the alias's last component. */
  lemma EncodedAroundTail(file: string, head: string, t: string, e: string)
    ensures file + Virtual + (head + t) + e == (file + Virtual + head) + (t + e)
  {
  }

  /** An encoded path is the file, the separator, and the alias with its extension. */
  lemma EncodedGrouping(file: string, alias: string)
    ensures Encode(file, alias) == file + Virtual + (alias + Extname(file))
  {
  }

  /** An encoded path is the file followed by its last component's tail. */
  lemma EncodedPlainGrouping(file: string, alias: string)
    ensures Encode(file, alias) == file + ((Virtual + alias) + Extname(file))
  {
  }

  /** An encoded path keeps the file's extension. */
  lemma EncodedExtname(file: string, alias: string)
    requires NamedTail(alias) && Extname(file) != ""
    ensures Extname(Encode(file, alias)) == Extname(file)
  {
    if '/' in alias {
      EncodedExtnameAfter(file, alias, |alias| - |AliasTail(alias)|);
    } else {
      EncodedExtnamePlain(file, alias);
    }
  }

  /** An alias without `/` keeps the file's extension: the last component holds the `#`. */
  lemma EncodedExtnamePlain(file: string, alias: string)
    requires '/' !in alias && Extname(file) != ""
    ensures Extname(Encode(file, alias)) == Extname(file)
  {
    EncodedPlainGrouping(file, alias);
    ExtnameOfSuffix(file, Virtual + alias, Extname(file));
  }

  /** An alias whose part from `k` on is a name without `/` keeps the file's extension. */
  lemma EncodedExtnameAfter(file: string, alias: string, k: nat)
    requires k <= |alias| && '/' !in alias[k..] && alias[k..] != "" && alias[k..] != "."
    requires Extname(file) != ""
    ensures Extname(Encode(file, alias)) == Extname(file)
  {
    var e := Extname(file);
    var head, t := alias[..k], alias[k..];
    assert alias == head + t;
    EncodedAroundTail(file, head, t, e);
    ExtnameOfSuffix(file + Virtual + head, t, e);
  }

  /** The file and the alias stand in an encoded path where `Decode` cuts. */
  lemma EncodedParts(file: string, alias: string)
    ensures var p := Encode(file, alias);
            p[..|file|] == file && p[|file| + 1..|p| - |Extname(file)|] == alias
  {
  }

  /**
   * The encoding at src/index.ts:127 decodes back to the file and the alias
   * when the alias holds no `#`, its last component (if it has a `/`) is a
   * name, and the file has an extension without `#`.
   */
  lemma DecodeEncode(file: string, alias: string)
    requires '#' !in alias && NamedTail(alias)
    requires Extname(file) != "" && '#' !in Extname(file)
    ensures Decode(Encode(file, alias)) == Some(VirtualPath(file, alias))
  {
    EncodedSeparator(file, alias);
    EncodedExtname(file, alias);
    EncodedParts(file, alias);
  }

  /** A path whose last component is a bare extension has none by `extname`. */
  lemma ExtnameAfterSlash(pre: string, e: string)
    requires |e| > 0 && e[0] == '.' && '/' !in e && '.' !in e[1..]
    ensures Extname(pre + (['/'] + e)) == ""
  {
    var p := pre + (['/'] + e);
    assert p == pre + ['/'] + e;
    LastIndexOfSeparator(pre, '/', e);
    assert p[|p| - 1] == e[|e| - 1];
    assert TrimTrailingSlashes(p) == p;
    assert p[|pre| + 1..] == e;
    LastIndexOfChar(e, '.', 0);
  }

  /**
   * Without `NamedTail` the round trip fails: for an alias ending in `/`
   * (such as `x/`) the encoded path's last component is the bare extension,
   * `extname` finds none, and the extension ends up in the decoded alias.
   */
  lemma DecodeEncodeSlashAlias(file: string, alias: string)
    requires '#' !in alias && '/' in alias && AliasTail(alias) == ""
    requires Extname(file) != "" && '#' !in Extname(file)
    ensures Decode(Encode(file, alias)) == Some(VirtualPath(file, alias + Extname(file)))
  {
    SlashAliasExtname(file, alias);
    EncodedGrouping(file, alias);
    DecodeWithoutExtname(file, alias + Extname(file));
  }

  /** An encoded path whose alias ends in `/` has no extension. */
  lemma SlashAliasExtname(file: string, alias: string)
    requires '/' in alias && AliasTail(alias) == "" && Extname(file) != ""
    ensures Extname(Encode(file, alias)) == ""
  {
    var head := alias[..|alias| - 1];
    assert alias == head + ['/'];
    EncodedAroundTail(file, head, ['/'], Extname(file));
    ExtnameAfterSlash(file + Virtual + head, Extname(file));
  }

  /** A path with one `#` and no extension decodes to everything after the `#` as the alias. */
  lemma DecodeWithoutExtname(file: string, tail: string)
    requires '#' !in tail && Extname(file + Virtual + tail) == ""
    ensures Decode(file + Virtual + tail) == Some(VirtualPath(file, tail))
  {
    var p := file + Virtual + tail;
    assert p[|file|] == '#';
    var d := Decode(p).value;
    var n := |d.file|;
    assert n == |file|;
    assert d.file == file;
    assert |Extname(p)| == 0;
    assert d.alias == p[|file| + 1..|p|];
    assert p[|file| + 1..] == tail;
    assert d == VirtualPath(file, tail);
    assert Decode(p) == Some(d);
  }

  /** The `fileExists` interceptor: a virtual path exists when its physical file does. */
  function FileExistsThrough(path: string, fileExists: string -> bool): (r: bool)
    ensures '#' !in path ==> r == fileExists(path)
    ensures '#' in path ==> exists n :: && 0 <= n < |path| && path[n] == '#' && '#' !in path[n + 1..]
                                        && r == fileExists(path[..n])
  {
    match Decode(path)
    case Some(v) => fileExists(v.file)
    case None => fileExists(path)
  }

  /** `ts.sys.fileExists` once the interceptor is installed over the host's `fileExists`. */
  function Intercepted(fileExists: string -> bool): (fileExistsThrough: string -> bool)
    ensures forall path :: fileExistsThrough(path) == FileExistsThrough(path, fileExists)
  {
    path => FileExistsThrough(path, fileExists)
  }

  /** A module's virtual path exists exactly when its file does. */
  lemma FileExistsEncoded(file: string, alias: string, fileExists: string -> bool)
    requires '#' !in alias && NamedTail(alias)
    requires Extname(file) != "" && '#' !in Extname(file)
    ensures FileExistsThrough(Encode(file, alias), fileExists) == fileExists(file)
  {
    DecodeEncode(file, alias);
  }

  /* ---------------------------------------------------------------------
   * The alias cache
   * --------------------------------------------------------------------- */

  /** `CacheEntry` */
  datatype CacheEntry = CacheEntry(path: string, classic: bool, multi: bool, realPath: string)

  type Cache = JsMap.Bindings<string, CacheEntry>

  /**
   * What `updateCache` ever stores under `alias`: the path is the real file,
   * except for a module of a multi-module file, which is a classic define
   * stored under its virtual path.
   */
  predicate Fits(alias: string, e: CacheEntry) {
    && (e.multi ==> e.classic)
    && e.path == if e.multi then Encode(e.realPath, alias) else e.realPath
  }

  predicate Entry(cache: Cache, i: nat)
    requires i < |cache|
  {
    Fits(cache[i].0, cache[i].1)
  }

  /** The cache's invariant: one binding per alias, each of the shape `updateCache` stores. */
  predicate CacheValid(cache: Cache) {
    JsMap.Distinct(cache) && forall i: nat :: i < |cache| ==> Entry(cache, i)
  }

  /** The entry for a module of a file found by the pragma (`@odoo-module alias=`). */
  function PragmaEntry(file: string): CacheEntry {
    CacheEntry(file, false, false, file)
  }

  /** The entry for an `odoo.define` module of a file with one (`multi` false) or several defines. */
  function DefineEntry(file: string, alias: string, multi: bool): CacheEntry {
    CacheEntry(if multi then Encode(file, alias) else file, true, multi, file)
  }

  /** Setting a binding of the right shape keeps the cache valid. */
  lemma SetKeepsValid(cache: Cache, alias: string, e: CacheEntry)
    requires CacheValid(cache) && Fits(alias, e)
    ensures CacheValid(JsMap.Set(cache, alias, e))
  {
    JsMap.SetSpec(cache, alias, e);
    var r := JsMap.Set(cache, alias, e);
    match JsMap.IndexOf(cache, alias)
    case None =>
      forall i: nat | i < |r| ensures Entry(r, i) {
        if i < |cache| {
          assert r[i] == cache[i] && Entry(cache, i);
        }
      }
    case Some(k) =>
      forall i: nat | i < |r| ensures Entry(r, i) {
        if i != k {
          assert r[i] == cache[i] && Entry(cache, i);
        }
      }
  }

  /** The bindings the define loop leaves, setting each alias in turn. */
  function DefineAll(cache: Cache, file: string, aliases: seq<string>, multi: bool): Cache {
    if aliases == [] then cache
    else
      var last := aliases[|aliases| - 1];
      JsMap.Set(DefineAll(cache, file, aliases[..|aliases| - 1], multi), last, DefineEntry(file, last, multi))
  }

  /**
   * After the define loop every found alias is bound to its define entry,
   * every other alias keeps its binding, and the cache stays valid.
   */
  lemma {:induction false} DefineAllSpec(cache: Cache, file: string, aliases: seq<string>, multi: bool)
    requires CacheValid(cache)
    ensures CacheValid(DefineAll(cache, file, aliases, multi))
    ensures forall a :: a in aliases ==> JsMap.Get(DefineAll(cache, file, aliases, multi), a) == Some(DefineEntry(file, a, multi))
    ensures forall a :: a !in aliases ==> JsMap.Get(DefineAll(cache, file, aliases, multi), a) == JsMap.Get(cache, a)
  {
    if aliases != [] {
      var init, last := aliases[..|aliases| - 1], aliases[|aliases| - 1];
      assert aliases == init + [last];
      DefineAllSpec(cache, file, init, multi);
      var before := DefineAll(cache, file, init, multi);
      SetKeepsValid(before, last, DefineEntry(file, last, multi));
      JsMap.SetSpec(before, last, DefineEntry(file, last, multi));
    }
  }

  /** The index of the first binding, in iteration order, whose `path` is `file`. */
  function FirstWithPath(cache: Cache, file: string): (r: Option<nat>)
    ensures r.Some? ==> r.value < |cache| && cache[r.value].1.path == file
    ensures r.Some? ==> forall j :: 0 <= j < r.value ==> cache[j].1.path != file
    ensures r.None? ==> forall j :: 0 <= j < |cache| ==> cache[j].1.path != file
  {
    if cache == [] then None
    else if cache[0].1.path == file then Some(0)
    else match FirstWithPath(cache[1..], file)
      case None => None
      case Some(i) => Some(i + 1)
  }

  /** The cache after the removal loop for `file`. */
  function Removed(cache: Cache, file: string): Cache {
    match FirstWithPath(cache, file)
    case None => cache
    case Some(i) => JsMap.Delete(cache, cache[i].0)
  }

  /**
   * The removal loop deletes the first binding whose `path` is `file`, if
   * any, and nothing else; the cache stays valid; and a module of a
   * multi-module file is never removed by its real file's name.
   */
  lemma RemovedSpec(cache: Cache, file: string)
    requires CacheValid(cache)
    ensures CacheValid(Removed(cache, file))
    ensures FirstWithPath(cache, file).None? ==> Removed(cache, file) == cache
    ensures FirstWithPath(cache, file).Some? ==>
              var i := FirstWithPath(cache, file).value;
              Removed(cache, file) == cache[..i] + cache[i + 1..]
    ensures forall a :: JsMap.Get(cache, a).Some? && JsMap.Get(cache, a).value.path != file ==>
              JsMap.Get(Removed(cache, file), a) == JsMap.Get(cache, a)
    ensures forall a :: JsMap.Get(cache, a).Some? && JsMap.Get(cache, a).value.multi
                        && JsMap.Get(cache, a).value.realPath == file ==>
              JsMap.Get(Removed(cache, file), a) == JsMap.Get(cache, a)
  {
    match FirstWithPath(cache, file)
    case None =>
    case Some(i) =>
      var k := cache[i].0;
      JsMap.IndexOfDistinct(cache, i);
      JsMap.DeleteSpec(cache, k);
      var r := Removed(cache, file);
      assert r == cache[..i] + cache[i + 1..];
      forall j: nat | j < |r| ensures Entry(r, j) {
        var from := if j < i then j else j + 1;
        assert r[j] == cache[from] && Entry(cache, from);
      }
      forall a | JsMap.Get(cache, a).Some? && JsMap.Get(cache, a).value.multi && JsMap.Get(cache, a).value.realPath == file
        ensures a != k
      {
        var j := JsMap.IndexOf(cache, a).value;
        assert Entry(cache, j);
        assert |Encode(file, a)| > |file|;
      }
  }

  /* ---------------------------------------------------------------------
   * The readFile interceptor
   * --------------------------------------------------------------------- */

  /** The alias of the first classic binding, in iteration order, stored under `path`. */
  function FirstClassic(cache: Cache, path: string): (r: Option<string>)
    ensures r.Some? ==> exists i :: 0 <= i < |cache| && cache[i].0 == r.value
                                    && cache[i].1.path == path && cache[i].1.classic
                                    && forall j :: 0 <= j < i ==> !(cache[j].1.path == path && cache[j].1.classic)
    ensures r.None? ==> forall j :: 0 <= j < |cache| ==> !(cache[j].1.path == path && cache[j].1.classic)
  {
    if cache == [] then None
    else if cache[0].1.path == path && cache[0].1.classic then Some(cache[0].0)
    else
      var r := FirstClassic(cache[1..], path);
      assert forall j :: 1 <= j < |cache| ==> cache[j] == cache[1..][j - 1];
      r
  }

  /**
   * The `readFile` interceptor. A virtual path reads its physical file and,
   * when that is non-empty, rewrites the module named by the alias; `""`
   * and `undefined` pass through (`file && …`). Any other path is read; a
   * non-empty text stored under a classic binding is rewritten for the
   * first such alias. The memo in front of `replaceFinalReturn` returns
   * what the function returns (`Utils.Memo.Call`) and is left out here.
   */
  function ReadThrough(path: string, readFile: string -> Option<string>, cache: Cache,
                       lex: string -> seq<Token>): (r: Option<string>)
    requires LexerSound(lex)
    ensures r.None? <==> readFile(if Decode(path).Some? then Decode(path).value.file else path).None?
    ensures Decode(path).None? && FirstClassic(cache, path).None? ==> r == readFile(path)
    ensures Decode(path).None? && FirstClassic(cache, path).Some? && readFile(path).Some? && readFile(path).value != "" ==>
              r == Some(ReplaceFinalReturn(readFile(path).value, FirstClassic(cache, path).value, lex))
    ensures Decode(path).Some? && readFile(Decode(path).value.file).Some? && readFile(Decode(path).value.file).value != "" ==>
              r == Some(ReplaceFinalReturn(readFile(Decode(path).value.file).value, Decode(path).value.alias, lex))
    ensures readFile(if Decode(path).Some? then Decode(path).value.file else path) == Some("") ==> r == Some("")
  {
    match Decode(path)
    case Some(v) =>
      (match readFile(v.file)
       case None => None
       case Some(file) => if file == "" then Some(file) else Some(ReplaceFinalReturn(file, v.alias, lex)))
    case None =>
      match readFile(path)
      case None => None
      case Some(file) =>
        if file == "" then Some(file)
        else match FirstClassic(cache, path)
          case None => Some(file)
          case Some(alias) => Some(ReplaceFinalReturn(file, alias, lex))
  }

  /** Reading a module's virtual path gives its file with that module's return rewritten. */
  lemma ReadEncoded(file: string, alias: string, readFile: string -> Option<string>, cache: Cache,
                    lex: string -> seq<Token>)
    requires LexerSound(lex)
    requires '#' !in alias && NamedTail(alias)
    requires Extname(file) != "" && '#' !in Extname(file)
    requires readFile(file).Some? && readFile(file).value != ""
    ensures ReadThrough(Encode(file, alias), readFile, cache, lex)
            == Some(ReplaceFinalReturn(readFile(file).value, alias, lex))
  {
    DecodeEncode(file, alias);
  }

  /* ---------------------------------------------------------------------
   * Module resolution
   * --------------------------------------------------------------------- */

  /** What the resolver hook returns. `Delegated` stands for the original resolver's answer. */
  datatype Resolution =
    | Resolved(resolvedFileName: string, extension: string, failedLookupLocations: seq<string>)
    | Delegated

  /** `extname(p) || ".js"` */
  function ExtensionOf(p: string): (r: string)
    ensures |r| > 0 && r[0] == '.'
    ensures Extname(p) != "" ==> r == Extname(p)
  {
    var e := Extname(p);
    if e == "" then ".js" else e
  }

  const OdooPragma := "@odoo-module"
  const OdooClassicDefine := "odoo.define"

  /** A character `.` in a regular expression does not match. */
  predicate LineTerminator(c: char) {
    c == '\n' || c == '\r' || c == '\U{2028}' || c == '\U{2029}'
  }

  predicate IsDigit(c: char) {
    '0' <= c <= '9'
  }

  function DigitValue(c: char): nat
    requires IsDigit(c)
  {
    (c - '0') as nat
  }

  /**
   * The replacement text `String.prototype.replace` builds from `template`
   * for one match of a regular expression with no named groups (the
   * ECMAScript GetSubstitution operation). `before` and `after` are the
   * text around the match:
   * - `$$` gives `$`.
   * - `$&` gives the match.
   * - `` $` `` gives the text before the match, and `$'` the text after it.
   * - `$n` and `$nn` give a capture. A two-digit index beyond the captures is
   *   read as one digit followed by a literal digit. An index of 0, or one
   *   with no capture, stays literal.
   * - Any other `$` is literal.
   */
  function Expand(template: string, before: string, matched: string, after: string,
                  captures: seq<string>): (r: string)
    decreases |template|
  {
    if template == [] then ""
    else
      var p := Piece(template, before, matched, after, captures);
      p.0 + Expand(template[p.1..], before, matched, after, captures)
  }

  /** The replacement for the start of a non-empty template, and how many of its characters that uses up. */
  function Piece(template: string, before: string, matched: string, after: string,
                 captures: seq<string>): (p: (string, nat))
    requires template != []
    ensures 1 <= p.1 <= |template|
    ensures template[0] != '$' ==> p == ([template[0]], 1)
  {
    if template[0] != '$' || |template| == 1 then ([template[0]], 1)
    else
      var c := template[1];
      if c == '$' then ("$", 2)
      else if c == '&' then (matched, 2)
      else if c == '`' then (before, 2)
      else if c == '\'' then (after, 2)
      else if IsDigit(c) then
        var two := |template| > 2 && IsDigit(template[2])
                   && DigitValue(c) * 10 + DigitValue(template[2]) <= |captures|;
        var len := if two then 3 else 2;
        var index := if two then DigitValue(c) * 10 + DigitValue(template[2]) else DigitValue(c);
        (if 1 <= index <= |captures| then captures[index - 1] else template[..len], len)
      else ("$", 1)
  }

  /** Text without `$` is copied as it is. */
  lemma {:induction false} ExpandLiteral(literal: string, rest: string, before: string, matched: string,
                                         after: string, captures: seq<string>)
    requires '$' !in literal
    ensures Expand(literal + rest, before, matched, after, captures)
            == literal + Expand(rest, before, matched, after, captures)
  {
    if literal != [] {
      var t := literal + rest;
      assert t[0] == literal[0] && t[1..] == literal[1..] + rest;
      assert Piece(t, before, matched, after, captures) == ([literal[0]], 1);
      assert Expand(t, before, matched, after, captures)
          == [literal[0]] + Expand(t[1..], before, matched, after, captures);
      ExpandLiteral(literal[1..], rest, before, matched, after, captures);
      assert literal == [literal[0]] + literal[1..];
    } else {
      assert literal + rest == rest;
    }
  }

  /** `$n` followed by a character that is not a digit gives capture `n`. */
  lemma ExpandCapture(n: nat, rest: string, before: string, matched: string, after: string,
                      captures: seq<string>)
    requires 1 <= n <= 9 && n <= |captures|
    requires rest == [] || !IsDigit(rest[0])
    ensures Expand(['$', ('0' as int + n) as char] + rest, before, matched, after, captures)
            == captures[n - 1] + Expand(rest, before, matched, after, captures)
  {
    var t := ['$', ('0' as int + n) as char] + rest;
    assert t[2..] == rest;
    assert DigitValue(t[1]) == n;
    assert Piece(t, before, matched, after, captures) == (captures[n - 1], 2);
  }

  /**
   * `a$1b$2` expands to `a`, the first capture, `b` and the second capture,
   * when neither `a` nor `b` holds `$` and `b` does not start with a digit.
   */
  lemma ExpandTwoCaptures(a: string, b: string, scope: string, rest: string, before: string, matched: string,
                          after: string)
    requires '$' !in a && '$' !in b && b != [] && !IsDigit(b[0])
    ensures Expand(a + (['$', '1'] + (b + ['$', '2'])), before, matched, after, [scope, rest])
            == a + (scope + (b + rest))
  {
    var caps := [scope, rest];
    var second := ['$', '2'];
    assert second + [] == second;
    ExpandCapture(2, [], before, matched, after, caps);
    assert rest + [] == rest;
    ExpandLiteral(b, second, before, matched, after, caps);
    ExpandCapture(1, b + second, before, matched, after, caps);
    ExpandLiteral(a, ['$', '1'] + (b + second), before, matched, after, caps);
  }

  /** Four strings joined from the left are the same four joined from the right. */
  lemma JoinFour(a: string, b: string, c: string, d: string)
    ensures a + b + c + d == a + (b + (c + d))
  {
  }

  /** Joining five strings from the left is joining the first to the other four. */
  lemma JoinAfter(a: string, b: string, c: string, d: string, e: string)
    ensures a + b + c + d + e == a + (b + c + d + e)
  {
  }

  /** The tail of the import pattern's replacement, `/$1/static/src/$2`, with two captures. */
  lemma ExpandScopedTail(scope: string, rest: string, before: string, matched: string, after: string)
    ensures Expand("/$1/static/src/$2", before, matched, after, [scope, rest])
            == "/" + scope + "/static/src/" + rest
  {
    assert "/$1/static/src/$2" == "/" + (['$', '1'] + ("/static/src/" + ['$', '2']));
    ExpandTwoCaptures("/", "/static/src/", scope, rest, before, matched, after);
    JoinFour("/", scope, "/static/src/", rest);
  }

  /**
   * `name.replace(/^@(.+?)\/(.+)$/, `${dir}/$1/static/src/$2`)`. The lazy
   * first group ends at the first `/` after the scope's first character.
   * The whole name is the match, and the replacement text, `dir`
   * included, goes through `$` expansion. A name that does not match is
   * left as it is.
   */
  function ScopedTarget(name: string, dir: string): (r: string)
    ensures !(|name| > 0 && name[0] == '@') ==> r == name
  {
    var k := IndexOfFrom(name, "/", 2);
    if && |name| > 0 && name[0] == '@'
       && k != -1 && k < |name| - 1
       && forall i :: 1 <= i < |name| ==> !LineTerminator(name[i])
    then Expand(dir + "/$1/static/src/$2", "", name, "", [name[1..k], name[k + 1..]])
    else name
  }

  /** A directory without `$` is copied into the replacement as it is. */
  lemma ExpandPlainDir(dir: string, scope: string, rest: string, name: string)
    requires '$' !in dir
    ensures Expand(dir + "/$1/static/src/$2", "", name, "", [scope, rest]) == dir + "/" + scope + "/static/src/" + rest
  {
    ExpandLiteral(dir, "/$1/static/src/$2", "", name, "", [scope, rest]);
    ExpandScopedTail(scope, rest, "", name, "");
    JoinAfter(dir, "/", scope, "/static/src/", rest);
  }

  /** In `@scope/rest`, the lazy first group is `scope` and the second is `rest`. */
  lemma ScopedSplit(scope: string, rest: string)
    requires |scope| > 0 && '/' !in scope && |rest| > 0
    requires forall i :: 0 <= i < |scope| ==> !LineTerminator(scope[i])
    requires forall i :: 0 <= i < |rest| ==> !LineTerminator(rest[i])
    ensures var name := "@" + scope + "/" + rest;
            var k := IndexOfFrom(name, "/", 2);
            && k == |scope| + 1 && k < |name| - 1
            && name[1..k] == scope && name[k + 1..] == rest
            && forall i :: 1 <= i < |name| ==> !LineTerminator(name[i])
  {
    var name := "@" + scope + "/" + rest;
    var s := |scope| + 1;
    assert name[s] == '/';
    assert forall j :: 1 <= j < s ==> name[j] == scope[j - 1];
    assert forall j :: s < j < |name| ==> name[j] == rest[j - s - 1];
    OccursAtChar(name, '/', s);
    var k := IndexOfFrom(name, "/", 2);
    OccursAtChar(name, '/', k);
    assert k == s;
    assert name[1..k] == scope;
    assert name[k + 1..] == rest;
  }

  /**
   * `@scope/rest` is looked up as `dir/scope/static/src/rest`, with `dir`
   * expanded as replacement text. A `dir` that holds no `$` is copied
   * as it is.
   */
  lemma ScopedTargetOf(scope: string, rest: string, dir: string)
    requires |scope| > 0 && '/' !in scope && |rest| > 0
    requires forall i :: 0 <= i < |scope| ==> !LineTerminator(scope[i])
    requires forall i :: 0 <= i < |rest| ==> !LineTerminator(rest[i])
    ensures ScopedTarget("@" + scope + "/" + rest, dir)
            == Expand(dir + "/$1/static/src/$2", "", "@" + scope + "/" + rest, "", [scope, rest])
    ensures '$' !in dir ==> ScopedTarget("@" + scope + "/" + rest, dir) == dir + "/" + scope + "/static/src/" + rest
  {
    ScopedSplit(scope, rest);
    if '$' !in dir {
      ExpandPlainDir(dir, scope, rest, "@" + scope + "/" + rest);
    }
  }

  /** A `$$` in an addon directory comes out as a single `$` in every scoped target. */
  lemma ScopedTargetDollar(left: string, right: string, scope: string, rest: string)
    requires '$' !in left && '$' !in right
    requires |scope| > 0 && '/' !in scope && |rest| > 0
    requires forall i :: 0 <= i < |scope| ==> !LineTerminator(scope[i])
    requires forall i :: 0 <= i < |rest| ==> !LineTerminator(rest[i])
    ensures ScopedTarget("@" + scope + "/" + rest, left + "$$" + right)
            == left + "$" + right + "/" + scope + "/static/src/" + rest
  {
    ScopedTargetOf(scope, rest, left + "$$" + right);
    ExpandDollarDir(left, right, scope, rest, "@" + scope + "/" + rest);
  }

  /** A directory with one `$$` between plain parts keeps a single `$`. */
  lemma ExpandDollarDir(left: string, right: string, scope: string, rest: string, name: string)
    requires '$' !in left && '$' !in right
    ensures Expand(left + "$$" + right + "/$1/static/src/$2", "", name, "", [scope, rest])
            == left + "$" + right + "/" + scope + "/static/src/" + rest
  {
    var caps := [scope, rest];
    var tail := right + "/$1/static/src/$2";
    var target := "/" + scope + "/static/src/" + rest;
    JoinFour(left, "$$", right, "/$1/static/src/$2");
    assert "$$" == ['$', '$'];
    ExpandLiteral(left, ['$', '$'] + tail, "", name, "", caps);
    ExpandDollarStep(tail, "", name, "", caps);
    ExpandPlainDir(right, scope, rest, name);
    JoinAfter(right, "/", scope, "/static/src/", rest);
    JoinFour(left, "$", right, target);
    JoinAfter(left + "$" + right, "/", scope, "/static/src/", rest);
  }

  /** `$$` gives one `$`. */
  lemma ExpandDollarStep(rest: string, before: string, matched: string, after: string, captures: seq<string>)
    ensures Expand(['$', '$'] + rest, before, matched, after, captures)
            == "$" + Expand(rest, before, matched, after, captures)
  {
    var t := ['$', '$'] + rest;
    assert t[2..] == rest;
    assert Piece(t, before, matched, after, captures) == ("$", 2);
  }

  /** `options.find((path) => fileExists(path)) || ""` */
  function FirstExisting(options: seq<string>, fileExists: string -> bool): (r: string)
    ensures (forall i :: 0 <= i < |options| ==> !fileExists(options[i])) ==> r == ""
    ensures forall i :: 0 <= i < |options| && fileExists(options[i]) ==>
              (forall j :: 0 <= j < i ==> !fileExists(options[j])) ==> r == options[i]
    ensures r == "" || (r in options && fileExists(r))
  {
    if options == [] then ""
    else if fileExists(options[0]) then options[0]
    else FirstExisting(options[1..], fileExists)
  }

  /** `options.filter((e) => e == redirect)` */
  function KeepEqual(options: seq<string>, redirect: string): (r: seq<string>)
    ensures forall i :: 0 <= i < |r| ==> r[i] == redirect
    ensures |r| == multiset(options)[redirect]
  {
    if options == [] then []
    else
      assert options == [options[0]] + options[1..];
      if options[0] == redirect then [redirect] + KeepEqual(options[1..], redirect)
      else KeepEqual(options[1..], redirect)
  }

  /** The lookup candidates: one per addon directory, in order. */
  function Candidates(name: string, dirs: seq<string>): (options: seq<string>)
    ensures |options| == |dirs|
    ensures forall i :: 0 <= i < |dirs| ==> options[i] == ScopedTarget(name, dirs[i])
  {
    seq(|dirs|, i requires 0 <= i < |dirs| => ScopedTarget(name, dirs[i]))
  }

  /**
   * The scoped-import answer: the first candidate that exists (through the
   * `fileExists` interceptor), else `""`; its extension, defaulting to
   * `.js`; and, as failed locations, the candidates equal to it.
   */
  function ScopedResolution(name: string, dirs: seq<string>, fileExists: string -> bool): (r: Resolution)
    ensures r.Resolved?
    ensures var options := Candidates(name, dirs);
            && (r.resolvedFileName == "" || (r.resolvedFileName in options && fileExists(r.resolvedFileName)))
            && ((forall i :: 0 <= i < |options| ==> !fileExists(options[i])) ==> r.resolvedFileName == "")
            && (forall i :: 0 <= i < |options| && fileExists(options[i]) ==>
                  (forall j :: 0 <= j < i ==> !fileExists(options[j])) ==> r.resolvedFileName == options[i])
            && |r.failedLookupLocations| == multiset(options)[r.resolvedFileName]
    ensures |r.extension| > 0 && r.extension[0] == '.'
    ensures forall f :: f in r.failedLookupLocations ==> f == r.resolvedFileName
  {
    var options := Candidates(name, dirs);
    var redirect := FirstExisting(options, fileExists);
    Resolved(redirect, ExtensionOf(redirect), KeepEqual(options, redirect))
  }

  /** `name.startsWith("@") && search(host.readFile(file) || "", odooPragma, odooClassicDefine)` */
  predicate ScopedImport(name: string, importer: Option<string>): (b: bool)
    ensures b <==> && |name| > 0 && name[0] == '@' && importer.Some?
                   && (Contains(importer.value, OdooPragma) || Contains(importer.value, OdooClassicDefine))
  {
    var text := if importer.Some? then importer.value else "";
    var needles := [OdooPragma, OdooClassicDefine];
    assert Search(text, needles) <==> Contains(text, OdooPragma) || Contains(text, OdooClassicDefine) by {
      assert needles[0] == OdooPragma && needles[1] == OdooClassicDefine;
    }
    assert !Contains("", OdooPragma) && !Contains("", OdooClassicDefine);
    && |name| > 0 && name[0] == '@'
    && Search(text, needles)
  }

  /* ---------------------------------------------------------------------
   * Configuration and the plugin's state
   * --------------------------------------------------------------------- */

  /** `Config` */
  datatype Config = Config(addonDirectories: Option<seq<string>>)

  /** `config.addonDirectories ||= [`${pwd}/addons`]`: an absent list gets the default; any list, even empty, stays. */
  function Defaulted(config: Config, pwd: string): (r: Config)
    ensures r.addonDirectories.Some?
    ensures config.addonDirectories.Some? ==> r == config
    ensures config.addonDirectories.None? ==> r.addonDirectories.value == [pwd + "/addons"]
  {
    if config.addonDirectories.None? then Config(Some([pwd + "/addons"])) else config
  }

  /** `old.addonDirectories || []` */
  function Listed(config: Config): seq<string> {
    if config.addonDirectories.Some? then config.addonDirectories.value else []
  }

  /** The watcher registry: directory to watcher handle, and the handle the next `watchDirectory` returns. */
  datatype Registry = Registry(watchers: map<string, nat>, next: nat)

  /** Every handle in the registry was handed out before `next`. */
  predicate Fresh(r: Registry) {
    forall d :: d in r.watchers ==> r.watchers[d] < r.next
  }

  /** The registry after `initWatchers` has visited `dirs` in turn, watching each one not watched yet. */
  function Watched(r: Registry, dirs: seq<string>): Registry {
    if dirs == [] then r
    else
      var before, d := Watched(r, dirs[..|dirs| - 1]), dirs[|dirs| - 1];
      if d in before.watchers then before
      else Registry(before.watchers[d := before.next], before.next + 1)
  }

  /**
   * Watching adds exactly the directories not watched yet, each under a
   * new handle, and keeps every existing watcher.
   */
  lemma {:induction false} WatchedSpec(r: Registry, dirs: seq<string>)
    requires Fresh(r)
    ensures Fresh(Watched(r, dirs)) && r.next <= Watched(r, dirs).next
    ensures forall d :: d in Watched(r, dirs).watchers <==> d in r.watchers || d in dirs
    ensures forall d :: d in r.watchers ==> Watched(r, dirs).watchers[d] == r.watchers[d]
    ensures forall d :: d in Watched(r, dirs).watchers && d !in r.watchers ==> r.next <= Watched(r, dirs).watchers[d]
  {
    if dirs != [] {
      var init := dirs[..|dirs| - 1];
      assert dirs == init + [dirs[|dirs| - 1]];
      WatchedSpec(r, init);
    }
  }

  /** Directories that are all watched already change nothing. */
  lemma {:induction false} WatchedKnown(r: Registry, dirs: seq<string>)
    requires forall d :: d in dirs ==> d in r.watchers
    ensures Watched(r, dirs) == r
  {
    if dirs != [] {
      WatchedKnown(r, dirs[..|dirs| - 1]);
    }
  }

  /** `initWatchers` is idempotent: watching the same directories again changes nothing. */
  lemma WatchedIdempotent(r: Registry, dirs: seq<string>)
    requires Fresh(r)
    ensures Watched(Watched(r, dirs), dirs) == Watched(r, dirs)
  {
    WatchedSpec(r, dirs);
    WatchedKnown(Watched(r, dirs), dirs);
  }

  /** The watchers left after `refresh` forgets the removed directories in turn. */
  function Unwatched(watchers: map<string, nat>, removed: seq<string>): map<string, nat> {
    if removed == [] then watchers
    else Unwatched(watchers, removed[..|removed| - 1]) - {removed[|removed| - 1]}
  }

  /** Forgetting removes exactly the removed directories and keeps the other handles. */
  lemma {:induction false} UnwatchedSpec(watchers: map<string, nat>, removed: seq<string>)
    ensures forall d :: d in Unwatched(watchers, removed) <==> d in watchers && d !in removed
    ensures forall d :: d in Unwatched(watchers, removed) ==> Unwatched(watchers, removed)[d] == watchers[d]
  {
    if removed != [] {
      var init := removed[..|removed| - 1];
      assert removed == init + [removed[|removed| - 1]];
      UnwatchedSpec(watchers, init);
    }
  }

  /** The handles `refresh` closes, in order: the watcher of each removed directory still watched. */
  function Closing(watchers: map<string, nat>, removed: seq<string>): seq<nat> {
    if removed == [] then []
    else
      var init, last := removed[..|removed| - 1], removed[|removed| - 1];
      var left := Unwatched(watchers, init);
      Closing(watchers, init) + if last in left then [left[last]] else []
  }

  /** `refresh` closes exactly the watchers of the removed directories, at most one per removed entry. */
  lemma {:induction false} ClosingSpec(watchers: map<string, nat>, removed: seq<string>)
    ensures forall h :: h in Closing(watchers, removed) <==> exists d :: d in removed && d in watchers && watchers[d] == h
    ensures |Closing(watchers, removed)| <= |removed|
  {
    if removed != [] {
      var init, last := removed[..|removed| - 1], removed[|removed| - 1];
      assert removed == init + [last];
      ClosingSpec(watchers, init);
      UnwatchedSpec(watchers, init);
      forall h | (exists d :: d in removed && d in watchers && watchers[d] == h)
        ensures h in Closing(watchers, removed)
      {
        var d :| d in removed && d in watchers && watchers[d] == h;
        if d != last || last in init {
          assert d in init;
        }
      }
    }
  }

  /**
   * The state `init` and `create` share: the configuration, the alias
   * cache, the watcher registry, and the host's services.
   */
  class Plugin {
    var config: Config
    const pwd: string
    /** `info.serverHost.resolvePath` */
    const resolvePath: string -> string
    /** `odooModules.exec(contents)`: the alias named by the `@odoo-module alias=` pragma. */
    const pragmaAlias: string -> Option<string>
    /** `[...contents.matchAll(odooDefine)]`: the aliases of the `odoo.define` calls, in order. */
    const defineAliases: string -> seq<string>
    var cache: Cache
    /** `watchers`: directory to watcher handle. */
    var watchers: map<string, nat>
    /** The handle the next `watchDirectory` call returns. */
    var nextHandle: nat
    /** The handles closed so far, in order. */
    var closed: seq<nat>
    /** How many times `refreshDiagnostics` was called. */
    var diagnostics: nat

    ghost predicate Valid()
      reads this
    {
      CacheValid(cache) && Fresh(Registry(watchers, nextHandle))
    }

    /** The resolved addon directories, once the configuration has its default. */
    function AddonDirs(c: Config): (dirs: seq<string>)
      requires c.addonDirectories.Some?
      ensures |dirs| == |c.addonDirectories.value|
      ensures forall i :: 0 <= i < |dirs| ==> dirs[i] == resolvePath(c.addonDirectories.value[i])
    {
      var dirs := c.addonDirectories.value;
      seq(|dirs|, i requires 0 <= i < |dirs| => resolvePath(dirs[i]))
    }

    /** The directories `initWatchers` watches: the addon directories, then `pwd`. */
    function WatchedDirs(c: Config): seq<string>
      requires c.addonDirectories.Some?
    {
      AddonDirs(c) + [pwd]
    }

    /** `create`: take the host's configuration and start the watchers. */
    constructor (pwd: string, config: Config, resolvePath: string -> string,
                 pragmaAlias: string -> Option<string>, defineAliases: string -> seq<string>)
      ensures Valid()
      ensures this.pwd == pwd && this.resolvePath == resolvePath
      ensures this.pragmaAlias == pragmaAlias && this.defineAliases == defineAliases
      ensures this.config == Defaulted(config, pwd)
      ensures cache == [] && closed == [] && diagnostics == 0
      ensures Registry(watchers, nextHandle) == Watched(Registry(map[], 0), WatchedDirs(this.config))
    {
      this.pwd := pwd;
      this.config := config;
      this.resolvePath := resolvePath;
      this.pragmaAlias := pragmaAlias;
      this.defineAliases := defineAliases;
      cache := [];
      watchers := map[];
      nextHandle := 0;
      closed := [];
      diagnostics := 0;
      new;
      InitWatchers();
    }

    /** `addonsDir()`: default the configured list, then resolve each directory. */
    method AddonsDir() returns (dirs: seq<string>)
      modifies this`config
      ensures config == Defaulted(old(config), pwd)
      ensures dirs == AddonDirs(config)
    {
      if config.addonDirectories.None? {
        config := Config(Some([pwd + "/addons"]));
      }
      dirs := AddonDirs(config);
    }

    /**
     * `initWatchers()`: watch every listed directory not watched yet, each
     * with a fresh handle (`WatchedSpec`, `WatchedIdempotent`).
     */
    method InitWatchers()
      requires Valid()
      modifies this`config, this`watchers, this`nextHandle
      ensures Valid()
      ensures config == Defaulted(old(config), pwd)
      ensures Registry(watchers, nextHandle) == Watched(Registry(old(watchers), old(nextHandle)), WatchedDirs(config))
    {
      var addons := AddonsDir();
      var dirs := addons + [pwd];
      ghost var start := Registry(watchers, nextHandle);
      for i := 0 to |dirs|
        modifies this`watchers, this`nextHandle
        invariant Registry(watchers, nextHandle) == Watched(start, dirs[..i])
      {
        assert dirs[..i + 1][..i] == dirs[..i];
        if dirs[i] !in watchers {
          watchers := watchers[dirs[i] := nextHandle];
          nextHandle := nextHandle + 1;
        }
      }
      assert dirs[..|dirs|] == dirs;
      WatchedSpec(start, dirs);
    }

    /**
     * `refresh(old)`: close and forget the watcher of every directory the
     * new configuration dropped (looked up by the directory as configured),
     * start watchers for the current directories, and refresh diagnostics.
     */
    method Refresh(previous: Config)
      requires Valid()
      modifies this`config, this`watchers, this`nextHandle, this`closed, this`diagnostics
      ensures Valid()
      ensures config == Defaulted(old(config), pwd)
      ensures var removed := Exclude(Listed(previous), Listed(old(config)));
              && closed == old(closed) + Closing(old(watchers), removed)
              && Registry(watchers, nextHandle)
                 == Watched(Registry(Unwatched(old(watchers), removed), old(nextHandle)), WatchedDirs(config))
      ensures diagnostics == old(diagnostics) + 1
    {
      var removed := Exclude(Listed(previous), Listed(config));
      for i := 0 to |removed|
        modifies this`watchers, this`closed
        invariant watchers == Unwatched(old(watchers), removed[..i])
        invariant closed == old(closed) + Closing(old(watchers), removed[..i])
      {
        assert removed[..i + 1][..i] == removed[..i];
        if removed[i] in watchers {
          closed := closed + [watchers[removed[i]]];
        }
        watchers := watchers - {removed[i]};
      }
      assert removed[..|removed|] == removed;
      UnwatchedSpec(old(watchers), removed);
      InitWatchers();
      diagnostics := diagnostics + 1;
    }

    /** `onConfigurationChanged`: adopt the new configuration and refresh against the old one. */
    method OnConfigurationUpdated(c: Config)
      requires Valid()
      modifies this`config, this`watchers, this`nextHandle, this`closed, this`diagnostics
      ensures Valid()
      ensures config == Defaulted(c, pwd)
      ensures var removed := Exclude(Listed(old(config)), Listed(c));
              && closed == old(closed) + Closing(old(watchers), removed)
              && Registry(watchers, nextHandle)
                 == Watched(Registry(Unwatched(old(watchers), removed), old(nextHandle)), WatchedDirs(config))
      ensures diagnostics == old(diagnostics) + 1
    {
      var previous := config;
      config := c;
      Refresh(previous);
    }

    /**
     * The removal loop of `updateCache`: delete the first binding, in
     * iteration order, stored under `file`, and refresh diagnostics when
     * one was found.
     */
    method RemoveFile(file: string)
      requires CacheValid(cache)
      modifies this`cache, this`diagnostics
      ensures CacheValid(cache)
      ensures cache == Removed(old(cache), file)
      ensures diagnostics == old(diagnostics) + (if FirstWithPath(old(cache), file).Some? then 1 else 0)
    {
      RemovedSpec(cache, file);
      var i := 0;
      while i < |cache|
        invariant 0 <= i <= |cache| && cache == old(cache) && diagnostics == old(diagnostics)
        invariant forall j :: 0 <= j < i ==> cache[j].1.path != file
      {
        if file == cache[i].1.path {
          cache := JsMap.Delete(cache, cache[i].0);
          diagnostics := diagnostics + 1;
          return;
        }
        i := i + 1;
      }
    }

    /**
     * The define loop of `updateCache`: bind every `odoo.define` alias in
     * turn, under a virtual path when there are several, and refresh
     * diagnostics when there was at least one.
     */
    method DefineModules(file: string, matches: seq<string>)
      requires CacheValid(cache)
      modifies this`cache, this`diagnostics
      ensures CacheValid(cache)
      ensures cache == DefineAll(old(cache), file, matches, |matches| > 1)
      ensures diagnostics == old(diagnostics) + (if |matches| > 0 then 1 else 0)
    {
      var multi := |matches| > 1;
      for j := 0 to |matches|
        modifies this`cache
        invariant CacheValid(cache)
        invariant cache == DefineAll(old(cache), file, matches[..j], multi)
      {
        assert matches[..j + 1][..j] == matches[..j];
        SetKeepsValid(cache, matches[j], DefineEntry(file, matches[j], multi));
        cache := JsMap.Set(cache, matches[j], DefineEntry(file, matches[j], multi));
      }
      assert matches[..|matches|] == matches;
      if |matches| > 0 {
        diagnostics := diagnostics + 1;
      }
    }

    /**
     * `updateCache(file)` with `contents` as read. Empty or absent contents
     * remove the first binding stored under `file`. Otherwise the pragma
     * wins: its alias is bound to the file and nothing else happens.
     * Failing that, every `odoo.define` alias is bound, under a virtual
     * path when the file defines several modules.
     */
    method UpdateCache(file: string, contents: Option<string>)
      requires Valid()
      modifies this`cache, this`diagnostics
      ensures Valid()
      ensures contents.None? || contents.value == "" ==>
                && cache == Removed(old(cache), file)
                && diagnostics == old(diagnostics) + (if FirstWithPath(old(cache), file).Some? then 1 else 0)
      ensures contents.Some? && contents.value != "" && pragmaAlias(contents.value).Some? ==>
                && cache == JsMap.Set(old(cache), pragmaAlias(contents.value).value, PragmaEntry(file))
                && diagnostics == old(diagnostics) + 1
      ensures contents.Some? && contents.value != "" && pragmaAlias(contents.value).None? ==>
                var aliases := defineAliases(contents.value);
                && cache == DefineAll(old(cache), file, aliases, |aliases| > 1)
                && diagnostics == old(diagnostics) + (if |aliases| > 0 then 1 else 0)
    {
      if contents.None? || contents.value == "" {
        RemoveFile(file);
        return;
      }
      var text := contents.value;
      var pragma := pragmaAlias(text);
      if pragma.Some? {
        SetKeepsValid(cache, pragma.value, PragmaEntry(file));
        cache := JsMap.Set(cache, pragma.value, PragmaEntry(file));
        diagnostics := diagnostics + 1;
        return;
      }
      DefineModules(file, defineAliases(text));
    }

    /**
     * The `resolveModuleName` hook. A cached alias resolves to its real
     * file (never the virtual path) with no failed locations; a scoped
     * `@x/y` import from an Odoo module is looked up in the addon
     * directories; anything else goes to the original resolver.
     * `importer` is the importing file's text as read by the host.
     */
    method ResolveModuleName(name: string, importer: Option<string>, fileExists: string -> bool)
      returns (r: Resolution)
      requires Valid()
      modifies this`config
      ensures Valid()
      ensures JsMap.Has(cache, name) ==>
                var e := JsMap.Get(cache, name).value;
                && config == old(config)
                && r == Resolved(e.realPath, ExtensionOf(e.realPath), [])
      ensures !JsMap.Has(cache, name) && ScopedImport(name, importer) ==>
                && config == Defaulted(old(config), pwd)
                && r == ScopedResolution(name, AddonDirs(config), Intercepted(fileExists))
      ensures !JsMap.Has(cache, name) && !ScopedImport(name, importer) ==>
                config == old(config) && r == Delegated
    {
      if JsMap.Has(cache, name) {
        var realPath := JsMap.Get(cache, name).value.realPath;
        return Resolved(realPath, ExtensionOf(realPath), []);
      }
      if ScopedImport(name, importer) {
        var dirs := AddonsDir();
        return ScopedResolution(name, dirs, Intercepted(fileExists));
      }
      return Delegated;
    }
  }
}
