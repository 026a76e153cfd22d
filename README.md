# odoo-import, modelled in Dafny

odoo-import is a TypeScript language-service plugin. It makes the editor
understand Odoo's JavaScript modules. It does four things:

- It keeps an **alias cache**, which maps a module alias to the file that
  declares it. A file declares an alias with the `@odoo-module alias=`
  pragma or with classic `odoo.define("alias", …)` calls. The cache is kept
  in step with the addon directories by directory watchers.
- It gives every module of a multi-module file its own **virtual path**,
  `file#alias.ext`. It intercepts the host's `readFile` and `fileExists`
  so that such a path reads or probes the physical file.
- When it serves a classic module, it **rewrites the module's terminal
  `return`** into `module.exports=`, so that the compiler sees a CommonJS
  export. This rewrite works from the host's token scanner.
- It **resolves module names**. A cached alias resolves to its real file.
  A scoped `@scope/rest` import made from an Odoo module is looked up under
  `<addon dir>/scope/static/src/rest`. Anything else goes to the original
  resolver.

The project has one module per source file, plus four modules that the
rest builds on:

- `wrappers.dfy`: the `Option` type.
- `js_string.dfy`: `indexOf`, `lastIndexOf`, `substring` (with JavaScript's
  clamping and swapping) and Node's POSIX `path.extname`.
- `js_map.dfy`: a JavaScript `Map` as an insertion-ordered list of bindings.
  The order matters, because both the removal loop and the `readFile`
  interceptor act on the first binding that matches.
- `scanning.dfy`: the host's token scanner, as a cursor over a token
  sequence. The lexer is a parameter, and the model relies only on what
  `WellLexed` states. `WellLexed` is an assumption about the lexer, not a
  property of the host scanner: see "Left out" on escaped keywords.
- `ast_patch.dfy`: `find`, `peek`, `delimited`, `findFinalReturn`,
  `virtualModule`, `replaceFinalReturn` and `replaceLast`.
- `index.dfy`: the plugin itself, a `Plugin` class whose fields are the
  state that `init` and `create` share.
- `utils.dfy`: `inRange`, `findTopLevelStatement`, `quote`, `assert` and
  the `cached` memo wrapper (a `Memo` class).

Each scanner-driven procedure is a module-level method that takes a
`Scanner` object and moves its cursor. It is proved equal to a
specification function over the tokens, and lemmas state what that
function means, in both directions:
- `FinalReturnIsTopLevelReturn` shows that a reported offset spells
  `return` and is the first top-level return of the first block.
- `FinalReturnFindsFirst` shows that such a return is reported, unless a
  top-level `{` before it is followed by `;`.

The cache and watcher updates are methods on the `Plugin` object. Their new state is tied to functions (`Removed`,
`DefineAll`, `Watched`, `Unwatched`, `Closing`), and lemmas state what those
functions keep and change.

Where the code and its prose description disagree, the model follows the
code:

- `findFinalReturn` reports the FIRST `return` met at the top level of the
  first block's body, not the last one.
- For a scoped import, `failedLookupLocations` keeps the candidates EQUAL
  to the chosen file (`options.filter((e) => e == redirect)`), not the
  candidates that failed.
- `refresh` closes watchers by the directory as configured, while
  `initWatchers` registers them by the resolved directory.

## Model

| member | source | states |
|---|---|---|
| JsString.IndexOf | src/ast-patch.ts:92 | `indexOf` is -1 exactly when the needle does not occur; otherwise it is an occurrence with none before it |
| JsString.LastIndexOf | src/ast-patch.ts:121 | `lastIndexOf` is -1 exactly when the needle does not occur; otherwise it is an occurrence with none after it |
| JsString.FirstAndLastDiffer | src/ast-patch.ts:110 | the first and last occurrences of a needle differ exactly when it occurs at two different places |
| JsString.Substring | src/ast-patch.ts:72 | `substring` of in-range, ordered bounds is the slice; the result is never longer than the distance between the bounds |
| JsString.SubstringFrom | src/ast-patch.ts:97 | `substring(a)` is the suffix from `a`, or the whole string when `a` is negative |
| JsString.Extname | src/index.ts:127 | `extname` is empty, or starts with its only `.` and holds no `/` |
| JsString.ExtnameOfBasename | src/index.ts:127 | a non-empty `extname` is the proper suffix of the last path component from its last `.`; it is empty exactly when that component is `..` or has no `.` after its first character |
| JsString.LastIndexOfSeparator | src/index.ts:160 | in `pre + "#" + tail` with no `#` in `tail`, `lastIndexOf("#")` is the length of `pre` |
| JsMap.IndexOf | src/index.ts:196 | the first binding with the key, or none when no binding has it |
| JsMap.SetSpec | src/index.ts:116 | `Map.set` binds the key to the value, leaves every other key as it was, appends a new key and keeps an existing key's position |
| JsMap.DeleteSpec | src/index.ts:106 | `Map.delete` unbinds the key, leaves every other key as it was, and keeps keys distinct |
| Scanning.Scanner.Scan | src/ast-patch.ts:10 | `scan()` moves to the next token, staying on the end of file, and returns its kind |
| Scanning.Scanner.Rewind | src/ast-patch.ts:16-20 | the look-ahead puts the cursor back where it was saved |
| Scanning.Scanner.constructor | src/ast-patch.ts:63-64 | a new scanner over a text starts before its first token |
| Scanning.Scanner.SetText | src/ast-patch.ts:73 | `setText` re-targets the scanner to the new text's tokens, before the first one |
| AstPatch.ScanUntil | src/ast-patch.ts:9-11 | the scan stops after the cursor on a token of one of the two kinds, or on the end of file |
| AstPatch.ScanUntilSkips | src/ast-patch.ts:9-11 | no token of either kind lies between the start and where the scan stops |
| AstPatch.ScanTo | src/ast-patch.ts:40-42 | the inner scan loop leaves the cursor where `ScanUntil` says, on a token of the returned kind |
| AstPatch.Find | src/ast-patch.ts:8-13 | `find` advances to the next token of the kind, or to the end of file, and reports whether it found the kind |
| AstPatch.Ahead | src/ast-patch.ts:18 | scanning `n` times from cursor `c` reaches `c + n`, or the end of file |
| AstPatch.Peek | src/ast-patch.ts:15-21 | `peek` is true exactly when the `count`-th token ahead has the kind, and the scanner is left where it was |
| AstPatch.NetSplit | src/ast-patch.ts:43-49 | the net nesting change over a token range is the sum over its two parts |
| AstPatch.NetQuiet | src/ast-patch.ts:43-49 | tokens of neither delimiter kind do not change the nesting depth |
| AstPatch.MatchFrom | src/ast-patch.ts:38-56 | the matching closer is a `right` token after the cursor and before the end of file |
| AstPatch.MatchFromDepth | src/ast-patch.ts:38-56 | the match is the first token at which the nesting depth returns to zero; with no match the depth never does |
| AstPatch.StopNet | src/ast-patch.ts:40-42 | the depth does not move before the token the inner scan stops on; that token moves it by its own delimiter, and an end-of-file stop is the last token |
| AstPatch.DepthAcrossStop | src/ast-patch.ts:43-49 | a depth that stays positive when counted from the stop stays positive when counted from the cursor, and both counts agree at the end |
| AstPatch.MatchFromBefore | src/ast-patch.ts:38-56 | if the depth goes negative before token `j`, the match lies before `j` |
| AstPatch.MatchNested | src/ast-patch.ts:44-46 | an opener nested inside a matched block has its own match inside that block |
| AstPatch.Nest | src/ast-patch.ts:40-49 | one round scans to the next delimiter or the end of file and updates the depth by it, consistently with `MatchFrom` |
| AstPatch.Close | src/ast-patch.ts:38-56 | the outer loop stops on the matching closer, or at the end of file when there is none |
| AstPatch.DelimitedEnd | src/ast-patch.ts:59 | where an unreset `delimited` leaves the cursor, never before the start |
| AstPatch.SpanFrom | src/ast-patch.ts:36-58 | `_span` returns the matched span and leaves the scanner on the closer |
| AstPatch.Delimited | src/ast-patch.ts:29-60 | `delimited` returns the matched span; with `reset` the scanner is put back, otherwise it rests on the closer |
| AstPatch.ScanReturn | src/ast-patch.ts:74-88 | the body loop returns what `ScanBody` specifies |
| AstPatch.ScanBodyFrom | src/ast-patch.ts:74-88 | what the body loop reports is the offset of the first top-level `return` token after the cursor |
| AstPatch.ScanBodyFindsTopLevelReturn | src/ast-patch.ts:74-88 | what the body loop reports is the offset of the first `return` outside every nested block |
| AstPatch.StopIsTopLevel | src/ast-patch.ts:75-77 | with every block opened so far closed, the token the scan stops on is at the top level |
| AstPatch.ClosedAfterBlock | src/ast-patch.ts:82-84 | after skipping a nested block to its closer, every block opened so far is closed |
| AstPatch.UnblockedAcrossBlock | src/ast-patch.ts:78-84 | skipping a top-level block whose `{` is not followed by `;` does not change whether a later `;` stops the scan |
| AstPatch.ScanBodyFindsFirst | src/ast-patch.ts:74-88 | given the first top-level `return` after the cursor, the body loop reports it when no top-level `{` before it is followed by `;`, and reports nothing otherwise |
| AstPatch.FindFinalReturn | src/ast-patch.ts:62-89 | `findFinalReturn` returns what `FinalReturn` specifies, which `FinalReturnIsTopLevelReturn` and `FinalReturnFindsFirst` characterise |
| AstPatch.FirstBlockInFile | src/ast-patch.ts:67-72 | the first block found holds at least its opening brace and ends before the end of the file, so its contents are a slice of the file |
| AstPatch.ReturnInBody | src/ast-patch.ts:72-81 | a `return` token of the body text spells `return` at the shifted offset in the file |
| AstPatch.FinalReturnIsTopLevelReturn | src/ast-patch.ts:62-89 | the reported offset spells `return` in the file and is the first top-level return of the first block's body |
| AstPatch.FinalReturnSpellsReturn | src/ast-patch.ts:81 | the reported offset is where `return` is written, for a lexer that spells every `return` keyword out (no escaped keywords) |
| AstPatch.FinalReturnFindsFirst | src/ast-patch.ts:62-89 | for the first top-level `return` of the first block's body, `findFinalReturn` reports its offset in the file, unless a top-level `{` before it is followed by `;`, in which case it reports nothing |
| AstPatch.ReplaceLast | src/ast-patch.ts:120-126 | `replaceLast` replaces the last occurrence of the needle, or returns the text unchanged when there is none |
| AstPatch.ReplaceLastAppends | src/ast-patch.ts:120-126 | replacing the last needle by the needle and an extra text inserts that text right after the last needle |
| AstPatch.ArrowExport | src/ast-patch.ts:117 | the arrow fallback inserts `module.exports=` right after the last `=>`, or changes nothing |
| AstPatch.ArrowExportLast | src/ast-patch.ts:117 | a file with an arrow gets `module.exports=` right after its last `=>` |
| AstPatch.SpliceSuffix | src/ast-patch.ts:97-101 | rewriting a `return` found in a suffix of the file rewrites that `return` in the file itself |
| AstPatch.VirtualModuleSplice | src/ast-patch.ts:91-102 | when the module after the alias has a located return, `virtualModule` rewrites that return in place |
| AstPatch.VirtualModuleRewritesOneReturn | src/ast-patch.ts:91-102 | `virtualModule` leaves the file alone when the alias is absent; otherwise it turns at most one `return`, at or after the quote before the alias, into `module.exports=` |
| AstPatch.VirtualModule | src/ast-patch.ts:91-99 | `virtualModule` returns the file unchanged when the alias does not occur in it, and when no return is located in the module that starts at the quote before the alias |
| AstPatch.ReplaceFinalReturn | src/ast-patch.ts:109-118 | a file naming `odoo` twice goes to `virtualModule`; otherwise, with no located return, the last `=>` gets `module.exports=` |
| AstPatch.ReplaceFinalReturnEdit | src/ast-patch.ts:109-118 | with `odoo` twice the result is `virtualModule`'s. Otherwise a located return is rewritten in place, and with none the result is `replaceLast(file, "=>", "=>module.exports=")`. In every case the result is the file, the file with one `return` rewritten, or the file with `module.exports=` after the last `=>` |
| Utils.InRangeUnique | src/utils.ts:40-44 | in ordered, disjoint statements at most one range contains a position |
| Utils.OrderedBefore | src/utils.ts:40-44 | in ordered statements a range ends no later than any later range starts |
| Utils.InRange | src/utils.ts:13-15 | the start is inclusive and the end exclusive: a position is outside when before the start or at or after the end, and only a non-empty range contains one |
| Utils.FindTopLevelStatement | src/utils.ts:40-44 | the first statement whose half-open range contains the position, none exactly when no statement contains it, and, for ordered statements, the only one |
| Utils.JoinAppend | src/utils.ts:30 | joining one more piece appends it |
| Utils.InterleaveAppend | src/utils.ts:20-29 | interleaving one more piece appends it and its substitution, when a token is left for it |
| Utils.InterleaveWithoutTokens | src/utils.ts:17-31 | without tokens, `quote` is the concatenation of the pieces |
| Utils.Reversed | src/utils.ts:18 | reversing keeps the length |
| Utils.ReversedAt | src/utils.ts:18 | element `k` of the reversed sequence is element `|s| - 1 - k` of the original |
| Utils.Quote | src/utils.ts:17-31 | `quote` returns the pieces interleaved in order with the rendered tokens; a falsy token renders as `""`, and surplus tokens are dropped |
| Utils.AnyAccepts | src/utils.ts:8 | `some` is true exactly when some guard accepts the value |
| Utils.Assert | src/utils.ts:4-10 | `assert` returns exactly when the guard, or some guard of the array, accepts the value; otherwise it throws "Assertion error" |
| Utils.Memo.constructor | src/utils.ts:46-49 | a new wrapper has an empty table and zero counters |
| Utils.Memo.Call | src/utils.ts:50-58 | the wrapper returns `func`'s result; a cached argument counts a hit and leaves the table alone, a new one counts a miss and stores the result |
| Utils.Memo.Reset | src/utils.ts:59 | `reset` empties the table and keeps every stored result correct |
| Utils.Memo.Report | src/utils.ts:60 | `report` gives hits and misses that add up to the number of calls |
| Plugin.Search | src/index.ts:43-48 | `search` is true exactly when one of the needles occurs in the source |
| Plugin.Exclude | src/index.ts:50-52 | `exclude` is never longer than its left list |
| Plugin.ExcludeSpec | src/index.ts:50-52 | `exclude` keeps exactly the elements of the left list that are not in the right one, each as often as it occurs |
| Plugin.ExcludeAppend | src/index.ts:50-52 | the filter keeps order: excluding from a concatenation concatenates the results |
| Plugin.Decode | src/index.ts:160-166 | a path is virtual exactly when it holds `#`; the physical file is everything before the last `#`; the alias is the text between that `#` and the extension |
| Plugin.Encode | src/index.ts:127 | a module's virtual path is the file, then `#`, then the alias, then as many characters as the extension |
| Plugin.DecodeEncode | src/index.ts:127 | decoding a module's virtual path gives back its file and alias, when the alias holds no `#`, its last `/`-component (if it has a `/`) is neither empty nor `.` (`NamedTail`), and the file has an extension without `#` |
| Plugin.DecodeEncodeSlashAlias | src/index.ts:127 | for an alias ending in `/` (such as `x/`) the round trip fails: the extension is read back as part of the alias |
| Plugin.FileExistsThrough | src/index.ts:183-192 | the `fileExists` interceptor probes a path without `#` as it is, and any path holding `#` by the prefix before its last `#` |
| Plugin.Intercepted | src/index.ts:183-192 | the installed `fileExists` is the interceptor over the host's one |
| Plugin.FileExistsEncoded | src/index.ts:183-192 | a module's virtual path exists exactly when its physical file does |
| Plugin.SetKeepsValid | src/index.ts:116 | binding an alias to an entry of the shape `updateCache` stores keeps the cache valid |
| Plugin.DefineAllSpec | src/index.ts:121-132 | after the define loop every found alias is bound to its entry, virtual exactly when there are several; other aliases keep their binding; the cache stays valid |
| Plugin.FirstWithPath | src/index.ts:103-104 | the first binding, in iteration order, whose path is the file; none when no binding has it |
| Plugin.RemovedSpec | src/index.ts:102-110 | the removal deletes the first binding stored under the file and nothing else; the cache stays valid; a module of a multi-module file is never removed by its real file's name |
| Plugin.FirstClassic | src/index.ts:172-173 | the first classic binding, in iteration order, stored under the path |
| Plugin.ReadThrough | src/index.ts:158-181 | the `readFile` interceptor fails exactly when the underlying read fails, and an empty text passes through on both branches; a virtual path with non-empty text reads as `replaceFinalReturn` of its file for the decoded alias; a non-virtual path reads as it is without a classic binding, and as `replaceFinalReturn` for the first classic alias stored under it when its text is non-empty |
| Plugin.ReadEncoded | src/index.ts:162-166 | reading a module's virtual path gives its file with that module's return rewritten |
| Plugin.ExtensionOf | src/index.ts:201 | the extension starts with `.`, and is `extname` when that is not empty |
| Plugin.ScopedTarget | src/index.ts:207 | a name that does not start with `@` is left as it is |
| Plugin.ScopedTargetOf | src/index.ts:207 | `@scope/rest` is looked up as the expanded `dir/$1/static/src/$2`, which is `dir/scope/static/src/rest` when `dir` holds no `$` |
| Plugin.ScopedSplit | src/index.ts:41 | the import pattern splits `@scope/rest` into `scope` and `rest` |
| Plugin.Piece | src/index.ts:207 | each step of the `$` expansion uses up at least one template character, and copies a character other than `$` |
| Plugin.ExpandLiteral | src/index.ts:207 | replacement text without `$` is copied as it is |
| Plugin.ExpandCapture | src/index.ts:207 | `$n` not followed by a digit gives capture `n` |
| Plugin.ExpandDollarStep | src/index.ts:207 | `$$` gives one `$` |
| Plugin.ExpandTwoCaptures | src/index.ts:207 | `a$1b$2`, with no `$` in `a` or `b` and no digit opening `b`, gives `a`, the first capture, `b` and the second capture |
| Plugin.ExpandScopedTail | src/index.ts:207 | `/$1/static/src/$2` gives `/scope/static/src/rest` |
| Plugin.ExpandPlainDir | src/index.ts:207 | an addon directory without `$` is copied into the target as it is |
| Plugin.ExpandDollarDir | src/index.ts:207 | a `$$` inside an addon directory comes out as a single `$` |
| Plugin.ScopedTargetDollar | src/index.ts:207 | an addon directory `left$$right` without other `$` makes `@scope/rest` look up `left$right/scope/static/src/rest` |
| Plugin.FirstExisting | src/index.ts:208 | the first option that exists, or `""` when none does |
| Plugin.KeepEqual | src/index.ts:209 | the filter keeps every option equal to the chosen one, as many times as it occurs |
| Plugin.Candidates | src/index.ts:207 | one candidate per addon directory, in order |
| Plugin.ScopedResolution | src/index.ts:206-216 | the resolved file is the first candidate that exists, or `""`; the extension starts with `.`; the failed locations are the candidates equal to it |
| Plugin.ScopedImport | src/index.ts:206 | an import is scoped exactly when its name starts with `@` and the importing file was read and names `@odoo-module` or `odoo.define` |
| Plugin.Defaulted | src/index.ts:85-86 | an absent directory list gets `pwd/addons`; a present one, even empty, stays |
| Plugin.WatchedSpec | src/index.ts:137-149 | watching adds exactly the directories not watched yet, each under a new handle, and keeps every existing watcher |
| Plugin.WatchedKnown | src/index.ts:139 | directories that are all watched already change nothing |
| Plugin.WatchedIdempotent | src/index.ts:137-149 | `initWatchers` run twice over the same directories is `initWatchers` run once |
| Plugin.UnwatchedSpec | src/index.ts:91-95 | forgetting removes exactly the removed directories and keeps the other handles |
| Plugin.ClosingSpec | src/index.ts:91-95 | `refresh` closes exactly the watchers of removed directories, at most one per removed entry |
| Plugin.Plugin.AddonDirs | src/index.ts:86 | one resolved directory per configured one, in order |
| Plugin.Plugin.constructor | src/index.ts:77-86 | `create` defaults the configuration, starts with an empty cache and watches the addon directories and `pwd` |
| Plugin.Plugin.AddonsDir | src/index.ts:85-86 | `addonsDir` defaults the stored configuration and returns the resolved directories |
| Plugin.Plugin.InitWatchers | src/index.ts:137-149 | `initWatchers` leaves the registry that `Watched` gives over the addon directories and `pwd` |
| Plugin.Plugin.Refresh | src/index.ts:89-98 | `refresh` closes and forgets the watchers of the dropped directories, watches the current ones and refreshes diagnostics once |
| Plugin.Plugin.OnConfigurationUpdated | src/index.ts:64-68 | the new configuration is adopted and refreshed against the old one |
| Plugin.Plugin.RemoveFile | src/index.ts:102-110 | the removal loop leaves `Removed`, and refreshes diagnostics only when it deleted a binding |
| Plugin.Plugin.DefineModules | src/index.ts:121-133 | the define loop leaves `DefineAll`, virtual exactly when there are several aliases, and refreshes diagnostics when there was one |
| Plugin.Plugin.UpdateCache | src/index.ts:100-135 | empty or absent contents remove the file's first binding; otherwise the pragma alias alone is bound; otherwise every define alias is bound; the cache stays valid |
| Plugin.Plugin.ResolveModuleName | src/index.ts:194-220 | a cached alias resolves to its real file with no failed locations; a scoped import from an Odoo module gets the scoped answer through the `fileExists` interceptor; anything else is delegated |

## Left out

- `decorate` (src/index.ts:19-35) is left out. It installs the interceptors by overriding property setters, which is host plumbing. The model states each interceptor directly (`ReadThrough`, `FileExistsThrough`, `ResolveModuleName`).
- The completion and refactoring hooks (src/index.ts:222-275) are left out. src/refactors.ts and scripts/build.js are not part of this model.
- `isInImport` (src/utils.ts:33-38) is left out: it only inspects host syntax nodes.
- Lexing is left out. The host scanner's tokens are the result of a lexer parameter, and only its soundness (`WellLexed`) is assumed. Token kinds other than braces, `return`, `;` and end of file are collapsed into one.
- Scanning.LexemeAt: assumes that every `return` keyword token is spelled `return` in the text. The host scanner does not promise this: a keyword written with a Unicode escape, such as `r\u0065turn`, is still scanned as the `return` keyword (the parser only reports an error). On such text `replaceFinalReturn` overwrites six characters that are not `return`. The model does not cover that case, and `AstPatch.FinalReturnSpellsReturn` holds only for texts without escaped keywords.
- I/O is modelled by parameters or left out:
  - `ts.sys.readFile` is contents passed in, or a function parameter.
  - `watchDirectory` hands out numbered handles, and closing is recorded.
  - `resolvePath` and `fileExists` are function parameters.
  - `refreshDiagnostics` is a counter.
  - The initial walk over the addon files (the `Walker`) is left out; it calls `UpdateCache` per file.
  - Logging is left out, together with its operator-precedence slip at src/index.ts:79, which only affects the log text.
- The two regular expressions that detect aliases are left out; they are function parameters (`pragmaAlias`, `defineAliases`). Left out with them is the `lastIndex` state that a global regular expression carries between `exec` calls.
- Plugin.ScopedTarget: models the import pattern by its effect, not by a regular-expression engine. The split is at the first `/` after the scope's first character, and there is no match when that `/` ends the name or a line terminator follows the `@`. The `$` expansion of the replacement text is modelled (`Expand`).
- Utils.Memo: the table is keyed by argument value. The source keys a `WeakMap` by the arguments array, which is new on every call, so it never hits. The model keeps the value-keyed reading and its hit/miss accounting.
- Plugin.ReadThrough: calls `ReplaceFinalReturn` directly rather than through the memo. The memo returns what the function returns (`Utils.Memo.Call`), so the text read is the same.
- The `watchers` map is shared by every `create` of one `init` (src/index.ts:63); the model has one plugin object per `init`.
- `onConfigurationChanged` called before any `create` is left out: its `refresh` is still undefined and nothing happens beyond storing the configuration.
- AstPatch.Delimited: requires that neither delimiter is the end-of-file kind. Every call site passes braces, and the `default` branch of the source's switch (an unexpected token) is then unreachable.
- Strings: each `char` stands for one UTF-16 code unit of a JavaScript string. Nothing depends on the alphabet, and no Unicode normalisation is modelled.
- JsString.Extname: models Node's POSIX `path.extname`. On Windows, Node's `path` is the win32 variant, with backslash separators and drive letters; that variant is left out.
