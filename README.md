# Gherkin step index — a Dafny model of `Global`

This project models the core of a Gherkin autocomplete extension: the `Global` class in
`src/global.ts`. That class keeps an in-memory index of the steps declared in `.feature` files.
It has three parts:

- a readiness flag, `cacheUpdates`;
- a collection of step records, `db`, one record per step with its text, line and file;
- a collection of language records, `languages`. One is appended on every parse of a document that
  has a feature node. Each refresh of a file and each `getCacheLocal` call parses again, so the same
  file can have several language records; `getLanguageInfo` returns its oldest.

The index can be built from discovered files and refreshed one file at a time. It answers
case-insensitive queries: prefix, exact, suffix, substring, and "every space-separated token".
`query` and `queryAny` return their results sorted by name; `getCacheLocal` does not sort. A cursor token can also be
resolved into a dotted name by looking at the text next to it.

Modules, from the leaves up:

- `Wrappers`: `Option`.
- `Records`: `MethodValue` (IMethodValue) and `LanguageInfo` (ILanguageInfo).
- `Text`: case folding, prefix, suffix and substring tests, `split`/`join` on one character, and
  the string order used for sorting.
- `Extraction`: the parsed Gherkin tree (an input), plus what `parse` makes of it.
- `Store`: the lokijs operations the class uses, over sequences in insertion order. These are
  `simplesort("name")`, `findOne({name})` and the two `removeWhere` predicates (as written and as
  intended).
- `Query`: each regular expression the class builds, reified as a datatype `Pattern`. `Test`
  gives the search semantics of `RegExp.prototype.test` for it. The builder of each expression
  states what the expression selects in terms of plain string predicates.
- `Resolver`: `fullNameRecursor` over one line of text, together with the editor's
  word-range-at-position.
- `Index`: `class Global` with the fields `cacheUpdates`, `db` and `languages`. Its methods are
  proved against the functions above. Its object invariant `Valid()` says that every indexed record
  has the shape `addFileToCache` gives it.

Inputs the model takes as parameters, instead of performing them:

- The parser's result for a document, as `ParseOutcome`: a tree, or `ParseError` for an exception.
- The discovered files, as `FeatureFile(path, parse outcome)`.
- The result of the workspace search and of each library glob, as `Option<seq<FeatureFile>>`.
  `None` means the search was rejected, or there is no workspace root, or the glob reported an
  error.

On these points the model follows the code:

- Sorting uses lokijs `simplesort` on the raw `name`. For non-empty, non-numeric names that is
  JavaScript's `<` on strings: case-sensitive, not case-insensitive alphabetical. Numeric strings and
  falsy names are compared differently (see `Store.SortByName` under "## Left out").
- A feature with no `children` still adds its language record, with zero step records.
- Refreshing a file removes every record, not only that file's records (see Findings).
- The not-ready answer is an empty sequence, or the default `en` language record. It is not a
  separate tagged result.

## Model

| member | source | states |
|---|---|---|
| `Extraction.StepRecords` | src/global.ts:227-245 | every record made from a child's steps carries the given filename, `name == description`, `line == endline` and kind `Unset` (which step each record comes from is `Extraction.StepRecordsAt`) |
| `Extraction.StepRecordsLength` | src/global.ts:227-245 | extraction yields exactly one record per step over all children |
| `Extraction.StepRecordsAt` | src/global.ts:228-244 | step j of child i is the record at position (steps of children before i) + j, so records come child by child, step by step |
| `Extraction.ExtractSteps` | src/global.ts:205-225 | a parse exception or a missing feature node yields no step records and no language record; a parsed feature yields one record per step over its children, so none without `children` (src/global.ts:223-225) or with empty ones; every record has the argument filename, `name == description`, `line == endline` |
| `Extraction.ExtractLanguage` | src/global.ts:205-222 | there is a language record exactly when the document parsed and has a feature node; it holds the feature's language and the filename |
| `Extraction.ExtractStepsOfFeature` | src/global.ts:223-245 | for a parsed feature with children, the record of each step has that step's text as name and description, its line as line and endline, and the given filename |
| `Store.RemoveWhereAssigned` | src/global.ts:79 | as written: a non-empty path removes every record; the empty path keeps every record, in order, with its filename overwritten by the empty string |
| `Store.SortByName` | src/global.ts:91 | `simplesort("name")` returns the same records (as a multiset) in non-decreasing name order |
| `Store.FindLanguage` | src/global.ts:124 | `findOne({name})` gives the first language record with that name, and None exactly when no record has it |
| `Store.RemoveFileRecords` | src/global.ts:79 | the intended removal keeps exactly the records of other files, each as many times as before |
| `Store.RemoveFileRecordsAppend` | src/global.ts:79 | the intended removal keeps collection order: removing from a concatenation is the concatenation of the removals |
| `Store.RemoveFileRecordsOne` | src/global.ts:79 | the intended removal keeps a single record exactly when it belongs to another file |
| `Store.AssignedRemovalDropsOtherFiles` | src/global.ts:79 | as written, refreshing `/a.feature` removes the `/b.feature` record too, which the intended removal keeps |
| `Text.Split` | src/global.ts:101 | `split(" ")` yields at least one piece and no piece contains the separator |
| `Text.SplitJoin` | src/global.ts:101 | joining the pieces of `split` with the separator gives back the input |
| `Text.LexLeTotal` | src/global.ts:91 | any two names are comparable under the sort order |
| `Text.LexLeTransitive` | src/global.ts:91 | the sort order is transitive |
| `Text.LexLeAntisymmetric` | src/global.ts:91 | names that are ordered both ways are equal |
| `Query.Test` | src/global.ts:88-91 | `RegExp.test` with flag `i`: a literal expression matches only a name at least as long as the folded word, and the lookahead expression only a non-empty name |
| `Query.LiteralMatch` | src/global.ts:33-35 | the regex `^?word$?` with flag `i` accepts a name exactly when the folded name equals, starts with, ends with or contains the folded word, by anchoring |
| `Query.AllTokensMatch` | src/global.ts:102-109 | the lookahead regex `(?=.*t1)…(?=.*tn).+` accepts a name exactly when it is non-empty and contains every token, case-insensitively |
| `Query.Filter` | src/global.ts:36 | `find` keeps each record whose name matches, as many times as it is stored, and no other |
| `Query.FilterAppend` | src/global.ts:36 | `find` keeps collection order: filtering a concatenation is the concatenation of the filtered parts, so `getCacheLocal` answers in extraction order |
| `Query.FilterOne` | src/global.ts:36 | a single record is kept exactly when its name matches |
| `Query.Select` | src/global.ts:90-91 | `find(...).simplesort("name")` returns exactly the matching records of the collection (with multiplicity), sorted by name |
| `Query.QueryPattern` | src/global.ts:88-90 | the expression built from `query`'s flags selects by prefix when `all` and not `lazy`, exactly when neither, by suffix when `lazy` and not `all`, by substring when both, all case-insensitively |
| `Query.LocalPattern` | src/global.ts:33-35 | the expression built from `getCacheLocal`'s flags selects by prefix by default, exactly when not `allToEnd`, by suffix when neither, by substring when `allToEnd` but not `fromFirst` |
| `Query.AnyPattern` | src/global.ts:101-109 | the expression `queryAny(w)` builds selects the non-empty names that contain every piece of `w.split(" ")`, in any order, case-insensitively |
| `Query.PrefixExamples` | src/global.ts:88-91 | the default query for "Given" selects "Given a user" and not "I am given something" |
| `Resolver.WordRangeAt` | src/global.ts:150 | the word range at a column is a maximal run of word characters containing the clamped column (its end included); none exists exactly when neither neighbour of the column is a word character |
| `Resolver.FullNameRecursor` | src/global.ts:127-170 | with no dot beside the token (or leftwards from column 0) the token comes back unchanged; leftwards the result ends with `leftWord + "." + word` and rightwards starts with `word + "." + rightWord`; leftwards with no word before the dot it throws; the recursion terminates |
| `Resolver.RightLookupRepeatsToken` | src/global.ts:158 | as written, resolving `bar` rightwards in `foo.bar.baz` gives `bar.bar` |
| `Resolver.LeftDotWithoutWordThrows` | src/global.ts:150-152 | as written, resolving `bar` leftwards in `.bar` throws |
| `Resolver.NoBreakSpaceEndsWord` | src/global.ts:150-152 | the word definition excludes all of JavaScript's `\s`: on `x`, no-break space, `.bar`, no word precedes the dot, so going left throws |
| `Resolver.LeftLookupAsIntended` | src/global.ts:146-156 | resolving `bar` leftwards in `foo.bar.baz` gives `foo.bar` |
| `Resolver.ResolveQualifiedName` | src/global.ts:127-170 | the intended resolver: a left step glues the word ending just before the dot, a right step glues the word starting just after it, and a dot with no word beyond it stops; left results end with the token, right results start with it |
| `Resolver.ResolveExamples` | src/global.ts:127-170 | the intended resolver gives `foo.bar` leftwards and `bar.baz` rightwards from `bar` in `foo.bar.baz`, and the token unchanged at column 0 or after a bare dot |
| `Index.Discovered` | src/global.ts:45-75 | the files the searches deliver are exactly those of a successful workspace search and of every successful library glob |
| `Index.FileRecords` | src/global.ts:184-197 | `addFileToCache` inserts one record per extracted entry, with the file's path, `name == description` (the entry's name), `line`/`endline` copied and kind `Module` |
| `Index.RemovalsKeepWellFormed` | src/global.ts:79 | both removals keep the shape of every remaining record |
| `Index.UpdateIsolation` | src/global.ts:78-81 | with the intended removal, refreshing a file leaves every other file's records unchanged in number and content, and the file's own records are exactly its fresh ones |
| `Index.Global.constructor` | src/global.ts:20-23 | a new index is not built and holds nothing |
| `Index.Global.UpdateCache` | src/global.ts:40-44 | `updateCache` sets the flag and starts fresh empty collections |
| `Index.Global.CompleteUpdateCache` | src/global.ts:45-75 | the scheduled completions append the records and language records of the workspace files, then of each library's files; a failed search contributes nothing |
| `Index.Global.AddToCacheFiles` | src/global.ts:172-177 | `addtocachefiles` appends the records of every file, file by file |
| `Index.Global.AddFileToCache` | src/global.ts:179-198 | `addFileToCache` appends the file's records after the existing ones, which are unchanged, plus the file's language record |
| `Index.Global.UpdateCacheOfTextDocument` | src/global.ts:78-81 | as written: for a non-empty path the collection becomes exactly the file's fresh records; languages are never pruned |
| `Index.Global.UpdateFileInCache` | src/global.ts:78-81 | as intended: the file's old records are removed and its fresh records appended |
| `Index.Global.Parse` | src/global.ts:200-250 | `parse` returns the extracted records and appends the language record exactly when the document parsed and has a feature node |
| `Index.Global.Query` | src/global.ts:83-94 | not built: starts the build (flag set, empty collections) and returns nothing; built: returns the matching records sorted by name and changes nothing; on a valid index every result has the indexed shape (kind `Module`, `name == description`, `line == endline`) |
| `Index.Global.QueryAny` | src/global.ts:96-112 | gated like `query`; built: returns the records matching every token, sorted by name, changing nothing; on a valid index every result has the indexed shape |
| `Index.Global.GetLanguageInfo` | src/global.ts:114-125 | not built: starts the build and answers `{language: "en", name: filename}`; built: the first language record of the file, or none |
| `Index.Global.GetCacheLocal` | src/global.ts:25-38 | parses the document (appending its language record) and returns its matching step records, unsorted |

## Left out

- VS Code APIs are left out: `workspace.findFiles`, `getConfiguration`, `Uri`, `setStatusBarMessage` and `CompletionItemKind`. Ranges are column pairs on one line. The kind is a constant tag.
- File reading is left out. `fs.readFileSync` and its exceptions are I/O, so each discovered file arrives with its parse outcome already attached.
- File discovery is left out: glob expansion and the 1000-file cap of the workspace search. Discovered files are an input.
- The Gherkin parser is a foreign library. Its tree, or its exception, is an input. A child whose `steps` is undefined would throw an uncaught TypeError in the source; the model's `Child` always has steps.
- The language attribute is a plain string. The source would store `undefined` for a feature node without one.
- The completion order of the asynchronous searches is left out. `CompleteUpdateCache` runs the completions sequentially: the workspace first, then the libraries in order. The "cache is built" message is left out.
- lokijs internals are left out:
  - `addCollection` reusing an existing collection when `updateCache` runs again (the model starts fresh empty collections);
  - the `$loki`/`meta` fields of stored records;
  - the persistence names.
- `Store.SortByName`: states a non-decreasing, permuted result under `Text.LexLe`, which compares code points. JavaScript's `<` compares UTF-16 code units; the two orders differ only between a character above U+FFFF and one in U+E000–U+FFFF. It does not model lokijs's comparator, which treats numeric strings as numbers and falsy values specially. It does not state stability.
- Regular expressions treat `word` and each token as literal text. Metacharacters in user input are not modelled.
- `Query.Test`: case folding covers ASCII and basic Cyrillic letters only. Step names are assumed to hold no line terminators, which `.` would not match.
- The collections exist only after `updateCache`. Methods that write them therefore require `cacheUpdates`. The source throws a TypeError there, except that a failed parse never touches the collections.
- `Resolver.WordRangeAt`: models the editor's default word definition as maximal runs of characters that are neither separators nor JavaScript `\s` whitespace. It leaves out the numeric alternative (`-?\d*\.\d\w*`) and the editor's windowed search.
- `Resolver.FullNameRecursor`: models a single-line document. `getText(undefined)` returns the whole document, which here is that line.
- `Resolver.FullNameRecursor` keeps the source's re-entry columns (`start - 2`, `end + 2`). These can skip chain links: leftwards from `d` in `a.b.c.d` gives `a.c.d`. No whole-chain property is claimed.
- Error logging is left out: `console.log`/`console.error` of a rejected search, a glob error, a parse exception and a missing feature node (src/global.ts:51, 63, 208, 218). The model keeps the control flow around them: on each of these paths nothing is added.
- Several members do no work and are left out: the `dbcalls` collection, the `exec` constructor argument (accepted and unused), the unused `update` flag of `getCacheLocal`, the unused `filename` argument of the queries, and the commented-out quote stripping at src/global.ts:234.

## Findings

| source | as written | input that shows it | evidently intended | confidence | as-written member | corrected member |
|---|---|---|---|---|---|---|
| src/global.ts:79 | `removeWhere` gets `obj.filename = uri.fsPath`, an assignment. Its value, the path, is truthy, so every record is removed. | index with one record of `/a.feature` and one of `/b.feature`; refresh `/a.feature` | `===`, so only `/a.feature`'s records are removed | high, not executed | `Store.RemoveWhereAssigned`, `Store.AssignedRemovalDropsOtherFiles` | `Store.RemoveFileRecords`, `Index.UpdateIsolation` |
| src/global.ts:158 | the rightward word is looked up at `newRange.start`, the token's own end column. That finds the token itself. | line `foo.bar.baz`, word `bar`, range 4-7, rightwards: gives `bar.bar` | look up at `newRange.end`, just past the dot, giving `bar.baz` | medium, not executed | `Resolver.RightLookupRepeatsToken` | `Resolver.ResolveQualifiedName` |
| src/global.ts:150-152 | with no word before the dot, `leftWordRange` is undefined. Reading its `start` throws. | line `.bar`, word `bar`, range 1-4, leftwards | stop and return `bar` | medium, not executed | `Resolver.LeftDotWithoutWordThrows` | `Resolver.ResolveExamples` |
