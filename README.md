# SCSS variables, template data and output names of the e-mail template build

This project models, in Dafny, the data-handling core of the gulp build script
(`gulpfile.js`) of an MJML + Handlebars e-mail template kit. The core has four parts.

- **`extractSassVariables`.** It walks the global regular expression
  `/(\$[a-zA-Z0-9-_]+)\s*:\s*([^;]+)/g` over the text of a stylesheet with repeated
  `exec` calls. From each match it takes a name and a value: it removes the first `$` and
  trims. It then assigns the pair to a fresh plain object.
- **The alias pass of `convertScssVariablesToJson`.** One `for...in` loop over that object.
  When a variable's value is itself the name of a variable with a non-empty value, the
  first variable takes that value.
- **`getJsonData`.** It merges the parsed `data.json` and `styles.json` with object
  spread, so `styles.json` wins on a clash.
- **The two `rename` callbacks.** The first gives a compiled page the preview name
  `<basename>-preview.html`. The second gives it the final name: the first `-preview` is
  removed from the basename and the extension is set to `.html`.

The modules are:

- `Text`: the ECMAScript whitespace set, `trim`, and `replace` with a string pattern (first
  occurrence only).
- `Tables`: a JavaScript object as a value (`Table`: enumeration order plus bindings),
  property copy as in object spread, and the mutable `PlainObject` class.
- `Scanner`: the regular expression. `IsSplit` says what a match of the pattern is.
  `Prefers` and `Precedes` give the order in which a backtracking engine tries matches.
  `MatchAt` and `FindFrom` compute the match that `exec` reports. The `VariableRegex`
  class holds `lastIndex`.
- `Extraction`: the `exec` loop, as a method proved against the functions
  `Declarations` and `TableOf`.
- `Resolution`: the alias pass, as a method proved against `ResolvePass`.
- `Templates`: the merge and the two renames.

A declaration whose `;` is missing is not dropped. Its value runs on to the next `;` or
to the end of the text, and swallows any declarations in between
(`Scanner.ReportedValueRunsToTerminator`, `Scanner.SplitsInOrder`).

## Model

| member | source | states |
|---|---|---|
| Text.IsSpace | gulpfile.js:42-49 | Definition of the whitespace set shared by `\s` and `trim()`: ECMAScript's WhiteSpace and LineTerminator code points. `Text.Trim` and `Scanner.IsSplit` use it. |
| Text.Trim | gulpfile.js:48-49 | `trim()` leaves a string with no whitespace at either end. The result is a slice of the input, and everything around that slice is whitespace. |
| Text.TrimKeepsOnly | gulpfile.js:49 | Trimming adds no character, so a value without `;` stays without `;`. |
| Text.TrimOfTrimmed | gulpfile.js:48 | A string with no whitespace at either end trims to itself. |
| Text.TrimOfSpaces | gulpfile.js:49 | A string made only of whitespace trims to the empty string. |
| Text.IndexOf | gulpfile.js:48-49 | Finds the first occurrence of the pattern at or after `from`. No occurrence lies between `from` and it, and `None` means there is none at or after `from`. |
| Text.RemoveFirst | gulpfile.js:48-49 | `replace(needle, '')` never lengthens the string. It is the definition that `Text.RemoveFirstCutsFirstOccurrence` characterises. |
| Text.RemoveFirstCutsFirstOccurrence | gulpfile.js:48-49 | `replace(needle, '')` cuts out exactly the first occurrence. A string without the needle is returned unchanged. |
| Text.RemoveFirstOfPrefixed | gulpfile.js:48 | A group that starts with `$` loses exactly that `$`. |
| Text.RemoveFirstKeepsOnly | gulpfile.js:49 | Removing the first `$` adds no character. |
| Text.RemoveFirstOfAbsent | gulpfile.js:49 | A value with no `$` is left unchanged by `replace('$', '')`. |
| Text.RemoveFirstOfChar | gulpfile.js:48-49 | Only the first `$` goes; any later `$` stays. |
| Tables.Table.Put | gulpfile.js:50 | `obj[k] = v`: binds `k` to `v` and leaves every other property alone. A new name goes to the end of the enumeration order; an existing one keeps its place. Names stay distinct. |
| Tables.Table.Get | gulpfile.js:62 | `obj[k]` is the bound value, or nothing for a missing property. |
| Tables.Empty | gulpfile.js:43 | `{}` has no properties. |
| Tables.NewKeys | gulpfile.js:25-28 | The names of `ks` that are not yet known, and no others. |
| Tables.CopyProperties | gulpfile.js:25-28 | Copying properties one by one keeps the object well formed. |
| Tables.CopyPropertiesValues | gulpfile.js:25-28 | After copying, the property set is the union. Each copied name holds the source's value, and every other name keeps its old value. |
| Tables.CopyPropertiesKeys | gulpfile.js:25-28 | Copying appends the names the target did not have, in the source's order. |
| Tables.PlainObject.constructor | gulpfile.js:43 | A fresh object is `{}`. |
| Tables.PlainObject.Get | gulpfile.js:62 | Reads the object as `Table.Get` reads its snapshot. |
| Tables.PlainObject.Set | gulpfile.js:50 | The assignment changes the object exactly as `Table.Put` changes its snapshot, and keeps it well formed. |
| Scanner.IsSplit | gulpfile.js:42 | Definition of one way the pattern matches: `$`, one or more name characters, whitespace, `:`, whitespace, one or more characters other than `;`. `Scanner.MatchAtIsPreferred` and `Scanner.FindFromIsLeftmostPreferred` relate the search to it. |
| Scanner.Prefers | gulpfile.js:42 | Definition of the backtracking engine's preference among matches at one position: the lexicographically greatest lengths of the greedy runs. `Scanner.MatchAtIsPreferred` proves the search follows it. |
| Scanner.Precedes | gulpfile.js:47 | Definition of the match `exec` reports first: the leftmost, then the preferred. `Scanner.FindFromIsLeftmostPreferred` proves the search follows it. |
| Scanner.RunEnd | gulpfile.js:42 | A greedy quantifier's first try: the longest run of class characters from `k`. |
| Scanner.MatchAt | gulpfile.js:42 | The attempt at one position yields only real matches that start there. |
| Scanner.SplitFixesNameAndColon | gulpfile.js:42 | Every match at a position has the longest name run and the longest whitespace run before `:`. |
| Scanner.MatchAtIsPreferred | gulpfile.js:42 | The attempt at `i` finds a match if and only if the pattern can match at `i`. The match it finds is the one the backtracking engine prefers over every other match there. |
| Scanner.ValueMatch | gulpfile.js:42 | A declaration whose value starts with a character that is neither whitespace nor `;` matches with the longest runs, and its value runs to the `;` or the end. |
| Scanner.BlankMatch | gulpfile.js:42 | When only whitespace follows the colon, `\s*` gives back one whitespace character and `[^;]+` matches it. |
| Scanner.FindFrom | gulpfile.js:47 | The search from `lastIndex` yields only matches at or after `lastIndex`. |
| Scanner.FindFromIsLeftmostPreferred | gulpfile.js:47 | `exec` reports the leftmost match, and among matches at that position the preferred one. It fails only when nothing matches from `lastIndex` on. |
| Scanner.ReportedValueRunsToTerminator | gulpfile.js:42 | A reported value always ends at a `;` or at the end of the text. |
| Scanner.NoMatchWithoutValue | gulpfile.js:42 | `$name:` followed directly by `;` or by the end of the text matches nothing at that `$`. |
| Scanner.VariableRegex.constructor | gulpfile.js:42 | A new regular expression starts with `lastIndex` 0. |
| Scanner.VariableRegex.Exec | gulpfile.js:47 | `exec` returns the search result from the old `lastIndex`. It moves `lastIndex` to the end of the match, or resets it to 0 when there is no match. |
| Scanner.Splits | gulpfile.js:47 | The successive matches start at or after the starting index, and each ends after it starts. |
| Scanner.SplitsAdjacent | gulpfile.js:47 | Each match starts at or after the end of the previous one. |
| Scanner.SplitsInOrder | gulpfile.js:47 | No two matches overlap, so a `$name:` inside an earlier value is never reported. |
| Extraction.DeclarationOf | gulpfile.js:48-49 | Definition of the name and value one match yields. `Extraction.DeclarationOfShape` and `Extraction.ValueLosesFirstDollarOnly` state their properties. |
| Extraction.ValueLosesFirstDollarOnly | gulpfile.js:49 | A value group `u$w` with no `$` in `u` gives the trimmed `uw`, so `calc($a + $b)` keeps the `$` of `b`. |
| Extraction.DeclarationsFrom | gulpfile.js:47-50 | Definition of the declarations the loop meets from `lastIndex` on, one per `exec` success. `Extraction.DeclarationsAreOfSplits` and `Extraction.DeclarationsWellFormed` state their properties. |
| Extraction.Declarations | gulpfile.js:47 | Definition of the declarations of a whole stylesheet, from `lastIndex` 0. `Extraction.ExtractSassVariables` is proved against it. |
| Extraction.DeclarationOfShape | gulpfile.js:48-49 | The extracted name is the name run after the `$` and is an identifier. The value is trimmed and contains no `;`. |
| Extraction.NameGroupStripped | gulpfile.js:48 | `match[1].replace('$', '').trim()` is the text between the `$` and the end of the name. |
| Extraction.IdentifierStripped | gulpfile.js:48 | `"$" + name` with its `$` removed and trimmed gives back the name. |
| Extraction.ValueGroupStripped | gulpfile.js:49 | The processed value contains no `;`. |
| Extraction.DeclarationsWellFormed | gulpfile.js:47-49 | Every declaration the loop meets has an identifier name and a trimmed value without `;`. |
| Extraction.BlankValueIsEmpty | gulpfile.js:42-49 | `$x:` followed only by whitespace before `;` or the end of the text is a match. It declares `x` with the empty value. |
| Extraction.SingleSpaceValue | gulpfile.js:49 | A value group made of one whitespace character becomes `""`. |
| Extraction.OneSpaceTrimsAway | gulpfile.js:49 | One whitespace character, with the first `$` removed and then trimmed, becomes `""`. |
| Extraction.DeclarationsAreOfSplits | gulpfile.js:47-49 | There is one declaration per match, in order, each taken from its match. |
| Extraction.TableOf | gulpfile.js:50 | The object built from the declarations is well formed. It has a property for exactly the declared names. |
| Extraction.TableOfSnoc | gulpfile.js:50 | One more declaration is one more `obj[name] = value`. |
| Extraction.TableOfWellFormed | gulpfile.js:50 | What holds of every declaration holds of every property built from them. |
| Extraction.ExtractedTableWellFormed | gulpfile.js:40-54 | Every property of the result is named by an identifier and holds a trimmed value with no `;`. |
| Extraction.ExtractedNamesFollowDollars | gulpfile.js:47-48 | The k-th declaration comes from the k-th match. Its name is the text after that match's `$`. |
| Extraction.LastDeclarationWins | gulpfile.js:50 | A name declared again keeps the value of its last declaration. |
| Extraction.DistinctNamesOneEntryEach | gulpfile.js:50 | With distinct names, the object's properties are the names in declaration order. |
| Extraction.ExtractionStep | gulpfile.js:47-50 | One turn of the loop consumes one match and one assignment, and moves `lastIndex` forward. |
| Extraction.ExtractSassVariables | gulpfile.js:40-54 | The method builds exactly `TableOf(Declarations(text))`, in a fresh, well-formed object. |
| Resolution.Step | gulpfile.js:62-63 | Definition of one turn of the `for...in` body: the property takes its alias's value when that is a non-empty (truthy) string. `Resolution.ResolveKeysAt` and `Resolution.NoAliasesNoChange` state its effect. |
| Resolution.ResolvePass | gulpfile.js:61-65 | Definition of the whole loop, every property visited once in enumeration order. `Resolution.ResolvePassKeepsProperties`, `Resolution.ResolveKeysAt` and `Resolution.ResolveAliases` relate to it. |
| Resolution.ResolveKeys | gulpfile.js:61-65 | The pass keeps the set of properties and leaves properties it does not visit unchanged. |
| Resolution.ResolvePassKeepsProperties | gulpfile.js:61-65 | The pass keeps the enumeration order, the property set and well-formedness. |
| Resolution.ResolveKeysCopiesValues | gulpfile.js:62-63 | Every value after the pass was some value before it. |
| Resolution.ResolveKeysAppend | gulpfile.js:61 | Visiting `a` and then `b` is the same as visiting `a + b`. |
| Resolution.ResolveKeysAt | gulpfile.js:61-65 | Gives the final value of the property at each position `p`. Its value `v` is looked up among the rewritten values of earlier properties and the original values of later ones. The property takes what is found there unless that is missing or empty. |
| Resolution.ResolveKeysVisitOne | gulpfile.js:62-63 | One visit, with the visiting order split around the visited property. |
| Resolution.NoAliasesNoChange | gulpfile.js:62 | If no value names a property with a non-empty value, the pass changes nothing. |
| Resolution.MutualAliases | gulpfile.js:61-65 | `$a: b; $b: a;` resolves to `a = a`, `b = a`. |
| Resolution.ChainFollowsOneLink | gulpfile.js:61-65 | `$a: b; $b: c; $c: x;` resolves to `a = c`, `b = x`, `c = x`: one pass follows one link only. |
| Resolution.ReversedChainResolves | gulpfile.js:61-65 | The same chain declared in the reverse order resolves fully, so the result depends on declaration order. |
| Resolution.EmptyTargetIsSkipped | gulpfile.js:62 | An alias whose target holds `""` (falsy) is left as it is. |
| Resolution.ResolveAliases | gulpfile.js:61-65 | The in-place loop leaves the object equal to `ResolvePass` of its old contents, still well formed. |
| Resolution.ConvertScssVariablesToJson | gulpfile.js:57-65 | The object written to `styles.json` is the alias pass applied to the extracted variables. |
| Resolution.ConvertedTableWellFormed | gulpfile.js:57-65 | The converted object has the same properties, in the same order, as the extracted one. Each value is an extracted value, trimmed and free of `;`. |
| Resolution.AliasOfEarlierResolves | gulpfile.js:61-65 | `$p: v; $c: $p;` with `v` naming no variable ends with both properties holding `v`, in declaration order. |
| Resolution.AliasSheetMatches | gulpfile.js:42-47 | On `$p: #f; $c: $p;`, `exec` finds `$p: #f`, then `$c: $p`, then fails. |
| Resolution.AliasSheetDeclarations | gulpfile.js:47-49 | That stylesheet declares `p` as `#f` and `c` as `p`, the `$` removed. |
| Resolution.AliasSheetResolves | gulpfile.js:40-65 | From its text to the object written to `styles.json`: `$p: #f; $c: $p;` becomes `{ "p": "#f", "c": "#f" }`. |
| Resolution.DeclarationsOfTwoMatches | gulpfile.js:47-50 | A text on which `exec` succeeds twice and then fails yields the two matches' declarations, in order. |
| Resolution.TwoDeclarationsTable | gulpfile.js:50 | Two declarations of different names make two properties, in declaration order. |
| Templates.GetJsonData | gulpfile.js:25-28 | The merged template data is a well-formed object. |
| Templates.SpreadOntoEmpty | gulpfile.js:26 | `{ ...obj }` is a copy of `obj`, in the same order. |
| Templates.MergedTemplateData | gulpfile.js:25-28 | The merged data has every property of both files. `styles.json` wins on a clash, and a property found only in `data.json` keeps its value. |
| Templates.MergedTemplateDataOrder | gulpfile.js:25-28 | The properties of `data.json` come first, followed by the names only `styles.json` has, in its order. |
| Templates.PreviewName | gulpfile.js:83-86 | Definition of the first rename: `-preview` appended to the basename, extension `.html`. `Templates.RenameRoundTrip` and `Templates.RenameMovesEarlierMarker` state the composition with the second. |
| Templates.FinalName | gulpfile.js:90-93 | Definition of the second rename: the first `-preview` removed from the basename, extension `.html`. The same lemmas state its effect on a preview name. |
| Templates.NoMarkerAcrossJoin | gulpfile.js:84 | No `-preview` starts inside the basename and ends inside the appended marker. |
| Templates.FirstMarkerOfPreview | gulpfile.js:91 | The first `-preview` in the preview basename is the first one in the original basename, or else the appended one. |
| Templates.RenameRoundTrip | gulpfile.js:83-93 | A basename without `-preview` gets its own basename back in the final name. Both names have the extension `.html`. |
| Templates.RenameMovesEarlierMarker | gulpfile.js:83-93 | A basename that already contains `-preview` loses its first such occurrence and keeps the appended marker. |
| Templates.RenameMovesMarkerToEnd | gulpfile.js:83-93 | For example `a-preview-x` is published as `a-x-preview.html`, not `a-preview-x.html`. |

## Left out

- File I/O is not modelled: `fs.readFileSync` of the stylesheet and of the two JSON files, and `fs.writeFileSync` of `styles.json`. The extractor works on the text of the file, and the merge works on the parsed objects.
- `JSON.parse` and `json-stringify-pretty-compact` are not modelled. The merge is generic in the value type, and the written object is the model's final table.
- `convertScssVariablesToJson` is `async` and returns `true`; neither is modelled.
- The gulp pipeline is not modelled beyond the two `rename` callbacks: `src`/`dest`, MJML, Handlebars, `htmlmin`, `prettify`, `imagemin`, `zip`, `browserSync`, watch and the task series. Those are calls into libraries.
- src/helpers/handlebars-helpers.js is not part of this model.
- The `templateName` lookup of `compileTemplates` is not modelled. It is a property read on the merged data.
- JavaScript property-order rules for integer-like names are not modelled: such names enumerate first, in numeric order. Variable names such as `$1` would be affected.
- Prototype lookups are not modelled. In JavaScript, a value naming an inherited member such as `constructor` finds a truthy function. `Resolution.Step` looks up own properties only.
- Tables.Table.Put: binds `__proto__` like any other name. In JavaScript, `obj["__proto__"] = "x"` on a `{}` calls the inherited setter, which ignores a string value, so no property is created.
- Tables.PlainObject.Set: the same `__proto__` simplification as `Tables.Table.Put`, for the assignments at gulpfile.js:50 and 63.
- Extraction.TableOf: `$__proto__: x;` matches the pattern, and in the model it yields a `__proto__` property that the JavaScript object does not get.
- Strings are sequences of Dafny `char`s. Surrogate pairs of UTF-16 are not modelled.
- Resolution.ResolveKeysAt: states the final value only for visiting orders without repeated names, which is the case for every object's enumeration order.
- Templates.RenameRoundTrip: holds only for basenames that do not contain `-preview`. `Templates.RenameMovesEarlierMarker` covers the other case.
