# vite-import-css-sheet, modelled in Dafny

`viteImportCssSheet` is a Vite plugin. It turns
`import sheet from './a.css' with { type: 'css' }` (or the older `assert { type: 'css' }`)
into a module whose default export is a constructable `CSSStyleSheet` built from the file's
text. The plugin has two hooks:

- `resolveId(source, importer)` handles a `.css` specifier imported from a script file
  (`.ts`, `.mts`, `.js`, `.mjs`) whose text carries the `type: 'css'` assertion. It mints a
  virtual id `"\0virtual:" + uuid-without-hyphens` and records it in the plugin's
  `virtualModules` map against the path the host resolved the specifier to.
- `load(id)` answers a recorded virtual id. It reads the stylesheet and returns a small module.
  That module calls `sheet.replaceSync(...)` with the CSS text, which `convert` has escaped
  into a JavaScript template literal.

The project has four modules:

- `Wrappers` (`wrappers.dfy`): the `Option` type.
- `TemplateEscape` (`template_escape.dfy`): `convert`.
  - `Convert` is a loop, proved against the specification function `Literal`.
  - It comes with an unescaper `Unescape` and the round trip in both directions.
- `AssertionPattern` (`assertion_pattern.dfy`): the regular expression built by
  `cssImportAssertRegex`, as a list of atoms.
  - `Matches` is the reference (backtracking) meaning of an atom list.
  - `Greedy` is a single-pass matcher.
  - `Detect` (the `regxp.test` call) searches the importer text with `Greedy`.
  - The lemmas prove that `Detect` finds exactly what a regex search finds. They also prove it
    fires exactly when the specifier is followed by a written-out assertion clause.
- `SheetPlugin` (`sheet_plugin.dfy`): the plugin object.
  - It is the class `ImportCssSheet` with the `virtualModules` map and the two hooks as methods.
  - The module also holds end-to-end scenarios: resolve then load, a repeated import, a plain
    import, and a file deleted between the two hooks.

The host's `this.resolve`, the file system's `readFile` and `randomUUID` are parameters of the
hooks. `resolve(source, importer)` and `readFile(path)` return `None` on failure.

Points where the code's behaviour is easy to misread, and how the model follows it:

- The bracket groups `[(?:\r?\n) \t]` and `[(?:\r?\n) ]` are character classes. They accept any
  run of `( ? : CR LF ) space tab` (the second without tab), not optional line breaks.
- An empty importer string is falsy in JavaScript, so `resolveId` declines it just like a
  missing importer.
- `.` in the specifier is used as a regex wildcard: the specifier is not escaped. A regex
  without the `s` flag matches any character there except LF, CR, U+2028 and U+2029.
- `resolve` receives the importer with its query string. The suffix check and the file read
  use the importer with the query string cut off.
- A failed read of the importer makes `resolveId`'s promise reject (`Throw`). A failed read of
  the stylesheet in `load` is caught, so the hook returns nothing.

## Model

| member | source | states |
|---|---|---|
| TemplateEscape.EscapeChar | src/index.ts:10-14 | the `illegalChars` table with the fallback of line 22: `\`, backtick and `$` become a backslash followed by the character, every other character stays as it is |
| TemplateEscape.Escaped | src/index.ts:21-22 | the text the loop accumulates: each character's escape, in input order (its properties are in the rows below) |
| TemplateEscape.Convert | src/index.ts:19-25 | the result of the character loop is the text with `\`, backtick and `$` each preceded by a backslash, wrapped in backticks (`Literal(s)`) |
| TemplateEscape.EscapedLength | src/index.ts:10-14 | the escaped body is as long as the input plus one per `\`, backtick or `$` |
| TemplateEscape.EscapedIsSafe | src/index.ts:10-14 | the escaped body has no unescaped backtick or `$` and no dangling backslash, so it cannot end the literal or open a `${}` substitution |
| TemplateEscape.UnescapeEscaped | src/index.ts:19-25 | unescaping the escaped text gives back the original text |
| TemplateEscape.EscapedUnescape | src/index.ts:10-14 | every safe body is the escape of its unescaping, so escaping is onto the safe bodies |
| TemplateEscape.EscapedInjective | src/index.ts:19-25 | distinct stylesheet texts give distinct literals |
| TemplateEscape.LiteralRoundTrip | src/index.ts:24 | the literal is two characters longer than the escaped body, starts and ends with a backtick, has a safe body, and its body unescapes to `s` |
| TemplateEscape.EscapesEachSpecialOnce | src/index.ts:10-14 | on `a\`$b` each of the three specials gets exactly one backslash and the rest is copied |
| AssertionPattern.Pattern | src/index.ts:16-17 | `cssImportAssertRegex(source)`: the specifier's atoms followed by the clause's atoms (what they match is stated by `SpecifierMatches` and `ClauseMatchesIff`) |
| AssertionPattern.Detect | src/index.ts:42 | `regxp.test(importerContent)`: some suffix of the text starts with a match (what it accepts is stated by `DetectIsRegexSearch` and `DetectIffAssertion`) |
| AssertionPattern.Run | src/index.ts:17 | a `*` over a class consumes the longest run of class characters |
| AssertionPattern.GreedySound | src/index.ts:42 | whatever the single-pass matcher accepts, the expression matches |
| AssertionPattern.GreedyComplete | src/index.ts:42 | on a deterministic pattern, any match of the expression is found by the single-pass matcher at the same length |
| AssertionPattern.MatchesConcat | src/index.ts:17 | matches of two pattern parts concatenate to a match of the joined pattern |
| AssertionPattern.MatchesSplit | src/index.ts:17 | a match of a joined pattern splits into matches of its two parts |
| AssertionPattern.SpecifierMatches | src/index.ts:17 | the specifier part matches exactly the strings of the specifier's length that agree with it wherever it has no `.`, and have no line terminator where it has `.` |
| AssertionPattern.PatternDeterministic | src/index.ts:16-17 | the expression for any metacharacter-free specifier has no ambiguous step: every `*` run is followed by an atom that no run character can start, and `with` and `assert` start differently |
| AssertionPattern.DetectIsRegexSearch | src/index.ts:42 | `Detect` holds exactly when some substring of the importer text matches the whole expression, as an unanchored `test` does |
| AssertionPattern.ClauseMatchesIff | src/index.ts:17 | the part after the specifier matches exactly the clauses quote, spaces, `with`/`assert`, spaces, `{`, blanks, `type:`, spaces, quote, `css`, quote, blanks without tab, `};` |
| AssertionPattern.DetectIffAssertion | src/index.ts:16-17 | the importer is intercepted exactly when, at some position, the specifier is followed by a complete assertion clause |
| AssertionPattern.AssertionDetected | src/index.ts:42 | any spacing, either keyword and either quote at each place is detected, whatever text stands before and after |
| AssertionPattern.ClauseKeywordOnSameLine | src/index.ts:17 | a clause starts with a quote, then only spaces (never a line break or tab) up to `with` or `assert` |
| AssertionPattern.ClauseEndsWithTerminator | src/index.ts:17 | every clause ends in `};` |
| AssertionPattern.DetectNeedsTerminator | src/index.ts:42 | an importer text without `};` is never intercepted |
| SheetPlugin.IsScriptPath | src/index.ts:9 | `filetypes.some(str => importer.endsWith(str))` over the four suffixes |
| SheetPlugin.ScriptPathIff | src/index.ts:38 | a path passes the importer check exactly when it ends in `.ts`, `.mts`, `.js` or `.mjs` |
| SheetPlugin.StylesheetIsNotScript | src/index.ts:38 | a path ending in `.css` never passes the importer check |
| SheetPlugin.QueriedImporterIsScript | src/index.ts:36-38 | `app.ts?t=1` is cut to `app.ts` before the suffix check and so passes it |
| SheetPlugin.StripQuery | src/index.ts:36 | the result is the prefix before the first `?`, or the whole path when it has none |
| SheetPlugin.StripHyphens | src/index.ts:43 | the result has no `-` and keeps every other character of the UUID as often as it occurred |
| SheetPlugin.VirtualId | src/index.ts:43 | the id starts with `\0virtual:` and has no hyphen after it |
| SheetPlugin.VirtualIdDistinct | src/index.ts:43 | two UUIDs give the same virtual id exactly when they agree once hyphens are dropped |
| SheetPlugin.SheetModule | src/index.ts:59-69 | the template with the converted text spliced in (its shape is stated by `SheetModuleCarriesText`) |
| SheetPlugin.ImportCssSheet.constructor | src/index.ts:8 | the registry starts empty |
| SheetPlugin.ImportCssSheet.ResolveId | src/index.ts:30-49 | declines for a non-`.css` specifier, a missing or empty importer, a failed resolution or a non-script importer; rejects when the importer cannot be read; declines without the assertion; otherwise returns `\0virtual:` + hyphen-free uuid and adds exactly that key, mapped to the resolved path; the registry changes only then, and every key keeps the virtual prefix |
| SheetPlugin.ImportCssSheet.Load | src/index.ts:51-75 | an unknown id or a failed read gives nothing, so an id without the virtual prefix (a real path) is never answered; otherwise the module text around the converted file content; the registry is not written |
| SheetPlugin.SheetModuleCarriesText | src/index.ts:59-69 | the module hands `sheet.replaceSync(` a template literal whose body unescapes to the CSS text, and exports `sheet` |
| SheetPlugin.ResolveThenLoad | src/index.ts:30-75 | on any plugin, the id returned for an intercepted import is added to the registry against the resolved path, all other entries stay, and `load` answers the id with the sheet module of the resolved stylesheet, or nothing if that file cannot be read |
| SheetPlugin.RepeatedImport | src/index.ts:43-46 | on any plugin, two intercepted imports of the same stylesheet get distinct ids, both added for the same path beside the existing entries, both loading the same module: no deduplication |
| SheetPlugin.AppSourceDetected | src/index.ts:42 | `import styles from './a.css' with { type: 'css' };` is detected for `./a.css` |
| SheetPlugin.PlainSourceNotDetected | src/index.ts:42 | `import styles from './a.css';` is not detected |
| SheetPlugin.AssertedImportScenario | src/index.ts:30-75 | for the asserted import in `app.ts`, resolve returns the virtual id and load returns the sheet module around `body{color:red}` |
| SheetPlugin.PlainImportScenario | src/index.ts:30-49 | for the plain import in `plain.ts`, resolve declines and the registry stays empty |
| SheetPlugin.RepeatedImportScenario | src/index.ts:43-46 | two asserted imports of `./a.css` on a fresh plugin leave two entries, both for `/src/a.css` |
| SheetPlugin.QueriedSpecifierScenario | src/index.ts:31 | `./a.css?inline` does not end in `.css`, so it is declined and the registry stays empty |
| SheetPlugin.MissingFileScenario | src/index.ts:51-75 | when the stylesheet disappears after resolution, load of the issued id gives nothing |

## Left out

- File reads, host resolution and `randomUUID` are parameters. A UUID is any string the caller
  supplies, and `ResolveId` requires that the id minted from it is not already registered.
  Collision-freedom of random UUIDs is not modelled.
- `SheetPlugin.ImportCssSheet.ResolveId` requires that a specifier ending in `.css` has no regex
  metacharacter other than `.`. Only such a specifier reaches the expression. The source puts it
  into the expression unescaped, so any other metacharacter would change the expression's
  meaning. `.css` specifiers with such characters are not modelled. Every other specifier, such
  as `./a.css?inline`, is accepted and declined.
- `this.addWatchFile` (src/index.ts:57) is an effect on the host with no bearing on results;
  it is not modelled.
- `console.error` (src/index.ts:65, 72) is not modelled. The emitted module's own `try`/`catch`
  runs in the browser and is part of the opaque module text.
- `async`/`await`: hooks are modelled as sequential calls. Interleaved hook calls are not
  modelled.
- The emitted JavaScript is not executed. `SheetModuleCarriesText` states its shape: where the
  literal sits, and that the literal's body unescapes to the CSS text.
- `TemplateEscape.Unescape` models the three escapes `convert` produces. A JavaScript template
  literal also turns CR and CRLF into LF in its value. That normalisation of the CSS text is not
  modelled, so `SheetModuleCarriesText` speaks of the literal's escapes only.
- Plugin metadata `enforce: 'pre'` and `name` (src/index.ts:28-29) are constants the host
  reads; they are not modelled.
- Characters are Dafny characters (Unicode scalar values). JavaScript's UTF-16 code units,
  and `for ... of` iterating by code point, are not distinguished.
- `SheetPlugin.StripHyphens` states that hyphens are removed and every other character is kept
  as often as it occurred. It does not state that their order is kept.
