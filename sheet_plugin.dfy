/**
 * The plugin object built by `viteImportCssSheet`. It owns the registry of virtual modules
 * (`virtualModules`) and answers two host hooks:
 *  - `resolveId(source, importer)`: an import of a `.css` file that carries a `type: 'css'`
 *    assertion in a script importer is redirected to a fresh virtual id, recorded in the
 *    registry against the stylesheet's resolved path;
 *  - `load(id)`: a virtual id is answered with module source that builds a constructable
 *    stylesheet from the file's text.
 * The host's resolver and the file system are parameters: `resolve` stands for
 * `this.resolve(source, importer)` (its result's `id`), `readFile` for reading a whole file
 * as UTF-8 (`None` when the read fails).
 */
module SheetPlugin {
  import opened Wrappers
  import opened TemplateEscape
  import opened AssertionPattern

  /** What a hook hands back to the host. */
  datatype HookResult =
    | Pass                 // `undefined`: the host carries on with its own handling
    | Value(text: string)  // a module id from `resolveId`, module source from `load`
    | Throw(path: string)  // the hook's promise rejects: reading the importer at `path` failed

  const CssSuffix: string := ".css"
  /** `filetypes`: the importers whose imports are inspected. */
  const ScriptSuffixes: seq<string> := [".ts", ".mts", ".js", ".mjs"]
  /** The marker in front of every virtual id; the leading NUL keeps other resolvers away. */
  const VirtualPrefix: string := "\0virtual:"

  predicate EndsWith(s: string, suffix: string) {
    |suffix| <= |s| && s[|s| - |suffix|..] == suffix
  }

  /** `filetypes.some(str => importer.endsWith(str))` */
  predicate IsScriptPath(path: string) {
    exists k :: 0 <= k < |ScriptSuffixes| && EndsWith(path, ScriptSuffixes[k])
  }

  /** A path is a script exactly when it ends in one of the four suffixes. */
  lemma ScriptPathIff(path: string)
    ensures IsScriptPath(path) <==>
      EndsWith(path, ".ts") || EndsWith(path, ".mts") || EndsWith(path, ".js") || EndsWith(path, ".mjs")
  {
    if EndsWith(path, ".ts") { assert EndsWith(path, ScriptSuffixes[0]); }
    if EndsWith(path, ".mts") { assert EndsWith(path, ScriptSuffixes[1]); }
    if EndsWith(path, ".js") { assert EndsWith(path, ScriptSuffixes[2]); }
    if EndsWith(path, ".mjs") { assert EndsWith(path, ScriptSuffixes[3]); }
  }

  /** A stylesheet is never taken for a script importer. */
  lemma StylesheetIsNotScript(path: string)
    requires EndsWith(path, CssSuffix)
    ensures !IsScriptPath(path)
  {
    ScriptPathIff(path);
    assert path[|path| - 2] == 's';
  }

  /** `path.split('?')[0]`: the part before the first `?`, or all of it. */
  function StripQuery(path: string): (r: string)
    ensures r <= path && '?' !in r
    ensures |r| < |path| ==> path[|r|] == '?'
  {
    if path == [] || path[0] == '?' then [] else [path[0]] + StripQuery(path[1..])
  }

  /** A path without `?` is left whole. */
  lemma StripQueryWhole(path: string)
    requires '?' !in path
    ensures StripQuery(path) == path
  {
  }

  /** A path is cut at its first `?`. */
  lemma StripQueryCut(path: string, k: nat)
    requires k < |path| && path[k] == '?' && '?' !in path[..k]
    ensures StripQuery(path) == path[..k]
  {
  }

  /** `uuid.replaceAll('-', '')` */
  function StripHyphens(uuid: string): (r: string)
    ensures '-' !in r
    ensures forall c :: c != '-' ==> multiset(r)[c] == multiset(uuid)[c]
  {
    if uuid == [] then []
    else
      assert uuid == [uuid[0]] + uuid[1..];
      (if uuid[0] == '-' then [] else [uuid[0]]) + StripHyphens(uuid[1..])
  }

  /** The virtual id minted from one random UUID. */
  function VirtualId(uuid: string): (r: string)
    ensures VirtualPrefix <= r && '-' !in r[|VirtualPrefix|..]
  {
    VirtualPrefix + StripHyphens(uuid)
  }

  // The emitted module around the literal. The template in the source spans lines; a
  // template literal's value turns each of its line breaks into a single line feed.
  const ModuleHead: string :=
    "\n\t\t\t\t\t\tlet sheet;\n\t\t\t\t\t\ttry {\n\t\t\t\t\t\t\tsheet = new CSSStyleSheet()\n\t\t\t\t\t\t\t"
    + "sheet.replaceSync("
  const ModuleTail: string :=
    ");"
    + "\n\t\t\t\t\t\t} catch(err) {\n\t\t\t\t\t\t\tconsole.error('Constructable Stylesheets are not supported in your environment.')\n\t\t\t\t\t\t}\n\n\t\t\t\t\t\t"
    + "export default sheet;"
    + "\n\t\t\t\t\t"

  /** The source `load` returns for a stylesheet whose `convert`ed text is `literal`. */
  function SheetModule(literal: string): string {
    ModuleHead + literal + ModuleTail
  }

  class ImportCssSheet {
    /** `virtualModules`: virtual id -> real path of the stylesheet. */
    var virtualModules: map<string, string>

    /** Every key is a virtual id, never a real path. */
    ghost predicate Valid()
      reads this
    {
      forall id :: id in virtualModules ==> VirtualPrefix <= id
    }

    constructor ()
      ensures Valid() && virtualModules == map[]
    {
      virtualModules := map[];
    }

    /**
     * `resolveId`. Declines (Pass) unless the specifier ends in `.css`, there is a non-empty
     * importer, the host resolves the specifier, the importer (query stripped) is a script
     * and its text carries the assertion; a failed read of the importer rejects.
     */
    method ResolveId(source: string, importer: Option<string>,
                     resolve: (string, string) -> Option<string>,
                     readFile: string -> Option<string>, uuid: string) returns (r: HookResult)
      requires Valid() && (EndsWith(source, CssSuffix) ==> NoRegexMeta(source))
      requires VirtualId(uuid) !in virtualModules
      modifies this
      ensures Valid()
      ensures r.Pass? || r.Throw? ==> virtualModules == old(virtualModules)
      ensures !EndsWith(source, CssSuffix) ==> r == Pass
      ensures importer == None || importer == Some("") ==> r == Pass
      ensures EndsWith(source, CssSuffix) && importer.Some? && importer.value != "" ==>
        var path := StripQuery(importer.value);
        var resolved := resolve(source, importer.value);
        if resolved.None? || !IsScriptPath(path) then r == Pass
        else if readFile(path).None? then r == Throw(path)
        else if !Detect(source, readFile(path).value) then r == Pass
        else r == Value(VirtualId(uuid)) &&
             virtualModules == old(virtualModules)[VirtualId(uuid) := resolved.value]
    {
      r := Pass;
      if EndsWith(source, CssSuffix) {
        if importer.None? || importer.value == "" {
          return;
        }
        var resolvedId := resolve(source, importer.value);
        var path := StripQuery(importer.value);
        if resolvedId.Some? && IsScriptPath(path) {
          var content := readFile(path);
          if content.None? {
            return Throw(path);
          }
          if Detect(source, content.value) {
            var modId := VirtualId(uuid);
            virtualModules := virtualModules[modId := resolvedId.value];
            return Value(modId);
          }
        }
      }
    }

    /**
     * `load`. A virtual id whose file reads is answered with the sheet module around the
     * converted text; an unknown id or a failed read yields Pass. The registry is only read.
     */
    method Load(id: string, readFile: string -> Option<string>) returns (r: HookResult)
      requires Valid()
      ensures !(VirtualPrefix <= id) ==> r == Pass
      ensures id !in virtualModules ==> r == Pass
      ensures id in virtualModules && readFile(virtualModules[id]).None? ==> r == Pass
      ensures id in virtualModules && readFile(virtualModules[id]).Some? ==>
        r == Value(SheetModule(Literal(readFile(virtualModules[id]).value)))
    {
      if id in virtualModules {
        var realId := virtualModules[id];
        var fileContent := readFile(realId);
        if fileContent.Some? {
          var literal := Convert(fileContent.value);
          return Value(SheetModule(literal));
        }
      }
      return Pass;
    }
  }

  /** The fixed text around the literal: it calls `sheet.replaceSync(` and exports the sheet. */
  lemma ModuleFrame()
    ensures EndsWith(ModuleHead, "sheet.replaceSync(") && ");" <= ModuleTail
    ensures Occurs("export default sheet;", ModuleTail)
  {
    var tail := ModuleTail[|ModuleTail| - 27..];
    assert tail == "export default sheet;" + "\n\t\t\t\t\t";
    assert "export default sheet;" <= tail;
  }

  /** Where the parts of `head + Literal(css) + tail` stand, and what the literal's body unescapes to. */
  lemma SpliceParts(head: string, css: string, tail: string)
    ensures var m := head + Literal(css) + tail;
      |head| + 2 + |tail| <= |m| &&
      m[..|head|] == head && m[|m| - |tail|..] == tail &&
      m[|head|] == '`' && m[|m| - |tail| - 1] == '`' &&
      Unescape(m[|head| + 1..|m| - |tail| - 1]) == css
  {
    LiteralRoundTrip(css);
    var lit := Literal(css);
    var m := head + lit + tail;
    assert m[|head| + 1..|m| - |tail| - 1] == lit[1..|lit| - 1];
  }

  /**
   * The emitted module hands the stylesheet's text to `sheet.replaceSync` as a template
   * literal whose body unescapes to that text, and exports the sheet.
   */
  lemma SheetModuleCarriesText(css: string)
    ensures var m := SheetModule(Literal(css));
      EndsWith(ModuleHead, "sheet.replaceSync(") && ");" <= ModuleTail &&
      Occurs("export default sheet;", ModuleTail) &&
      |ModuleHead| + 2 + |ModuleTail| <= |m| &&
      m[..|ModuleHead|] == ModuleHead && m[|m| - |ModuleTail|..] == ModuleTail &&
      m[|ModuleHead|] == '`' && m[|m| - |ModuleTail| - 1] == '`' &&
      Unescape(m[|ModuleHead| + 1..|m| - |ModuleTail| - 1]) == css
  {
    ModuleFrame();
    SpliceParts(ModuleHead, css, ModuleTail);
  }

  // ---------------------------------------------------------------------------
  // Resolution followed by load
  // ---------------------------------------------------------------------------

  const AppSource: string := "import styles from './a.css' with { type: 'css' };"
  const PlainSource: string := "import styles from './a.css';"

  /** The files of the scenarios: two importers and one stylesheet; every other read fails. */
  function ScenarioFiles(path: string): Option<string> {
    if path == "app.ts" then Some(AppSource)
    else if path == "plain.ts" then Some(PlainSource)
    else if path == "/src/a.css" then Some("body{color:red}")
    else None
  }

  /** The host resolves `./a.css` to `/src/a.css` and nothing else. */
  function ScenarioResolve(source: string, importer: string): Option<string> {
    if source == "./a.css" then Some("/src/a.css") else None
  }

  lemma SpecifierIsLiteral()
    ensures NoRegexMeta("./a.css") && FitsSpecifier("./a.css", "./a.css")
  {
  }

  lemma AppClauseSpelledOut()
    ensures ClauseText('\'', " ", "with", " ", " ", " ", '\'', '\'', " ") == "' with { type: 'css' };"
  {
    assert OpeningText('\'', " ", "with", " ", " ") == "' with { ";
    assert TypeText(" ", '\'', '\'', " ") == "type: 'css' };";
  }

  lemma AppSourceSpelledOut()
    ensures "import styles from '" + "./a.css" + ClauseText('\'', " ", "with", " ", " ", " ", '\'', '\'', " ") + ""
      == AppSource
  {
    AppClauseSpelledOut();
  }

  lemma AppSourceDetected()
    ensures Detect("./a.css", AppSource)
  {
    SpecifierIsLiteral();
    assert OpeningPieces('\'', " ", "with", " ", " ") && TypePieces(" ", '\'', '\'', " ");
    AssertionDetected("./a.css", "import styles from '", "./a.css", "",
                      '\'', " ", "with", " ", " ", " ", '\'', '\'', " ");
    AppSourceSpelledOut();
  }

  /** Without a closing brace anywhere, `};` does not occur. */
  lemma NoBraceNoTerminator(text: string)
    requires '}' !in text
    ensures !Occurs("};", text)
  {
    forall k | 0 <= k <= |text|
      ensures !("};" <= text[k..])
    {
      if k < |text| {
        assert text[k..][0] == text[k] && text[k] in text;
      }
    }
  }

  /** The plain import contains no closing brace. */
  lemma PlainSourceHasNoBrace()
    ensures !Occurs("};", PlainSource)
  {
    assert '}' !in PlainSource;
    NoBraceNoTerminator(PlainSource);
  }

  lemma PlainSourceNotDetected()
    ensures !Detect("./a.css", PlainSource)
  {
    PlainSourceHasNoBrace();
    SpecifierIsLiteral();
    if Detect("./a.css", PlainSource) {
      DetectNeedsTerminator("./a.css", PlainSource);
    }
  }

  lemma AppIsScript()
    ensures IsScriptPath(StripQuery("app.ts")) && IsScriptPath(StripQuery("plain.ts"))
  {
    StripQueryWhole("app.ts");
    StripQueryWhole("plain.ts");
    ScriptPathIff("app.ts");
    ScriptPathIff("plain.ts");
  }

  /** A query on the importer is cut off before the suffix check. */
  lemma QueriedImporterIsScript()
    ensures StripQuery("app.ts?t=1") == "app.ts" && IsScriptPath(StripQuery("app.ts?t=1"))
  {
    assert "app.ts?t=1"[..6] == "app.ts";
    StripQueryCut("app.ts?t=1", 6);
    AppIsScript();
  }

  /** The conditions under which `resolveId` intercepts an import. */
  predicate Intercepted(source: string, importer: string, resolve: (string, string) -> Option<string>,
                        readFile: string -> Option<string>)
  {
    NoRegexMeta(source) && EndsWith(source, CssSuffix) && importer != "" &&
    resolve(source, importer).Some? && IsScriptPath(StripQuery(importer)) &&
    readFile(StripQuery(importer)).Some? && Detect(source, readFile(StripQuery(importer)).value)
  }

  /** What `load` yields for a stylesheet at `path`. */
  function Loaded(readFile: string -> Option<string>, path: string): HookResult {
    match readFile(path)
    case None => Pass
    case Some(css) => Value(SheetModule(Literal(css)))
  }

  /**
   * Resolution followed by load: on any plugin, the id `resolveId` hands out for an intercepted
   * import is recorded against the resolved path, every other entry stays, and `load` answers
   * the id with the sheet module of that file.
   */
  method ResolveThenLoad(plugin: ImportCssSheet, source: string, importer: string,
                         resolve: (string, string) -> Option<string>,
                         readFile: string -> Option<string>, uuid: string)
    returns (resolved: HookResult, loaded: HookResult)
    requires plugin.Valid() && VirtualId(uuid) !in plugin.virtualModules
    requires Intercepted(source, importer, resolve, readFile)
    modifies plugin
    ensures plugin.Valid()
    ensures resolved == Value(VirtualId(uuid))
    ensures plugin.virtualModules == old(plugin.virtualModules)[VirtualId(uuid) := resolve(source, importer).value]
    ensures loaded == Loaded(readFile, resolve(source, importer).value)
  {
    resolved := plugin.ResolveId(source, Some(importer), resolve, readFile, uuid);
    loaded := plugin.Load(resolved.text, readFile);
  }

  /** Virtual ids minted from two UUIDs coincide exactly when the UUIDs agree once hyphens are dropped. */
  lemma VirtualIdDistinct(uuid1: string, uuid2: string)
    ensures VirtualId(uuid1) == VirtualId(uuid2) <==> StripHyphens(uuid1) == StripHyphens(uuid2)
  {
    if VirtualId(uuid1) == VirtualId(uuid2) {
      assert StripHyphens(uuid1) == VirtualId(uuid1)[|VirtualPrefix|..];
      assert StripHyphens(uuid2) == VirtualId(uuid2)[|VirtualPrefix|..];
    }
  }

  /**
   * Two intercepted imports of the same stylesheet, on any plugin, get two distinct virtual ids,
   * both recorded for the same path and both loadable: the registry does not merge them.
   */
  method RepeatedImport(plugin: ImportCssSheet, source: string, importer: string,
                        resolve: (string, string) -> Option<string>,
                        readFile: string -> Option<string>, uuid1: string, uuid2: string)
    returns (id1: HookResult, id2: HookResult, loaded1: HookResult, loaded2: HookResult)
    requires plugin.Valid()
    requires VirtualId(uuid1) !in plugin.virtualModules && VirtualId(uuid2) !in plugin.virtualModules
    requires Intercepted(source, importer, resolve, readFile)
    requires StripHyphens(uuid1) != StripHyphens(uuid2)
    modifies plugin
    ensures plugin.Valid()
    ensures id1 == Value(VirtualId(uuid1)) && id2 == Value(VirtualId(uuid2)) && id1 != id2
    ensures plugin.virtualModules ==
      old(plugin.virtualModules)[VirtualId(uuid1) := resolve(source, importer).value]
                                [VirtualId(uuid2) := resolve(source, importer).value]
    ensures loaded1 == loaded2 == Loaded(readFile, resolve(source, importer).value)
  {
    VirtualIdDistinct(uuid1, uuid2);
    id1 := plugin.ResolveId(source, Some(importer), resolve, readFile, uuid1);
    id2 := plugin.ResolveId(source, Some(importer), resolve, readFile, uuid2);
    loaded1 := plugin.Load(id1.text, readFile);
    loaded2 := plugin.Load(id2.text, readFile);
  }

  lemma ScenarioFilesData()
    ensures ScenarioFiles("app.ts") == Some(AppSource)
    ensures ScenarioFiles("plain.ts") == Some(PlainSource)
    ensures ScenarioFiles("/src/a.css") == Some("body{color:red}")
  {
  }

  lemma ScenarioData()
    ensures StripQuery("app.ts") == "app.ts" && ScenarioFiles("app.ts") == Some(AppSource)
    ensures StripQuery("plain.ts") == "plain.ts" && ScenarioFiles("plain.ts") == Some(PlainSource)
    ensures ScenarioResolve("./a.css", "app.ts") == Some("/src/a.css") && EndsWith("./a.css", CssSuffix)
    ensures ScenarioFiles("/src/a.css") == Some("body{color:red}")
  {
    StripQueryWhole("app.ts");
    StripQueryWhole("plain.ts");
    ScenarioFilesData();
  }

  /**
   * An importer `app.ts` that imports `./a.css` with `with { type: 'css' }` is redirected to a
   * virtual id, and loading that id yields the sheet module around `body{color:red}`.
   */
  method AssertedImportScenario(uuid: string) returns (resolved: HookResult, loaded: HookResult)
    ensures resolved == Value(VirtualId(uuid))
    ensures loaded == Value(SheetModule(Literal("body{color:red}")))
  {
    ScenarioData();
    AppSourceDetected();
    AppIsScript();
    SpecifierIsLiteral();
    var plugin := new ImportCssSheet();
    resolved, loaded := ResolveThenLoad(plugin, "./a.css", "app.ts", ScenarioResolve, ScenarioFiles, uuid);
  }

  /** An importer whose `./a.css` import carries no assertion is left to the host. */
  method PlainImportScenario(uuid: string) returns (resolved: HookResult, registry: map<string, string>)
    ensures resolved == Pass && registry == map[]
  {
    ScenarioData();
    AppIsScript();
    SpecifierIsLiteral();
    PlainSourceNotDetected();
    var plugin := new ImportCssSheet();
    resolved := plugin.ResolveId("./a.css", Some("plain.ts"), ScenarioResolve, ScenarioFiles, uuid);
    registry := plugin.virtualModules;
  }

  /** When the stylesheet disappears between resolution and load, `load` declines the id. */
  method MissingFileScenario(uuid: string) returns (resolved: HookResult, loaded: HookResult)
    ensures resolved == Value(VirtualId(uuid)) && loaded == Pass
  {
    ScenarioData();
    AppSourceDetected();
    AppIsScript();
    SpecifierIsLiteral();
    var deleted := (path: string) => if path == "/src/a.css" then None else ScenarioFiles(path);
    assert deleted("app.ts") == Some(AppSource);
    var plugin := new ImportCssSheet();
    resolved, loaded := ResolveThenLoad(plugin, "./a.css", "app.ts", ScenarioResolve, deleted, uuid);
  }

  /**
   * Two asserted imports of `./a.css` from `app.ts` on a fresh plugin leave two registry entries,
   * both for `/src/a.css`.
   */
  method RepeatedImportScenario(uuid1: string, uuid2: string)
    returns (registry: map<string, string>, loaded1: HookResult, loaded2: HookResult)
    requires StripHyphens(uuid1) != StripHyphens(uuid2)
    ensures registry == map[VirtualId(uuid1) := "/src/a.css", VirtualId(uuid2) := "/src/a.css"]
    ensures loaded1 == loaded2 == Value(SheetModule(Literal("body{color:red}")))
  {
    ScenarioData();
    AppSourceDetected();
    AppIsScript();
    SpecifierIsLiteral();
    VirtualIdDistinct(uuid1, uuid2);
    var plugin := new ImportCssSheet();
    var id1, id2;
    id1, id2, loaded1, loaded2 := RepeatedImport(plugin, "./a.css", "app.ts", ScenarioResolve, ScenarioFiles,
                                                 uuid1, uuid2);
    registry := plugin.virtualModules;
  }

  /**
   * A specifier with a query, such as `./a.css?inline`, does not end in `.css`: the import is
   * left to the host and no expression is built from it.
   */
  method QueriedSpecifierScenario(uuid: string) returns (resolved: HookResult, registry: map<string, string>)
    ensures resolved == Pass && registry == map[]
  {
    var plugin := new ImportCssSheet();
    resolved := plugin.ResolveId("./a.css?inline", Some("app.ts"), ScenarioResolve, ScenarioFiles, uuid);
    registry := plugin.virtualModules;
  }
}
