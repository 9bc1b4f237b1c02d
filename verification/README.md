# Module manifest and inclusive makefile generators, in Dafny

This project models the two generators of the build system's module tooling:

- **The manifest tool** (`builder/unix/tools/manifesttool.py`) walks a source
  tree and reads every file named `Makefile`. It recognises each
  `MODULE := <name>` declaration line and records the module's directory
  under its name; a later declaration overwrites an earlier one. It then
  renders one of three manifests: the make manifest (`Manifest.mk`), the
  shell environment manifest (`Manifest.sh`) or the doxygen input manifest
  (`Manifest.doxy`). Each manifest is a comment header, an init section, one
  entry per module in ascending name order, and a closing section. The
  command line picks the manifests by token (`make`, `env`, `dox`), and
  `all` picks every one.
- **The inclusive makefile generator** (`builder/unix/tools/modulemakes.py`)
  finds every `make.mk`, `_make.mk` and `__make.mk` under a module's root. It
  writes one makefile that defines `<name>_BASEDIR` from its own location and
  includes the fragments tier by tier, each through that variable.

Modules:

- `Text`: Python string primitives.
  - `\s`, `str.replace`, `str.join`, `str.split` and `str.upper`.
  - `<` on `str`, as `Less`, proved to be a strict total order.
- `Declaration`: the declaration recogniser. It is a staged parser whose
  result keeps every piece of the line. It is proved sound and complete
  against printing those pieces back.
- `Walk`: the directory walk, as `os.walk` lists it.
- `Collector`: the collection pass. It is compared with a reference that
  lists the declarations in walk order and applies them one after another.
- `KeyOrder`: `sorted()` over the module names.
- `Manifest`: the three renderers.
- `Registry`: the command-line dispatch of the manifest tool.
- `Aggregator`: the inclusive makefile generator.

The directory walk, each `Makefile`'s lines and the clock are parameters: a
walk is a sequence of `Dir(root, files)`, each file carries its lines, and the
timestamp is the string the clock rendered. `os.path.exists` is the
parameter `present`.

Two details of the collection pass are modelled as the code has them:

- A directory that starts with `./` goes through `str.replace("./", "")`,
  which removes every `./` in it, not only the leading one
  (`Collector.NormalizeRemovesInnerDotSlash`).
- The normalised directory is assigned back to the walk's loop variable, so
  later files of the same directory start from the normalised root. The
  model threads that variable through the files of a directory
  (`Collector.ScanFiles`).

## Model

| member | source | states |
|---|---|---|
| Text.Replace | builder/unix/tools/manifesttool.py:80 | `str.replace` with a non-empty pattern: a text without the pattern comes back unchanged |
| Text.ReplaceChars | builder/unix/tools/manifesttool.py:80 | the result of `str.replace` holds only characters of the text or of the replacement |
| Declaration.Match | builder/unix/tools/manifesttool.py:51 | a match splits the line into whitespace, `MODULE`, whitespace, `:=`, whitespace, a newline-free name and the unread rest, which printed back give the line |
| Declaration.MatchComplete | builder/unix/tools/manifesttool.py:51 | every split of a line into the pattern's pieces with greedy runs is the one the matcher returns |
| Declaration.Recognise | builder/unix/tools/manifesttool.py:77-81 | a line yields a name exactly when it matches, and that name never holds a newline |
| Declaration.RecogniseIff | builder/unix/tools/manifesttool.py:51 | a line declares `name` if and only if it splits into the pattern's pieces with `name` as the captured group |
| Declaration.TrailingTextKept | builder/unix/tools/manifesttool.py:51 | because the pattern is anchored only at the start, text after the name on its line stays part of the name |
| Collector.Normalize | builder/unix/tools/manifesttool.py:79-80 | a root that does not start with `./` is kept unchanged |
| Collector.NormalizeRemovesInnerDotSlash | builder/unix/tools/manifesttool.py:79-80 | a dot-free name between two `./` loses both, as `./v1./src` becomes `v1src`, because `str.replace` removes every `./`, not just the prefix |
| Collector.NormalizeStripsPrefix | builder/unix/tools/manifesttool.py:79-80 | a `./` prefix followed by no other `./` is removed, leaving the relative path |
| Collector.NormalizeSettles | builder/unix/tools/manifesttool.py:72-81 | for roots without `//`, normalising again changes nothing, so reassigning the loop variable does not alter later directories |
| Collector.ScanLines | builder/unix/tools/manifesttool.py:76-81 | for a settled root, scanning a `Makefile` applies its declarations in line order, each recording the normalised root, and the reassigned root normalises as the original did |
| Collector.ScanFiles | builder/unix/tools/manifesttool.py:73-81 | for a settled root, scanning a directory applies the declarations of its files named `Makefile`, in file order, with the root carried from file to file |
| Collector.Collect | builder/unix/tools/manifesttool.py:71-81 | when every walk root is settled, the walk yields the mapping got by applying every declaration in walk order, starting from the given mapping |
| Collector.ApplyLastWins | builder/unix/tools/manifesttool.py:81 | applying declarations in order keeps the old keys plus the declared names; each name maps to its last declaration's directory; undeclared keys keep their values |
| Collector.LastWriteWins | builder/unix/tools/manifesttool.py:71-81 | the collected names are exactly the declared names, and each maps to the normalised directory of its last declaration |
| Collector.NoDeclarationsNoModules | builder/unix/tools/manifesttool.py:71-81 | a tree without a declaration collects no module |
| KeyOrder.Sorted | builder/unix/tools/manifesttool.py:83 | the names come out strictly ascending in `str` order, each exactly once |
| KeyOrder.AscendingUnique | builder/unix/tools/manifesttool.py:83 | only one ascending listing of a set of names exists, so the order depends on the names alone |
| KeyOrder.SortedAround | builder/unix/tools/manifesttool.py:83 | a name is listed after exactly the smaller names and before exactly the larger ones |
| Manifest.Header | builder/unix/tools/manifesttool.py:57-67 | with a newline-free description and timestamp, the header reads back as its nine lines: blank, rule, `#`, the description, `#`, the timestamp, `#`, rule, blank |
| Manifest.InitSection | builder/unix/tools/manifesttool.py:108-133 | the make manifest opens with the newline-terminated `BASEDIR` line, the environment manifest with nothing, the doxygen manifest with the unterminated `INPUT` line |
| Manifest.ModuleSectionShape | builder/unix/tools/manifesttool.py:111-140 | a make entry starts with `<name>_BASEDIR`, an environment entry with the upper-cased name and `=`, both end in a newline; a doxygen entry is empty exactly when the module has no doxygen file |
| Manifest.DenitSection | builder/unix/tools/manifesttool.py:114-116 | only the make manifest closes, with the `ALL_MODULES` line; after its prefix come the sorted names split at blanks, or nothing when there is no module |
| Manifest.Generate | builder/unix/tools/manifesttool.py:53-87 | every manifest starts with its variant's header and ends with a newline |
| Manifest.EntryPosition | builder/unix/tools/manifesttool.py:83-84 | each module's entry appears once, between the entries of all smaller and all larger names |
| Manifest.SectionWithout | builder/unix/tools/manifesttool.py:83-84 | removing a module from the mapping removes exactly its entry from the text |
| Manifest.DoxSkipsUndocumented | builder/unix/tools/manifesttool.py:135-140 | a module with no doxygen file leaves the doxygen manifest as if the module were absent |
| Manifest.DoxListsDocumented | builder/unix/tools/manifesttool.py:135-138 | a module with a doxygen file contributes `<dir>/module/inc ` at its sorted position |
| Manifest.LinePerModule | builder/unix/tools/manifesttool.py:111-112 | when no name and no directory holds a newline, the make and environment manifests give every module exactly one line; the doxygen manifest adds none |
| Manifest.ModuleListNamesEveryModule | builder/unix/tools/manifesttool.py:114-116 | when there is at least one module and no name holds a blank, splitting the closing `ALL_MODULES` list at blanks gives every module name once, in sorted order |
| Manifest.BlankInNameSplits | builder/unix/tools/manifesttool.py:114-116 | a name holding a blank, such as `a b`, reads back from the `ALL_MODULES` list as two names |
| Manifest.GenerateEmpty | builder/unix/tools/manifesttool.py:57-87 | with no module, a manifest is header, init section, closing section and newline |
| Manifest.MakeManifestEmpty | builder/unix/tools/manifesttool.py:57-116 | with no module, the make manifest is its header, the `BASEDIR` line and the empty `ALL_MODULES` line |
| Manifest.OnlyTimestampVaries | builder/unix/tools/manifesttool.py:59-67 | two runs over one tree differ only in the header's timestamp |
| Registry.Lookup | builder/unix/tools/manifesttool.py:145-147 | a token names a variant exactly when it is one of `make`, `env`, `dox`, and then names that one |
| Registry.RunTokens | builder/unix/tools/manifesttool.py:165-170 | tokens generate in order until the first unknown one, which stops the run and is named in the error |
| Registry.Plan | builder/unix/tools/manifesttool.py:149-170 | no token gives the usage text; `all` anywhere generates every variant in table order; otherwise as `RunTokens` |
| Registry.Destination | builder/unix/tools/manifesttool.py:89-92 | output goes to standard output exactly for the targets `-` and `stdout`, otherwise to the named file |
| Registry.Artifacts | builder/unix/tools/manifesttool.py:165-168 | one manifest per generated variant, in order, each written to that variant's file and stamped with the time its own instance read |
| Registry.ArtifactsOnlyTimestampsVary | builder/unix/tools/manifesttool.py:165-168 | two runs of the same variants over one tree write to the same files, and each text differs only in its header's timestamp |
| Registry.UnknownTokenStops | builder/unix/tools/manifesttool.py:161-170 | an unknown token stops the run after the variants before it, unless `all` is on the line |
| Aggregator.Tier | builder/unix/tools/modulemakes.py:55 | a file name has a tier exactly when it is one of the three fragment names, and the tier is its position |
| Aggregator.Ordered | builder/unix/tools/modulemakes.py:55-63 | fragments come tier by tier; within each name they keep walk order, none is lost or added; their number is the number of matching files |
| Aggregator.GatherFiles | builder/unix/tools/modulemakes.py:61-63 | after one directory, each bucket holds what it held plus that directory's files of its name, in order |
| Aggregator.Gather | builder/unix/tools/modulemakes.py:60-63 | after the walk, each bucket holds what it held plus every walked file of its name, in walk order |
| Aggregator.RewriteAsWritten | builder/unix/tools/modulemakes.py:85-86 | the root itself becomes `$(<name>_BASEDIR)`; a directory not containing the root is left unchanged |
| Aggregator.RewriteAsWrittenChars | builder/unix/tools/modulemakes.py:85-86 | the two replacements leave only characters of the directory and of the `$(<name>_BASEDIR)` variable |
| Aggregator.RewriteAsWrittenMangles | builder/unix/tools/modulemakes.py:85-86 | with a one-component root such as `/src`, the two replacements turn `/src/tools/src` into `$(m_BASEDIR)tools$(m_BASEDIR)`, not `$(m_BASEDIR)tools/src` |
| Aggregator.RewriteAsWrittenRootSlash | builder/unix/tools/modulemakes.py:85-86 | with `/` as root, the two replacements turn `/a/b` into `$(m_BASEDIR)a$(m_BASEDIR)b`, not `$(m_BASEDIR)a/b` |
| Aggregator.Rewrite | builder/unix/tools/modulemakes.py:85-86 | corrected rewrite (see Findings): the root itself becomes `$(<name>_BASEDIR)`; a directory neither the root nor below it is left unchanged |
| Aggregator.RewriteRelocates | builder/unix/tools/modulemakes.py:85-86 | corrected rewrite (see Findings): a directory below the root becomes the variable followed by the relative path, whatever that path contains |
| Aggregator.RewriteAgrees | builder/unix/tools/modulemakes.py:85-86 | the two replacements agree with the corrected rewrite on the root, and below it whenever the rest holds no second copy of the root |
| Aggregator.Preamble | builder/unix/tools/modulemakes.py:68-77 | with a newline-free name and timestamp, the preamble reads back as its lines: the comment block naming the module and timestamp, then the `<name>_BASEDIR` definition |
| Aggregator.IncludeLine | builder/unix/tools/modulemakes.py:88 | an include line starts with `include ` and is one line when directory and file are newline-free |
| Aggregator.Render | builder/unix/tools/modulemakes.py:68-90 | the makefile, with directories rewritten by the two replacements as written, starts with the preamble and ends with a newline |
| Aggregator.IncludePerFragment | builder/unix/tools/modulemakes.py:82-90 | the makefile is preamble, include lines, newline; with newline-free name and walk roots there is one include line per matching file |
| Aggregator.RenderNoFragments | builder/unix/tools/modulemakes.py:68-90 | with no fragment, the makefile is the preamble and a newline |
| Aggregator.RenderOnlyTimestampVaries | builder/unix/tools/modulemakes.py:68-77 | two runs over one tree differ only in the preamble's timestamp |
| Aggregator.RenderIntended | builder/unix/tools/modulemakes.py:82-90 | corrected makefile (see Findings): the same fragments through the corrected rewrite, starting with the preamble and ending with a newline |
| Aggregator.RenderAgrees | builder/unix/tools/modulemakes.py:82-90 | when every walked directory is the root or lies below it with no second copy of the root, the makefile as written is the corrected one |
| Aggregator.MakefileName | builder/unix/tools/modulemakes.py:49-50 | the output file is `--makefile` when given and `<name>.mk` otherwise |
| Aggregator.OutputPath | builder/unix/tools/modulemakes.py:95 | the makefile is written in the module root, as `<name>.mk` unless `--makefile` names it |

## Left out

- Walking the tree, `os.chdir`, opening and reading files, and writing the output: the walk and file contents are inputs, and `Registry.Artifacts` and `Aggregator.OutputPath` say where each text goes.
- The clock: the timestamp is an input string. `datetime`'s rendering is not modelled.
- `os.path.exists`: the parameter `present`, asked with the path the doxygen variant builds.
- `os.path.abspath` in the makefile generator: the walk roots and the module root are taken as already absolute.
- The usage text printed to standard error, and the process exit code: `Registry.Plan` says only that usage is shown.
- Argument parsing in the makefile generator: `--root`, `--name` and `--makefile` are plain parameters.
- The block-comment start and stop of the manifest base class are empty in every variant, so they are omitted.
- Manifest.ModuleSectionShape: `str.upper` is modelled for ASCII letters only (`Text.Upper`); other characters pass through unchanged. Python also upper-cases non-ASCII letters, and some map to more than one character.
- Collector.LastWriteWins: proved only for walk roots without `//`. `os.walk('.')` never yields such a root; for other roots the collector is still modelled exactly, but the lemma does not cover it.
- Text.Replace: modelled only for a non-empty pattern, the only kind both generators use.
- Aggregator.Render: requires a non-empty module root; `os.path.abspath` never returns an empty string.

## Findings

| source | as written | input that shows it | evidently intended | confidence | as-written member | corrected member |
|---|---|---|---|---|---|---|
| builder/unix/tools/modulemakes.py:85-86 | the module root is replaced wherever it occurs in a fragment's directory, first with a trailing `/` and then without | `--root /src --name m` and a fragment in `/src/tools/src` gives `include $(m_BASEDIR)tools$(m_BASEDIR)/make.mk`; `--root /` and a fragment in `/a/b` gives `include $(m_BASEDIR)a$(m_BASEDIR)b/make.mk` | only the leading root is replaced: `include $(m_BASEDIR)tools/src/make.mk` and `include $(m_BASEDIR)a/b/make.mk` | not executed; follows from the semantics of `str.replace` | Aggregator.RewriteAsWrittenMangles | Aggregator.RewriteRelocates |

`Aggregator.RewriteAsWritten` is the two replacements as written, and
`Aggregator.Render` builds the makefile from them.
`Aggregator.Rewrite` is the corrected prefix rewrite, and
`Aggregator.RenderIntended` builds the makefile from it.
`Aggregator.RewriteAsWrittenRootSlash` exhibits the second input.
`Aggregator.RewriteAgrees` and `Aggregator.RenderAgrees` show that the two
coincide whenever no directory repeats the root after its front.
