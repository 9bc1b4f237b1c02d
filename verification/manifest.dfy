/**
  The rendering half of the manifest tool: a header, the variant's
  `initsection()`, its `module(name, dir)` for every collected module in
  ascending name order, its `denitsection()`, and a final newline. The three
  variants are the make manifest, the shell environment manifest and the
  doxygen input manifest.
 */
module Manifest {
  import opened Text
  import opened Walk
  import Collector
  import KeyOrder

  type Modules = Collector.Modules

  datatype Variant = Make | Env | Dox

  /** The file each variant writes. */
  function Target(v: Variant): string {
    match v
    case Make => "Manifest.mk"
    case Env => "Manifest.sh"
    case Dox => "Manifest.doxy"
  }

  /** The description each variant puts in its header. */
  function Description(v: Variant): string {
    match v
    case Make => "Builder Module Manifest."
    case Env => "Module Directory Location Variable Manifest."
    case Dox => "Doxygen Input Manifest."
  }

  /** The rule framing the header: 78 `#`. */
  const Rule: string := Repeat('#', 78)

  /** The lines of the comment block every manifest starts with: an empty
      line, a rule, the description and the timestamp between `#` lines,
      a rule, and the empty remainder after the final newline. */
  function HeaderLines(desc: string, now: string): seq<string> {
    ["", Rule, "#", "# " + desc, "#", "# Autogenerated " + now, "#", Rule, ""]
  }

  /** The comment block every manifest starts with. No variant sets the
      block-comment start or stop, so both are empty and left out. The
      timestamp `now` is whatever the clock rendered. As long as neither the
      description nor the timestamp holds a newline, the block reads back as
      exactly its nine lines. */
  function Header(desc: string, now: string): (r: string)
    ensures '\n' !in desc && '\n' !in now ==> Split(r, '\n') == HeaderLines(desc, now)
  {
    var ls := HeaderLines(desc, now);
    if '\n' !in desc && '\n' !in now then
      SplitJoin(ls, '\n');
      Join(ls, "\n")
    else Join(ls, "\n")
  }

  /** The make manifest opens with one line defining `BASEDIR`; the
      environment manifest has no opening; the doxygen manifest opens the
      `INPUT = ` line, left unterminated for the entries to continue. */
  function InitSection(v: Variant): (r: string)
    ensures v == Make ==> StartsWith(r, "BASEDIR") && r[|r| - 1] == '\n'
    ensures r == "" <==> v == Env
    ensures v == Dox ==> StartsWith(r, "INPUT") && '\n' !in r
  {
    match v
    case Make =>
      BaseDirLineShape();
      BaseDirLine
    case Env => ""
    case Dox => "INPUT = "
  }

  /** The make manifest's opening line. */
  const BaseDirLine: string := "BASEDIR" + " := $(dir $(lastword $(MAKEFILE_LIST)))\n"

  lemma BaseDirLineShape()
    ensures StartsWith(BaseDirLine, "BASEDIR") && BaseDirLine[|BaseDirLine| - 1] == '\n'
  {
    var w := "BASEDIR";
    var t := " := $(dir $(lastword $(MAKEFILE_LIST)))\n";
    assert BaseDirLine == w + t;
    assert (w + t)[..|w|] == w;
    assert (w + t)[|w + t| - 1] == t[|t| - 1];
  }

  /** The path the doxygen variant probes for a module's doxygen file. */
  function DoxyFile(name: string, dir: string): string {
    dir + "/" + name + ".doxy"
  }

  /** `module(name, dir)`. `present` stands for `os.path.exists`, asked
      relative to the walk root. */
  function ModuleSection(v: Variant, name: string, dir: string, present: string -> bool): string {
    match v
    case Make => name + "_BASEDIR := $(BASEDIR)" + dir + "\n"
    case Env => Upper(name) + "=`dirname $BASH_SOURCE`/" + dir + "/module\n"
    case Dox => if present(DoxyFile(name, dir)) then dir + "/module/inc " else ""
  }

  /** A make entry defines `<name>_BASEDIR`, an environment entry assigns
      the upper-cased name, and both end their line; a doxygen entry is
      empty exactly when the module has no doxygen file. */
  lemma ModuleSectionShape(v: Variant, name: string, dir: string, present: string -> bool)
    ensures var r := ModuleSection(v, name, dir, present);
      && (v != Dox ==> |r| > 0 && r[|r| - 1] == '\n')
      && (v == Make ==> StartsWith(r, name + "_BASEDIR"))
      && (v == Env ==> StartsWith(r, Upper(name) + "="))
      && (v == Dox ==> (r == "" <==> !present(DoxyFile(name, dir))))
  {
    var r := ModuleSection(v, name, dir, present);
    match v
    case Make =>
      assert r[..|name + "_BASEDIR"|] == name + "_BASEDIR";
    case Env =>
      assert r[..|Upper(name) + "="|] == Upper(name) + "=";
    case Dox =>
  }

  /** The module names of the make manifest's closing line. */
  function ModuleList(modules: Modules): string {
    Join(KeyOrder.Sorted(modules.Keys), " ")
  }

  const AllModules := "\n\nALL_MODULES := $(ALL_MODULES) "

  /** Only the make manifest closes: after an empty line, `ALL_MODULES` is
      extended by the module names. When no name holds a blank, the text after
      the assignment splits back into exactly the sorted names; with no
      module, nothing follows the assignment. */
  function DenitSection(v: Variant, modules: Modules): (r: string)
    ensures v != Make ==> r == ""
    ensures v == Make ==> StartsWith(r, AllModules)
    ensures v == Make && modules != map[] && (forall k :: k in modules ==> ' ' !in k) ==>
              Split(r[|AllModules|..], ' ') == KeyOrder.Sorted(modules.Keys)
    ensures v == Make && modules == map[] ==> r == AllModules
  {
    ModuleListNamesEveryModule(modules);
    match v
    case Make =>
      var r := AllModules + ModuleList(modules);
      assert r[..|AllModules|] == AllModules && r[|AllModules|..] == ModuleList(modules);
      assert modules == map[] ==> KeyOrder.Sorted(modules.Keys) == [] by {
        if modules == map[] { assert modules.Keys == {}; }
      }
      r
    case Env => ""
    case Dox => ""
  }

  /** `module(k, modules[k])` for each `k` of `keys`, in turn. */
  function Entries(v: Variant, modules: Modules, keys: seq<string>, present: string -> bool): string
    requires forall k :: k in keys ==> k in modules
    decreases |keys|
  {
    if |keys| == 0 then ""
    else ModuleSection(v, keys[0], modules[keys[0]], present) + Entries(v, modules, keys[1..], present)
  }

  /** The per-module part of a manifest: every module, in sorted order. */
  function Section(v: Variant, modules: Modules, present: string -> bool): string {
    Entries(v, modules, KeyOrder.Sorted(modules.Keys), present)
  }

  /** Everything after the header. */
  function Body(v: Variant, modules: Modules, present: string -> bool): string {
    InitSection(v) + Section(v, modules, present) + DenitSection(v, modules) + "\n"
  }

  /** `generate()`: the text a variant writes for a walk. */
  function Generate(v: Variant, walk: seq<Dir>, now: string, present: string -> bool): (r: string)
    ensures StartsWith(r, Header(Description(v), now))
    ensures |r| > 0 && r[|r| - 1] == '\n'
  {
    var h := Header(Description(v), now);
    var r := h + Body(v, Collector.ModulesOf(walk), present);
    assert r[..|h|] == h;
    r
  }

  // ---------------------------------------------------------------------
  // Properties of the rendering.
  // ---------------------------------------------------------------------

  lemma {:induction false} EntriesAppend(v: Variant, m: Modules, a: seq<string>, b: seq<string>, present: string -> bool)
    requires forall k :: k in a ==> k in m
    requires forall k :: k in b ==> k in m
    ensures Entries(v, m, a + b, present) == Entries(v, m, a, present) + Entries(v, m, b, present)
    decreases |a|
  {
    if |a| > 0 {
      EntriesHead(v, m, a, b, present);
      EntriesAppend(v, m, a[1..], b, present);
      AppendAssoc(ModuleSection(v, a[0], m[a[0]], present), Entries(v, m, a[1..], present), Entries(v, m, b, present));
    } else {
      assert a + b == b;
    }
  }

  lemma AppendAssoc(x: string, y: string, z: string)
    ensures x + (y + z) == x + y + z
  {
  }

  /** Both `a` and `a + b` list `a`'s first entry first. */
  lemma EntriesHead(v: Variant, m: Modules, a: seq<string>, b: seq<string>, present: string -> bool)
    requires |a| > 0
    requires forall k :: k in a ==> k in m
    requires forall k :: k in b ==> k in m
    ensures Entries(v, m, a, present) == ModuleSection(v, a[0], m[a[0]], present) + Entries(v, m, a[1..], present)
    ensures Entries(v, m, a + b, present) == ModuleSection(v, a[0], m[a[0]], present) + Entries(v, m, a[1..] + b, present)
  {
    EntriesFirst(v, m, a, present);
    EntriesFirst(v, m, a + b, present);
    HeadOfAppend(a, b);
  }

  lemma HeadOfAppend(a: seq<string>, b: seq<string>)
    requires |a| > 0
    ensures (a + b)[0] == a[0] && (a + b)[1..] == a[1..] + b
  {
  }

  lemma EntriesFirst(v: Variant, m: Modules, keys: seq<string>, present: string -> bool)
    requires |keys| > 0 && forall k :: k in keys ==> k in m
    ensures Entries(v, m, keys, present) == ModuleSection(v, keys[0], m[keys[0]], present) + Entries(v, m, keys[1..], present)
  {
  }

  /** Only the listed keys' directories matter. */
  lemma {:induction false} EntriesAgree(v: Variant, m: Modules, m': Modules, keys: seq<string>, present: string -> bool)
    requires forall k :: k in keys ==> k in m && k in m' && m[k] == m'[k]
    ensures Entries(v, m, keys, present) == Entries(v, m', keys, present)
    decreases |keys|
  {
    if |keys| > 0 {
      EntriesAgree(v, m, m', keys[1..], present);
    }
  }

  function Smaller(m: Modules, k: string): Modules {
    map j | j in m && Less(j, k) :: m[j]
  }

  function Larger(m: Modules, k: string): Modules {
    map j | j in m && Less(k, j) :: m[j]
  }

  lemma SmallerSection(v: Variant, m: Modules, k: string, present: string -> bool)
    ensures var lo := KeyOrder.Sorted(KeyOrder.Below(m.Keys, k));
      && (forall j :: j in lo ==> j in m)
      && Section(v, Smaller(m, k), present) == Entries(v, m, lo, present)
  {
    var lo := KeyOrder.Sorted(KeyOrder.Below(m.Keys, k));
    assert Smaller(m, k).Keys == KeyOrder.Below(m.Keys, k);
    EntriesAgree(v, m, Smaller(m, k), lo, present);
  }

  lemma LargerSection(v: Variant, m: Modules, k: string, present: string -> bool)
    ensures var hi := KeyOrder.Sorted(KeyOrder.Above(m.Keys, k));
      && (forall j :: j in hi ==> j in m)
      && Section(v, Larger(m, k), present) == Entries(v, m, hi, present)
  {
    var hi := KeyOrder.Sorted(KeyOrder.Above(m.Keys, k));
    assert Larger(m, k).Keys == KeyOrder.Above(m.Keys, k);
    EntriesAgree(v, m, Larger(m, k), hi, present);
  }

  /** Each module's entry is emitted once, after the entries of all smaller
      names and before the entries of all larger ones. */
  lemma EntryPosition(v: Variant, m: Modules, k: string, present: string -> bool)
    requires k in m
    ensures Section(v, m, present) ==
              Section(v, Smaller(m, k), present) + ModuleSection(v, k, m[k], present) + Section(v, Larger(m, k), present)
  {
    var lo := KeyOrder.Sorted(KeyOrder.Below(m.Keys, k));
    var hi := KeyOrder.Sorted(KeyOrder.Above(m.Keys, k));
    KeyOrder.SortedAround(m.Keys, k);
    SmallerSection(v, m, k, present);
    LargerSection(v, m, k, present);
    EntriesAppend(v, m, lo + [k], hi, present);
    EntriesAppend(v, m, lo, [k], present);
    assert Entries(v, m, [k], present) == ModuleSection(v, k, m[k], present);
  }

  /** Dropping a module from the mapping drops exactly its entry. */
  lemma SectionWithout(v: Variant, m: Modules, k: string, present: string -> bool)
    requires k in m
    ensures Section(v, m - {k}, present) == Section(v, Smaller(m, k), present) + Section(v, Larger(m, k), present)
  {
    var m' := m - {k};
    var lo := KeyOrder.Sorted(KeyOrder.Below(m.Keys, k));
    var hi := KeyOrder.Sorted(KeyOrder.Above(m.Keys, k));
    assert m'.Keys == m.Keys - {k};
    KeyOrder.SortedWithout(m.Keys, k);
    assert Section(v, m', present) == Entries(v, m', lo + hi, present);
    LessIrreflexive(k);
    assert k !in lo && k !in hi;
    EntriesAppend(v, m', lo, hi, present);
    SmallerSection(v, m, k, present);
    LargerSection(v, m, k, present);
    EntriesAgree(v, m, m', lo, present);
    EntriesAgree(v, m, m', hi, present);
  }

  lemma DoxSectionEmpty(name: string, dir: string, present: string -> bool)
    requires !present(DoxyFile(name, dir))
    ensures ModuleSection(Dox, name, dir, present) == ""
  {
  }

  /** A module without a doxygen file adds nothing to the doxygen manifest:
      its section is the one of the mapping without that module. */
  lemma DoxSkipsUndocumented(m: Modules, k: string, present: string -> bool)
    requires k in m && !present(DoxyFile(k, m[k]))
    ensures Section(Dox, m, present) == Section(Dox, m - {k}, present)
  {
    DoxSectionEmpty(k, m[k], present);
    EntryPosition(Dox, m, k, present);
    SectionWithout(Dox, m, k, present);
  }

  /** A module with a doxygen file contributes its include directory, with a
      trailing blank, to the `INPUT = ` line. */
  lemma DoxListsDocumented(m: Modules, k: string, present: string -> bool)
    requires k in m && present(DoxyFile(k, m[k]))
    ensures Section(Dox, m, present) ==
              Section(Dox, Smaller(m, k), present) + (m[k] + "/module/inc ") + Section(Dox, Larger(m, k), present)
  {
    EntryPosition(Dox, m, k, present);
    assert ModuleSection(Dox, k, m[k], present) == m[k] + "/module/inc ";
  }

  predicate SingleLine(s: string) {
    '\n' !in s
  }

  lemma UpperKeepsNewlines(s: string)
    requires '\n' !in s
    ensures '\n' !in Upper(s)
  {
    var r := Upper(s);
    forall i | 0 <= i < |r| ensures r[i] != '\n' {
      assert r[i] == UpperChar(s[i]);
    }
  }

  lemma SectionLines(v: Variant, name: string, dir: string, present: string -> bool)
    requires SingleLine(name) && SingleLine(dir)
    ensures Newlines(ModuleSection(v, name, dir, present)) == if v == Dox then 0 else 1
  {
    match v
    case Make =>
      var e := name + "_BASEDIR := $(BASEDIR)" + dir;
      assert '\n' !in e;
      NewlinesNone(e);
      NewlinesAppend(e, "\n");
    case Env =>
      UpperKeepsNewlines(name);
      var e := Upper(name) + "=`dirname $BASH_SOURCE`/" + dir + "/module";
      assert ModuleSection(v, name, dir, present) == e + "\n";
      assert '\n' !in e;
      NewlinesNone(e);
      NewlinesAppend(e, "\n");
    case Dox =>
      NewlinesNone(ModuleSection(v, name, dir, present));
  }

  lemma {:induction false} EntriesLines(v: Variant, m: Modules, keys: seq<string>, present: string -> bool)
    requires forall k :: k in keys ==> k in m && SingleLine(k) && SingleLine(m[k])
    ensures Newlines(Entries(v, m, keys, present)) == if v == Dox then 0 else |keys|
    decreases |keys|
  {
    if |keys| > 0 {
      var k := keys[0];
      assert k in keys;
      EntriesLines(v, m, keys[1..], present);
      SectionLines(v, k, m[k], present);
      NewlinesAppend(ModuleSection(v, k, m[k], present), Entries(v, m, keys[1..], present));
    }
  }

  /** The make and environment manifests give every module exactly one line;
      the doxygen manifest keeps all of them on its `INPUT = ` line. */
  lemma LinePerModule(v: Variant, m: Modules, present: string -> bool)
    requires forall k :: k in m ==> SingleLine(k) && SingleLine(m[k])
    ensures Newlines(Section(v, m, present)) == if v == Dox then 0 else |m|
  {
    EntriesLines(v, m, KeyOrder.Sorted(m.Keys), present);
  }

  /** The closing line of the make manifest names every module once, in the
      same ascending order as the entries, each separated by one blank. */
  lemma ModuleListNamesEveryModule(m: Modules)
    ensures m != map[] && (forall k :: k in m ==> ' ' !in k) ==>
              Split(ModuleList(m), ' ') == KeyOrder.Sorted(m.Keys)
  {
    if m != map[] && (forall k :: k in m ==> ' ' !in k) {
      var keys := KeyOrder.Sorted(m.Keys);
      assert |keys| == |m.Keys| > 0 by {
        var k :| k in m;
      }
      SplitJoin(keys, ' ');
    }
  }

  /** A module name holding a blank, as a trailing comment on the
      declaration line leaves it, reads back from the closing list as two
      names. */
  lemma BlankInNameSplits(a: string, b: string, dir: string)
    requires ' ' !in a && ' ' !in b
    ensures Split(ModuleList(map[a + " " + b := dir]), ' ') == [a, b]
  {
    var k := a + " " + b;
    var m := map[k := dir];
    var keys := KeyOrder.Sorted(m.Keys);
    assert m.Keys == {k};
    assert keys == [k] by {
      assert |keys| == 1 && k in keys;
    }
    assert ModuleList(m) == a + [' '] + b;
    FirstIndexAfter(a, ' ', b);
    var s := a + [' '] + b;
    assert s[..|a|] == a && s[|a| + 1..] == b;
  }

  /** With no module collected, a manifest is its header, its init section,
      its closing section and a newline. */
  lemma GenerateEmpty(v: Variant, walk: seq<Dir>, now: string, present: string -> bool)
    requires Collector.ModulesOf(walk) == map[]
    ensures Generate(v, walk, now, present) ==
              Header(Description(v), now) + InitSection(v) + DenitSection(v, map[]) + "\n"
  {
    var h := Header(Description(v), now);
    var i := InitSection(v);
    var d := DenitSection(v, map[]);
    BodyEmpty(v, present);
    GenerateParts(v, walk, now, present);
    AppendAssoc(h, i + d, "\n");
    AppendAssoc(h, i, d);
  }

  lemma GenerateParts(v: Variant, walk: seq<Dir>, now: string, present: string -> bool)
    ensures Generate(v, walk, now, present) == Header(Description(v), now) + Body(v, Collector.ModulesOf(walk), present)
  {
  }

  /** Without modules, the body is the init and closing sections. */
  lemma BodyEmpty(v: Variant, present: string -> bool)
    ensures Body(v, map[], present) == InitSection(v) + DenitSection(v, map[]) + "\n"
  {
    var i := InitSection(v);
    var d := DenitSection(v, map[]);
    SectionEmpty(v, present);
    assert Body(v, map[], present) == i + "" + d + "\n";
    assert i + "" == i;
  }

  /** The make manifest of a tree without modules: the header, the
      `BASEDIR` line, and an `ALL_MODULES` assignment that adds nothing. */
  lemma MakeManifestEmpty(walk: seq<Dir>, now: string, present: string -> bool)
    requires Collector.ModulesOf(walk) == map[]
    ensures Generate(Make, walk, now, present) ==
              Header("Builder Module Manifest.", now)
              + ("BASEDIR" + " := $(dir $(lastword $(MAKEFILE_LIST)))\n")
              + "\n\nALL_MODULES := $(ALL_MODULES) \n"
  {
    GenerateEmpty(Make, walk, now, present);
    var h := Header(Description(Make), now);
    var init := InitSection(Make);
    var denit := DenitSection(Make, map[]);
    assert Description(Make) == "Builder Module Manifest.";
    MakeInit();
    MakeDenitEmpty();
    assert h + init + denit + "\n" == h + init + (denit + "\n");
  }

  lemma MakeInit()
    ensures InitSection(Make) == "BASEDIR" + " := $(dir $(lastword $(MAKEFILE_LIST)))\n"
  {
  }

  lemma MakeDenitEmpty()
    ensures DenitSection(Make, map[]) + "\n" == "\n\nALL_MODULES := $(ALL_MODULES) \n"
  {
    var m: Modules := map[];
    assert DenitSection(Make, m) == AllModules;
  }

  lemma SectionEmpty(v: Variant, present: string -> bool)
    ensures Section(v, map[], present) == ""
  {
    var m: Modules := map[];
    assert m.Keys == {};
    assert KeyOrder.Sorted(m.Keys) == [];
  }

  /** Two runs over the same tree differ only in the timestamp of the
      header; everything after the header is the same text. */
  lemma OnlyTimestampVaries(v: Variant, walk: seq<Dir>, now: string, now': string, present: string -> bool)
    ensures var a := Generate(v, walk, now, present);
            var b := Generate(v, walk, now', present);
            var ha := |Header(Description(v), now)|;
            var hb := |Header(Description(v), now')|;
            ha <= |a| && hb <= |b| && a[ha..] == b[hb..]
  {
    var body := Body(v, Collector.ModulesOf(walk), present);
    assert (Header(Description(v), now) + body)[|Header(Description(v), now)|..] == body;
    assert (Header(Description(v), now') + body)[|Header(Description(v), now')|..] == body;
  }
}
