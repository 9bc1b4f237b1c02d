/**
  The fragment aggregator: every file named `make.mk`, `_make.mk` or
  `__make.mk` under a module's root is included, in that tier order, from
  one generated makefile that defines `<name>_BASEDIR` from its own
  location and refers to the fragments through it.
 */
module Aggregator {
  import opened Wrappers
  import opened Text
  import opened Walk

  /** The fragment names, most general first. */
  const Patterns: seq<string> := ["make.mk", "_make.mk", "__make.mk"]

  /** A file the walk found: its directory, already made absolute, and its
      name. */
  datatype Fragment = Fragment(root: string, file: string)

  /** The tier of a file name: its position in `Patterns`. */
  function Tier(file: string): (t: Option<nat>)
    ensures t.Some? <==> file in Patterns
    ensures t.Some? ==> t.value < |Patterns| && Patterns[t.value] == file
  {
    if file == Patterns[0] then Some(0)
    else if file == Patterns[1] then Some(1)
    else if file == Patterns[2] then Some(2)
    else None
  }

  // ---------------------------------------------------------------------
  // Collection.
  // ---------------------------------------------------------------------

  /** The files of one walk entry, in order. */
  function DirFiles(root: string, files: seq<File>): (r: seq<Fragment>)
    ensures |r| == |files|
    ensures forall i :: 0 <= i < |files| ==> r[i] == Fragment(root, files[i].name)
  {
    seq(|files|, i requires 0 <= i < |files| => Fragment(root, files[i].name))
  }

  /** Every file of the walk, in walk order. */
  function WalkFiles(walk: seq<Dir>): seq<Fragment>
    decreases |walk|
  {
    if |walk| == 0 then [] else DirFiles(walk[0].root, walk[0].files) + WalkFiles(walk[1..])
  }

  /** The files of `fs` named `p`, in their order. */
  function Named(fs: seq<Fragment>, p: string): (r: seq<Fragment>)
    decreases |fs|
  {
    if |fs| == 0 then []
    else if fs[0].file == p then [fs[0]] + Named(fs[1..], p)
    else Named(fs[1..], p)
  }

  /** The files of `fs` that belong to some tier, in their order. */
  function Matching(fs: seq<Fragment>): seq<Fragment>
    decreases |fs|
  {
    if |fs| == 0 then []
    else if fs[0].file in Patterns then [fs[0]] + Matching(fs[1..])
    else Matching(fs[1..])
  }

  type Found = f: seq<seq<Fragment>> | |f| == |Patterns| witness [[], [], []]

  /** `found[file_].append(...)` for the files of one walk entry: each
      bucket gains exactly the entry's files of its name, in order. */
  function GatherFiles(root: string, files: seq<File>, found: Found): (r: Found)
    ensures forall t :: 0 <= t < |Patterns| ==>
              r[t] == found[t] + Named(DirFiles(root, files), Patterns[t])
    decreases |files|
  {
    if |files| == 0 then found
    else
      assert DirFiles(root, files)[1..] == DirFiles(root, files[1..]);
      match Tier(files[0].name)
      case None => GatherFiles(root, files[1..], found)
      case Some(t) =>
        GatherFiles(root, files[1..], found[t := found[t] + [Fragment(root, files[0].name)]])
  }

  /** The loop over the walk: each bucket gains exactly the walk's files of
      its name, in walk order. */
  function Gather(walk: seq<Dir>, found: Found): (r: Found)
    ensures forall t :: 0 <= t < |Patterns| ==>
              r[t] == found[t] + Named(WalkFiles(walk), Patterns[t])
    decreases |walk|
  {
    if |walk| == 0 then found
    else
      var here := DirFiles(walk[0].root, walk[0].files);
      assert forall t :: 0 <= t < |Patterns| ==>
               Named(WalkFiles(walk), Patterns[t]) == Named(here, Patterns[t]) + Named(WalkFiles(walk[1..]), Patterns[t]) by {
        forall t | 0 <= t < |Patterns| {
          NamedAppend(here, WalkFiles(walk[1..]), Patterns[t]);
        }
      }
      Gather(walk[1..], GatherFiles(walk[0].root, walk[0].files, found))
  }

  /** The fragments in the order the makefile includes them: tier by tier,
      and within a tier in walk order. */
  function Ordered(walk: seq<Dir>): (r: seq<Fragment>)
    ensures forall i :: 0 <= i < |r| ==> r[i].file in Patterns
    ensures forall i, j :: 0 <= i < j < |r| ==> Tier(r[i].file).value <= Tier(r[j].file).value
    ensures forall p :: p in Patterns ==> Named(r, p) == Named(WalkFiles(walk), p)
    ensures |r| == |Matching(WalkFiles(walk))|
  {
    var found := Gather(walk, [[], [], []]);
    var r := found[0] + found[1] + found[2];
    BucketsNamed(WalkFiles(walk), found);
    TiersInOrder(found);
    MatchingSplits(WalkFiles(walk));
    r
  }

  lemma {:induction false} NamedAppend(a: seq<Fragment>, b: seq<Fragment>, p: string)
    ensures Named(a + b, p) == Named(a, p) + Named(b, p)
    decreases |a|
  {
    if |a| > 0 {
      assert (a + b)[1..] == a[1..] + b;
      NamedAppend(a[1..], b, p);
    } else {
      assert a + b == b;
    }
  }

  lemma {:induction false} NamedNamed(fs: seq<Fragment>, p: string)
    ensures Named(Named(fs, p), p) == Named(fs, p)
    decreases |fs|
  {
    if |fs| > 0 {
      NamedNamed(fs[1..], p);
      if fs[0].file == p {
        assert ([fs[0]] + Named(fs[1..], p))[1..] == Named(fs[1..], p);
      }
    }
  }

  /** A bucket holding only files named `q` keeps them all under `q` and
      none under any other name. */
  lemma {:induction false} NamedOnly(fs: seq<Fragment>, q: string, p: string)
    requires forall i :: 0 <= i < |fs| ==> fs[i].file == q
    ensures Named(fs, p) == if p == q then fs else []
    decreases |fs|
  {
    if |fs| > 0 {
      NamedOnly(fs[1..], q, p);
      assert fs == [fs[0]] + fs[1..];
    }
  }

  lemma {:induction false} NamedFiles(fs: seq<Fragment>, p: string)
    ensures forall i :: 0 <= i < |Named(fs, p)| ==> Named(fs, p)[i].file == p
    decreases |fs|
  {
    if |fs| > 0 {
      NamedFiles(fs[1..], p);
    }
  }

  /** Buckets holding exactly the files of their name: each file in a
      bucket carries that bucket's name, and concatenating the buckets
      keeps, for every name, exactly the files of that name in order. */
  lemma BucketsNamed(fs: seq<Fragment>, found: Found)
    requires forall t :: 0 <= t < |Patterns| ==> found[t] == Named(fs, Patterns[t])
    ensures forall t, i :: 0 <= t < |Patterns| && 0 <= i < |found[t]| ==> found[t][i].file == Patterns[t]
    ensures forall p :: p in Patterns ==> Named(found[0] + found[1] + found[2], p) == Named(fs, p)
  {
    forall t | 0 <= t < |Patterns|
      ensures forall i :: 0 <= i < |found[t]| ==> found[t][i].file == Patterns[t]
    {
      NamedFiles(fs, Patterns[t]);
    }
    forall p | p in Patterns ensures Named(found[0] + found[1] + found[2], p) == Named(fs, p) {
      NamedAppend(found[0] + found[1], found[2], p);
      NamedAppend(found[0], found[1], p);
      NamedOnly(found[0], Patterns[0], p);
      NamedOnly(found[1], Patterns[1], p);
      NamedOnly(found[2], Patterns[2], p);
      NamedNamed(fs, p);
    }
  }

  lemma TiersInOrder(found: Found)
    requires forall t :: 0 <= t < |Patterns| ==>
               forall i :: 0 <= i < |found[t]| ==> found[t][i].file == Patterns[t]
    ensures var r := found[0] + found[1] + found[2];
      && (forall i :: 0 <= i < |r| ==> r[i].file in Patterns)
      && (forall i, j :: 0 <= i < j < |r| ==> Tier(r[i].file).value <= Tier(r[j].file).value)
  {
    var r := found[0] + found[1] + found[2];
    var a, b := |found[0]|, |found[0]| + |found[1]|;
    assert forall i :: 0 <= i < a ==> r[i] == found[0][i];
    assert forall i :: a <= i < b ==> r[i] == found[1][i - a];
    assert forall i :: b <= i < |r| ==> r[i] == found[2][i - b];
  }

  lemma {:induction false} MatchingSplits(fs: seq<Fragment>)
    ensures |Matching(fs)| ==
              |Named(fs, Patterns[0])| + |Named(fs, Patterns[1])| + |Named(fs, Patterns[2])|
    decreases |fs|
  {
    if |fs| > 0 {
      MatchingSplits(fs[1..]);
    }
  }

  // ---------------------------------------------------------------------
  // Path rewriting.
  // ---------------------------------------------------------------------

  /** `$(<name>_BASEDIR)`. */
  function BaseVar(name: string): string {
    "$(" + name + "_BASEDIR)"
  }

  /** The two `str.replace` calls as the aggregator writes them: first
      `absRoot + "/"`, then `absRoot`, replaced wherever they occur.
      `os.path.abspath` never returns an empty string. The root itself
      becomes the variable, and a directory in which the root does not
      occur is left alone. */
  function RewriteAsWritten(name: string, absRoot: string, dir: string): (r: string)
    requires |absRoot| > 0
    ensures dir == absRoot ==> r == BaseVar(name)
    ensures !Contains(dir, absRoot) ==> r == dir
  {
    var n := BaseVar(name);
    NotContainsLonger(dir, absRoot, "/");
    ShortAbsent(absRoot, absRoot + "/");
    ReplaceAtStart(absRoot, [], n);
    assert absRoot + [] == absRoot;
    Replace(Replace(dir, absRoot + "/", n), absRoot, n)
  }

  /** Nothing but the directory's and the variable's characters appear in
      the result of the two replacements. */
  lemma RewriteAsWrittenChars(name: string, absRoot: string, dir: string)
    requires |absRoot| > 0
    ensures forall c :: c in RewriteAsWritten(name, absRoot, dir) ==> c in dir || c in BaseVar(name)
  {
    var n := BaseVar(name);
    var once := Replace(dir, absRoot + "/", n);
    ReplaceChars(dir, absRoot + "/", n);
    ReplaceChars(once, absRoot, n);
  }

  /** What a directory under the root starts with. */
  function RootPrefix(absRoot: string): string {
    if |absRoot| > 0 && absRoot[|absRoot| - 1] == '/' then absRoot else absRoot + "/"
  }

  /** The rewrite the generated makefile needs: the root itself, or the
      root's prefix at the front of a directory, becomes `$(<name>_BASEDIR)`;
      nothing else in the directory is touched. */
  function Rewrite(name: string, absRoot: string, dir: string): (r: string)
    ensures dir == absRoot ==> r == BaseVar(name)
    ensures !StartsWith(dir, RootPrefix(absRoot)) && dir != absRoot ==> r == dir
  {
    if dir == absRoot then BaseVar(name)
    else if StartsWith(dir, RootPrefix(absRoot)) then BaseVar(name) + dir[|RootPrefix(absRoot)|..]
    else dir
  }

  /** The rewrite puts the variable in place of the root prefix and keeps
      the rest of the directory verbatim, whatever that rest contains. */
  lemma RewriteRelocates(name: string, absRoot: string, rel: string)
    requires absRoot + "/" + rel != absRoot
    requires absRoot == [] || absRoot[|absRoot| - 1] != '/'
    ensures Rewrite(name, absRoot, absRoot + "/" + rel) == BaseVar(name) + rel
  {
    var dir := absRoot + "/" + rel;
    assert RootPrefix(absRoot) == absRoot + "/";
    assert dir[..|absRoot| + 1] == absRoot + "/";
    assert dir[|absRoot| + 1..] == rel;
  }

  /** The replacements agree with the prefix rewrite on the walk root and on
      every directory below it whose relative part, after the variable,
      does not hold the root again. */
  lemma RewriteAgrees(name: string, absRoot: string, rel: string)
    requires |absRoot| > 0 && absRoot[|absRoot| - 1] != '/'
    requires !Contains(BaseVar(name) + rel, absRoot)
    ensures RewriteAsWritten(name, absRoot, absRoot) == Rewrite(name, absRoot, absRoot)
    ensures RewriteAsWritten(name, absRoot, absRoot + "/" + rel) == Rewrite(name, absRoot, absRoot + "/" + rel)
  {
    var n := BaseVar(name);
    ShortAbsent(absRoot, absRoot + "/");
    ReplaceAtStart(absRoot, [], n);
    assert absRoot + [] == absRoot;
    assert !Contains(rel, absRoot) by {
      if Contains(rel, absRoot) { ContainsAfter(n, rel, absRoot); }
    }
    assert !Contains(rel, absRoot + "/") by {
      if Contains(rel, absRoot + "/") { ContainsPrefix(rel, absRoot, "/"); }
    }
    ReplaceAtStart(absRoot + "/", rel, n);
    assert absRoot + "/" + rel == (absRoot + "/") + rel;
    RewriteRelocates(name, absRoot, rel);
  }

  /** With a root of one component such as `/src`, a fragment in
      `/src/tools/src` is included through `$(<name>_BASEDIR)tools$(<name>_BASEDIR)`:
      the second replacement also rewrites the trailing `/src`, which is no
      prefix at all, where the prefix rewrite gives `$(<name>_BASEDIR)tools/src`. */
  lemma RewriteAsWrittenMangles(name: string, root: string)
    requires |root| > 1 && root[0] == '/' && '/' !in root[1..]
    requires '/' !in name
    ensures RewriteAsWritten(name, root, root + "/tools" + root) == BaseVar(name) + "tools" + BaseVar(name)
    ensures Rewrite(name, root, root + "/tools" + root) == BaseVar(name) + "tools" + root
    ensures RewriteAsWritten(name, root, root + "/tools" + root) != Rewrite(name, root, root + "/tools" + root)
  {
    var n := BaseVar(name);
    var dir := root + "/tools" + root;
    assert '/' !in n;
    // First replacement: only the leading `root + "/"` occurs.
    assert dir == (root + "/") + ("tools" + root);
    ReplaceAtStart(root + "/", "tools" + root, n);
    ReplaceKeeps("tools", root, root + "/", n);
    ShortAbsent(root, root + "/");
    assert Replace(dir, root + "/", n) == (n + "tools") + root;
    // Second replacement: the trailing `root` is replaced too.
    assert '/' !in n + "tools";
    ReplaceKeeps(n + "tools", root, root, n);
    ReplaceAtStart(root, [], n);
    assert root + [] == root;
    // The prefix rewrite.
    assert root[|root| - 1] != '/' by {
      assert root[|root| - 1] == root[1..][|root| - 2];
    }
    RewriteRelocates(name, root, "tools" + root);
    assert root + "/" + ("tools" + root) == dir;
    assert (n + "tools" + n)[|n| + 5] != (n + "tools" + root)[|n| + 5];
  }

  /** With the file-system root `/` as module root, `absRoot + "/"` is
      `//`, which a walked directory does not contain, and the second
      replacement turns every `/` of the directory into the variable:
      `/a/b` is included through `$(<name>_BASEDIR)a$(<name>_BASEDIR)b`,
      where the prefix rewrite gives `$(<name>_BASEDIR)a/b`. */
  lemma RewriteAsWrittenRootSlash(name: string, a: string, b: string)
    requires |a| > 0 && '/' !in a && '/' !in b && '/' !in name
    ensures RewriteAsWritten(name, "/", "/" + a + "/" + b) == BaseVar(name) + a + BaseVar(name) + b
    ensures Rewrite(name, "/", "/" + a + "/" + b) == BaseVar(name) + a + "/" + b
  {
    RootSlashAsWritten(name, a, b);
    RewriteRootSlash(name, a, b);
  }

  lemma RootSlashAsWritten(name: string, a: string, b: string)
    requires |a| > 0 && '/' !in a && '/' !in b && '/' !in name
    ensures RewriteAsWritten(name, "/", "/" + a + "/" + b) == BaseVar(name) + a + BaseVar(name) + b
  {
    var n := BaseVar(name);
    var dir := "/" + a + "/" + b;
    assert '/' !in n;
    NoDoubleSlash(a, b, n);
    EverySlash(a, b, n);
    assert n + (a + (n + b)) == n + a + n + b;
    RewriteAsWrittenSteps(name, "/", dir, dir, n + a + n + b);
  }

  /** The two replacements, one after the other. */
  lemma RewriteAsWrittenSteps(name: string, absRoot: string, dir: string, once: string, twice: string)
    requires |absRoot| > 0
    requires Replace(dir, absRoot + "/", BaseVar(name)) == once
    requires Replace(once, absRoot, BaseVar(name)) == twice
    ensures RewriteAsWritten(name, absRoot, dir) == twice
  {
  }

  /** Two separated slashes never make `//`: the first replacement keeps the
      directory. */
  lemma NoDoubleSlash(a: string, b: string, n: string)
    requires |a| > 0 && '/' !in a && '/' !in b
    ensures Replace("/" + a + "/" + b, "/" + "/", n) == "/" + a + "/" + b
  {
    NoDoubled('/', a, b, n);
    assert "/" == ['/'];
    assert "/" + "/" == ['/', '/'];
  }

  /** Two copies of `c` with something between them never make `cc`. */
  lemma NoDoubled(c: char, a: string, b: string, n: string)
    requires |a| > 0 && c !in a && c !in b
    ensures Replace([c] + a + [c] + b, [c, c], n) == [c] + a + [c] + b
  {
    var pat := [c, c];
    var tail := [c] + b;
    assert !StartsWith(tail, pat) by {
      if |b| > 0 { assert tail[1] == b[0]; }
    }
    ReplaceUnmatched(c, b, pat, n);
    ReplaceKeeps(b, [], pat, n);
    assert b + [] == b;
    assert Replace(tail, pat, n) == tail;
    ReplaceKeeps(a, tail, pat, n);
    var rest := a + tail;
    assert !StartsWith([c] + rest, pat) by {
      assert ([c] + rest)[1] == a[0];
    }
    ReplaceUnmatched(c, rest, pat, n);
    assert [c] + a + [c] + b == [c] + rest;
  }

  /** The second replacement puts the variable in place of every slash. */
  lemma EverySlash(a: string, b: string, n: string)
    requires '/' !in a && '/' !in b
    ensures Replace("/" + a + "/" + b, "/", n) == n + (a + (n + b))
  {
    var slash := "/";
    var tail := slash + b;
    ReplaceKeeps(b, [], slash, n);
    assert b + [] == b;
    ReplaceAtStart(slash, b, n);
    assert Replace(tail, slash, n) == n + b;
    ReplaceKeeps(a, tail, slash, n);
    ReplaceAtStart(slash, a + tail, n);
    assert "/" + a + "/" + b == slash + (a + tail);
  }

  /** Under the root `/`, the prefix rewrite drops the leading slash only. */
  lemma RewriteRootSlash(name: string, a: string, b: string)
    requires |a| > 0
    ensures Rewrite(name, "/", "/" + a + "/" + b) == BaseVar(name) + a + "/" + b
  {
    var rel := a + "/" + b;
    var dir := "/" + a + "/" + b;
    assert dir == "/" + rel;
    assert RootPrefix("/") == "/";
    assert dir[..1] == "/" && dir[1..] == rel;
    assert BaseVar(name) + rel == BaseVar(name) + a + "/" + b;
  }

  // ---------------------------------------------------------------------
  // The generated makefile.
  // ---------------------------------------------------------------------

  /** The rule framing the comment block: 79 `#`. */
  const Rule: string := Repeat('#', 79)

  /** What follows the module name on the line defining the base variable:
      the directory of the makefile being read. */
  const BaseDefinition: string := "_BASEDIR := " + "$(dir " + "$(abspath " + "$(lastword " + "$(MAKEFILE_LIST))))"

  /** The lines of the preamble: the comment block naming the module and
      the timestamp, the definition of `<name>_BASEDIR` as the directory of
      the including makefile, and the empty remainder after its newline. */
  function PreambleLines(name: string, now: string): seq<string> {
    [ "", Rule, "#", "# Inclusive Makefile for the " + name + " module.", "#", "# Autogenerated " + now, "#", Rule
    , name + BaseDefinition, "" ]
  }

  /** The preamble; as long as neither the module name nor the timestamp
      holds a newline, it reads back as exactly its lines. */
  function Preamble(name: string, now: string): (r: string)
    ensures '\n' !in name && '\n' !in now ==> Split(r, '\n') == PreambleLines(name, now)
  {
    var ls := PreambleLines(name, now);
    if '\n' !in name && '\n' !in now then
      assert '\n' !in Rule;
      assert '\n' !in "# Inclusive Makefile for the " + name + " module.";
      assert '\n' !in "# Autogenerated " + now;
      assert '\n' !in name + BaseDefinition;
      SplitJoin(ls, '\n');
      Join(ls, "\n")
    else Join(ls, "\n")
  }

  /** One `include` directive for the fragment `file` in the directory
      `dir`, as the makefile refers to it: a single line when neither holds
      a newline. */
  function IncludeLine(dir: string, file: string): (r: string)
    ensures StartsWith(r, "include ")
    ensures '\n' !in dir && '\n' !in file ==> Newlines(r) == 1
  {
    var e := "include " + dir + "/" + file;
    NewlineTerminated(e);
    assert (e + "\n")[..|"include "|] == "include ";
    e + "\n"
  }

  /** The include lines for fragments `fs` whose directories, as the
      makefile names them, are `dirs`. */
  function IncludeLines(dirs: seq<string>, fs: seq<Fragment>): (r: seq<string>)
    requires |dirs| == |fs|
    ensures |r| == |fs|
    ensures forall i :: 0 <= i < |fs| ==> r[i] == IncludeLine(dirs[i], fs[i].file)
  {
    seq(|fs|, i requires 0 <= i < |fs| => IncludeLine(dirs[i], fs[i].file))
  }

  /** The directories of `fs` after the two replacements. */
  function AsWrittenDirs(name: string, absRoot: string, fs: seq<Fragment>): (r: seq<string>)
    requires |absRoot| > 0
    ensures |r| == |fs|
    ensures forall i :: 0 <= i < |fs| ==> r[i] == RewriteAsWritten(name, absRoot, fs[i].root)
  {
    seq(|fs|, i requires 0 <= i < |fs| => RewriteAsWritten(name, absRoot, fs[i].root))
  }

  /** The directories of `fs` after the prefix rewrite. */
  function IntendedDirs(name: string, absRoot: string, fs: seq<Fragment>): (r: seq<string>)
    ensures |r| == |fs|
    ensures forall i :: 0 <= i < |fs| ==> r[i] == Rewrite(name, absRoot, fs[i].root)
  {
    seq(|fs|, i requires 0 <= i < |fs| => Rewrite(name, absRoot, fs[i].root))
  }

  /** A makefile: the preamble, the include lines, and a final newline. */
  function Makefile(name: string, now: string, dirs: seq<string>, fs: seq<Fragment>): (r: string)
    requires |dirs| == |fs|
    ensures StartsWith(r, Preamble(name, now))
    ensures |r| > 0 && r[|r| - 1] == '\n'
  {
    var r := Preamble(name, now) + Concat(IncludeLines(dirs, fs)) + "\n";
    assert r[..|Preamble(name, now)|] == Preamble(name, now);
    r
  }

  /** The generated makefile for module `name`, whose root directory is
      `absRoot` (as `os.path.abspath` gives it), over a walk whose
      directories are absolute too: the fragments in tier order, each
      included through the two replacements as written. */
  function Render(name: string, absRoot: string, walk: seq<Dir>, now: string): (r: string)
    requires |absRoot| > 0
    ensures StartsWith(r, Preamble(name, now))
    ensures |r| > 0 && r[|r| - 1] == '\n'
  {
    var fs := Ordered(walk);
    Makefile(name, now, AsWrittenDirs(name, absRoot, fs), fs)
  }

  /** The makefile the generator is meant to write: the same fragments,
      each included through the prefix rewrite. */
  function RenderIntended(name: string, absRoot: string, walk: seq<Dir>, now: string): (r: string)
    ensures StartsWith(r, Preamble(name, now))
    ensures |r| > 0 && r[|r| - 1] == '\n'
  {
    var fs := Ordered(walk);
    Makefile(name, now, IntendedDirs(name, absRoot, fs), fs)
  }

  /** A directory that is the root, or lies below it with no second copy of
      the root after the variable is put in. */
  predicate RootOnlyAtFront(name: string, absRoot: string, dir: string) {
    || dir == absRoot
    || (StartsWith(dir, absRoot + "/") && !Contains(BaseVar(name) + dir[|absRoot| + 1..], absRoot))
  }

  /** On such a directory the two replacements give the prefix rewrite. */
  lemma RewriteAgreesAt(name: string, absRoot: string, dir: string)
    requires |absRoot| > 0 && absRoot[|absRoot| - 1] != '/'
    requires RootOnlyAtFront(name, absRoot, dir)
    ensures RewriteAsWritten(name, absRoot, dir) == Rewrite(name, absRoot, dir)
  {
    if dir != absRoot {
      var rel := dir[|absRoot| + 1..];
      assert dir == absRoot + "/" + rel;
      RewriteAgrees(name, absRoot, rel);
    }
  }

  /** Where every walked directory holds the root only at its front, the
      makefile as written is the intended one. */
  lemma RenderAgrees(name: string, absRoot: string, walk: seq<Dir>, now: string)
    requires |absRoot| > 0 && absRoot[|absRoot| - 1] != '/'
    requires forall i :: 0 <= i < |walk| ==> RootOnlyAtFront(name, absRoot, walk[i].root)
    ensures Render(name, absRoot, walk, now) == RenderIntended(name, absRoot, walk, now)
  {
    var fs := Ordered(walk);
    var a := AsWrittenDirs(name, absRoot, fs);
    var b := IntendedDirs(name, absRoot, fs);
    forall k | 0 <= k < |fs| ensures a[k] == b[k] {
      OrderedRoots(walk, fs[k]);
      RewriteAgreesAt(name, absRoot, fs[k].root);
    }
    assert a == b;
  }

  /** With no fragment under the root, the makefile only defines the base
      variable. */
  lemma RenderNoFragments(name: string, absRoot: string, walk: seq<Dir>, now: string)
    requires |absRoot| > 0
    requires Matching(WalkFiles(walk)) == []
    ensures Render(name, absRoot, walk, now) == Preamble(name, now) + "\n"
  {
    assert Ordered(walk) == [];
    assert IncludeLines(AsWrittenDirs(name, absRoot, []), []) == [];
  }

  /** Two runs over the same tree differ only in the timestamp of the
      preamble; the include lines and everything after them are the same. */
  lemma RenderOnlyTimestampVaries(name: string, absRoot: string, walk: seq<Dir>, now: string, now': string)
    requires |absRoot| > 0
    ensures var a := Render(name, absRoot, walk, now);
            var b := Render(name, absRoot, walk, now');
            var pa := |Preamble(name, now)|;
            var pb := |Preamble(name, now')|;
            pa <= |a| && pb <= |b| && a[pa..] == b[pb..]
  {
    RenderParts(name, absRoot, walk, now);
    RenderParts(name, absRoot, walk, now');
    var fs := Ordered(walk);
    var rest := Concat(IncludeLines(AsWrittenDirs(name, absRoot, fs), fs)) + "\n";
    AfterPrefix(Preamble(name, now), rest);
    AfterPrefix(Preamble(name, now'), rest);
  }

  /** The makefile as written is its preamble, its include lines and a
      newline. */
  lemma RenderParts(name: string, absRoot: string, walk: seq<Dir>, now: string)
    requires |absRoot| > 0
    ensures var fs := Ordered(walk);
      Render(name, absRoot, walk, now) ==
        Preamble(name, now) + (Concat(IncludeLines(AsWrittenDirs(name, absRoot, fs), fs)) + "\n")
  {
    var fs := Ordered(walk);
    var p := Preamble(name, now);
    var c := Concat(IncludeLines(AsWrittenDirs(name, absRoot, fs), fs));
    assert p + c + "\n" == p + (c + "\n");
  }

  lemma AfterPrefix(p: string, rest: string)
    ensures |p| <= |p + rest| && (p + rest)[|p|..] == rest
  {
  }

  lemma {:induction false} IncludeLinesCount(dirs: seq<string>, fs: seq<Fragment>)
    requires |dirs| == |fs|
    requires forall i :: 0 <= i < |fs| ==> '\n' !in dirs[i] && fs[i].file in Patterns
    ensures Newlines(Concat(IncludeLines(dirs, fs))) == |fs|
    decreases |fs|
  {
    if |fs| > 0 {
      var ls := IncludeLines(dirs, fs);
      assert ls[1..] == IncludeLines(dirs[1..], fs[1..]);
      IncludeLinesCount(dirs[1..], fs[1..]);
      assert '\n' !in fs[0].file;
      NewlinesAppend(ls[0], Concat(ls[1..]));
    }
  }

  /** One include line per fragment: between the preamble and the final
      newline there are exactly as many lines as there are files named after
      a tier under the root. */
  lemma IncludePerFragment(name: string, absRoot: string, walk: seq<Dir>, now: string)
    requires |absRoot| > 0
    requires '\n' !in name
    requires forall i :: 0 <= i < |walk| ==> '\n' !in walk[i].root
    ensures var fs := Ordered(walk);
      var lines := IncludeLines(AsWrittenDirs(name, absRoot, fs), fs);
      && Render(name, absRoot, walk, now) == Preamble(name, now) + Concat(lines) + "\n"
      && Newlines(Concat(lines)) == |Matching(WalkFiles(walk))|
  {
    var fs := Ordered(walk);
    var dirs := AsWrittenDirs(name, absRoot, fs);
    RenderParts(name, absRoot, walk, now);
    var c := Concat(IncludeLines(dirs, fs));
    assert Preamble(name, now) + (c + "\n") == Preamble(name, now) + c + "\n";
    forall i | 0 <= i < |fs| ensures '\n' !in dirs[i] {
      OrderedRoots(walk, fs[i]);
      RewriteSingleLine(name, absRoot, fs[i].root);
    }
    IncludeLinesCount(dirs, fs);
  }

  /** The two replacements keep a newline-free directory newline-free. */
  lemma RewriteSingleLine(name: string, absRoot: string, dir: string)
    requires |absRoot| > 0 && '\n' !in name && '\n' !in dir
    ensures '\n' !in RewriteAsWritten(name, absRoot, dir)
  {
    assert '\n' !in BaseVar(name);
    RewriteAsWrittenChars(name, absRoot, dir);
  }

  lemma OrderedRoots(walk: seq<Dir>, f: Fragment)
    requires f in Ordered(walk)
    ensures exists i :: 0 <= i < |walk| && walk[i].root == f.root
  {
    var r := Ordered(walk);
    var k :| 0 <= k < |r| && r[k] == f;
    NamedHas(r, f.file, k);
    var p := f.file;
    assert f in Named(WalkFiles(walk), p);
    NamedIn(WalkFiles(walk), p, f);
    WalkFilesRoots(walk, f);
  }

  lemma {:induction false} NamedHas(fs: seq<Fragment>, p: string, k: int)
    requires 0 <= k < |fs| && fs[k].file == p
    ensures fs[k] in Named(fs, p)
    decreases |fs|
  {
    if k > 0 {
      NamedHas(fs[1..], p, k - 1);
    }
  }

  lemma {:induction false} NamedIn(fs: seq<Fragment>, p: string, f: Fragment)
    requires f in Named(fs, p)
    ensures f in fs
    decreases |fs|
  {
    if |fs| > 0 && f != fs[0] {
      NamedIn(fs[1..], p, f);
    }
  }

  lemma {:induction false} WalkFilesRoots(walk: seq<Dir>, f: Fragment)
    requires f in WalkFiles(walk)
    ensures exists i :: 0 <= i < |walk| && walk[i].root == f.root
    decreases |walk|
  {
    if |walk| > 0 {
      var here := DirFiles(walk[0].root, walk[0].files);
      if f in here {
        var j :| 0 <= j < |here| && here[j] == f;
        assert walk[0].root == f.root;
      } else {
        WalkFilesRoots(walk[1..], f);
        var i :| 0 <= i < |walk[1..]| && walk[1..][i].root == f.root;
        assert walk[i + 1].root == f.root;
      }
    }
  }

  /** The file written: `--makefile` when given, `<name>.mk` otherwise. */
  function MakefileName(name: string, makefile: Option<string>): (r: string)
    ensures makefile.None? ==> r == name + ".mk"
    ensures makefile.Some? ==> r == makefile.value
  {
    makefile.GetOr(name + ".mk")
  }

  /** The makefile lands in the module root, as `<name>.mk` unless
      `--makefile` names it. */
  function OutputPath(absRoot: string, name: string, makefile: Option<string>): (r: string)
    ensures StartsWith(r, absRoot + "/")
    ensures makefile.None? ==> r == absRoot + "/" + name + ".mk"
    ensures makefile.Some? ==> r == absRoot + "/" + makefile.value
  {
    assert (absRoot + "/" + MakefileName(name, makefile))[..|absRoot| + 1] == absRoot + "/";
    absRoot + "/" + MakefileName(name, makefile)
  }
}
