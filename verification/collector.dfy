/**
  The collection pass of the manifest tool: every file named `Makefile` is
  read line by line, and each line that declares a module records the
  module's directory under its name, a later declaration overwriting an
  earlier one.
 */
module Collector {
  import opened Text
  import opened Walk
  import Declaration

  const Holder := "Makefile"

  type Modules = map<string, string>

  /** The directory clean-up applied at each match: a walk root that starts
      with `./` loses every `./` it contains (`str.replace`, not a single
      strip); any other root, the top-level `.` included, is kept. */
  function Normalize(root: string): (r: string)
    ensures !StartsWith(root, "./") ==> r == root
  {
    if StartsWith(root, "./") then Replace(root, "./", "") else root
  }

  /** The lines of one `Makefile`. The walk variable `root` is reassigned
      to its normalised form at every match, so the returned root is the one
      the next file of the same directory starts from. When re-normalising
      the root is harmless, the lines assign their declarations in order,
      each with the normalised root, and the root handed on normalises as
      before. */
  function ScanLines(root: string, lines: seq<string>, modules: Modules): (r: (string, Modules))
    ensures Settled(root) ==>
              && r.1 == Apply(modules, LineDecls(Normalize(root), lines))
              && Normalize(r.0) == Normalize(root)
              && Settled(r.0)
    decreases |lines|
  {
    if |lines| == 0 then (root, modules)
    else
      match Declaration.Recognise(lines[0])
      case None => ScanLines(root, lines[1..], modules)
      case Some(name) =>
        var root' := Normalize(root);
        ScanLines(root', lines[1..], modules[name := root'])
  }

  /** The files of one walk entry; only those named `Makefile` are read,
      and together they assign the declarations of the directory in order. */
  function ScanFiles(root: string, files: seq<File>, modules: Modules): (r: (string, Modules))
    ensures Settled(root) ==>
              && r.1 == Apply(modules, FileDecls(Normalize(root), files))
              && Normalize(r.0) == Normalize(root)
              && Settled(r.0)
    decreases |files|
  {
    if |files| == 0 then (root, modules)
    else if files[0].name == Holder then
      var (root', modules') := ScanLines(root, files[0].lines, modules);
      ApplyAppend(modules, LineDecls(Normalize(root), files[0].lines), FileDecls(Normalize(root), files[1..]));
      ScanFiles(root', files[1..], modules')
    else ScanFiles(root, files[1..], modules)
  }

  /** The whole walk: last-write-wins over the walk's declarations, provided
      re-normalising each reassigned walk variable is harmless. */
  function Collect(walk: seq<Dir>, modules: Modules): (r: Modules)
    ensures (forall i :: 0 <= i < |walk| ==> Settled(walk[i].root)) ==> r == Apply(modules, Decls(walk))
    decreases |walk|
  {
    if |walk| == 0 then modules
    else
      var m' := ScanFiles(walk[0].root, walk[0].files, modules).1;
      ApplyAppend(modules, FileDecls(Normalize(walk[0].root), walk[0].files), Decls(walk[1..]));
      Collect(walk[1..], m')
  }

  /** `self.modules` after the walk. */
  function ModulesOf(walk: seq<Dir>): Modules {
    Collect(walk, map[])
  }

  // ---------------------------------------------------------------------
  // Reference: the declarations in walk order, and last-write-wins.
  // ---------------------------------------------------------------------

  datatype Decl = Decl(name: string, dir: string)

  function LineDecls(dir: string, lines: seq<string>): seq<Decl>
    decreases |lines|
  {
    if |lines| == 0 then []
    else
      match Declaration.Recognise(lines[0])
      case None => LineDecls(dir, lines[1..])
      case Some(name) => [Decl(name, dir)] + LineDecls(dir, lines[1..])
  }

  function FileDecls(dir: string, files: seq<File>): seq<Decl>
    decreases |files|
  {
    if |files| == 0 then []
    else if files[0].name == Holder then LineDecls(dir, files[0].lines) + FileDecls(dir, files[1..])
    else FileDecls(dir, files[1..])
  }

  /** Every declaration of the walk, in walk order, each with the normalised
      directory of the walk entry it was found in. */
  function Decls(walk: seq<Dir>): seq<Decl>
    decreases |walk|
  {
    if |walk| == 0 then []
    else FileDecls(Normalize(walk[0].root), walk[0].files) + Decls(walk[1..])
  }

  /** Dictionary assignment of each declaration in turn. */
  function Apply(m: Modules, decls: seq<Decl>): Modules
    decreases |decls|
  {
    if |decls| == 0 then m else Apply(m[decls[0].name := decls[0].dir], decls[1..])
  }

  /** `decls[i]` is the last declaration of its name. */
  predicate LastOf(decls: seq<Decl>, i: int)
    requires 0 <= i < |decls|
  {
    forall j :: i < j < |decls| ==> decls[j].name != decls[i].name
  }

  function Names(decls: seq<Decl>): set<string> {
    set i | 0 <= i < |decls| :: decls[i].name
  }

  /** Last write wins: after the assignments, the keys are the old keys and
      the declared names; a declared name maps to the directory of its last
      declaration; an undeclared key keeps its old directory. */
  lemma {:induction false} ApplyLastWins(m: Modules, decls: seq<Decl>)
    ensures Apply(m, decls).Keys == m.Keys + Names(decls)
    ensures forall i :: 0 <= i < |decls| && LastOf(decls, i) ==>
              Apply(m, decls)[decls[i].name] == decls[i].dir
    ensures forall k :: k in m && k !in Names(decls) ==> Apply(m, decls)[k] == m[k]
    decreases |decls|
  {
    if |decls| > 0 {
      var d := decls[0];
      var rest := decls[1..];
      var m' := m[d.name := d.dir];
      ApplyLastWins(m', rest);
      assert Names(decls) == {d.name} + Names(rest) by {
        forall k | k in Names(decls) ensures k in {d.name} + Names(rest) {
          var i :| 0 <= i < |decls| && decls[i].name == k;
          if i > 0 { assert rest[i - 1].name == k; }
        }
        forall k | k in Names(rest) ensures k in Names(decls) {
          var i :| 0 <= i < |rest| && rest[i].name == k;
          assert decls[i + 1].name == k;
        }
      }
      forall i | 0 <= i < |decls| && LastOf(decls, i)
        ensures Apply(m, decls)[decls[i].name] == decls[i].dir
      {
        if i > 0 {
          assert LastOf(rest, i - 1) by {
            forall j | i - 1 < j < |rest| ensures rest[j].name != rest[i - 1].name {
              assert rest[j] == decls[j + 1];
            }
          }
        } else {
          forall j | 0 <= j < |rest| ensures rest[j].name != d.name {
            assert rest[j] == decls[j + 1];
          }
          assert d.name !in Names(rest);
        }
      }
    }
  }

  lemma {:induction false} ApplyAppend(m: Modules, a: seq<Decl>, b: seq<Decl>)
    ensures Apply(m, a + b) == Apply(Apply(m, a), b)
    decreases |a|
  {
    if |a| > 0 {
      assert (a + b)[1..] == a[1..] + b;
      ApplyAppend(m[a[0].name := a[0].dir], a[1..], b);
    } else {
      assert a + b == b;
    }
  }

  /** A root whose normal form is its own normal form's normal form, so
      re-normalising the reassigned walk variable changes nothing. */
  predicate Settled(root: string) {
    Normalize(Normalize(root)) == Normalize(root)
  }

  // ---------------------------------------------------------------------
  // The directory normaliser.
  // ---------------------------------------------------------------------

  /** With no `//` in the text, what is left after removing `./` cannot
      begin with `/` unless the text did. */
  lemma {:induction false} RemovedHeadNotSlash(s: string)
    requires !Contains(s, "//")
    requires s == [] || s[0] != '/'
    ensures var r := Replace(s, "./", ""); r == [] || r[0] != '/'
    decreases |s|
  {
    if |s| > 0 && StartsWith(s, "./") {
      var t := s[2..];
      assert s[1..][1..] == t;
      assert !Contains(s[1..], "//");
      RemovedHeadNotSlash(t);
    }
  }

  /** With no `//` in the text, removing every `./` leaves none behind. */
  lemma {:induction false} RemovedAll(s: string)
    requires !Contains(s, "//")
    ensures !Contains(Replace(s, "./", ""), "./")
    decreases |s|
  {
    if |s| > 0 {
      if StartsWith(s, "./") {
        assert s[1..][1..] == s[2..];
        assert !Contains(s[1..], "//");
        RemovedAll(s[2..]);
        var u := Replace(s[2..], "./", "");
        assert s[|"./"|..] == s[2..];
        assert "" + u == u;
        assert Replace(s, "./", "") == u;
      } else {
        var t := s[1..];
        RemovedAll(t);
        var u := Replace(t, "./", "");
        assert Replace(s, "./", "") == [s[0]] + u;
        if s[0] == '.' {
          RemovedHeadNotSlash(t);
        }
        NoDotSlashCons(s[0], u);
      }
    }
  }

  lemma NoDotSlashCons(c: char, u: string)
    requires !Contains(u, "./")
    requires c != '.' || u == [] || u[0] != '/'
    ensures !Contains([c] + u, "./")
  {
    assert ([c] + u)[1..] == u;
    assert !StartsWith([c] + u, "./") by {
      if |u| >= 1 {
        assert ([c] + u)[..2] == [c, u[0]];
      }
    }
  }

  /** The roots `os.walk('.')` yields never contain `//`; for all of them a
      normalised root normalises to itself and holds no `./` at all. */
  lemma NormalizeSettles(root: string)
    requires !Contains(root, "//")
    ensures !Contains(Normalize(root), "./") || Normalize(root) == root
    ensures Settled(root)
  {
    if StartsWith(root, "./") {
      RemovedAll(root);
      assert !StartsWith(Normalize(root), "./");
    }
  }

  /** A `./`-prefixed root with no other `./` loses exactly that prefix. */
  lemma NormalizeStripsPrefix(rel: string)
    requires !Contains(rel, "./")
    ensures Normalize("./" + rel) == rel
  {
    assert StartsWith("./" + rel, "./");
    ReplaceAtStart("./", rel, "");
  }

  /** `str.replace` reaches past the prefix: a directory whose name ends in
      a dot (`./v1./src`) loses that dot and the slash after it. */
  lemma NormalizeRemovesInnerDotSlash(a: string, b: string)
    requires '.' !in a && !Contains(b, "./")
    ensures Normalize("./" + a + "./" + b) == a + b
  {
    var s := "./" + a + "./" + b;
    assert StartsWith(s, "./");
    DropsBothCopies("./", a, b);
  }

  /** Removing a pattern that stands before `a` and again after it, where
      `a` holds no character the pattern starts with and `b` no copy of it. */
  lemma DropsBothCopies(pat: string, a: string, b: string)
    requires |pat| > 0 && pat[0] !in a && !Contains(b, pat)
    ensures Replace(pat + a + pat + b, pat, "") == a + b
  {
    var tail := pat + b;
    var whole := pat + (a + tail);
    assert pat + a + pat + b == whole;
    ReplaceAtStart(pat, a + tail, "");
    assert Replace(whole, pat, "") == Replace(a + tail, pat, "");
    ReplaceKeeps(a, tail, pat, "");
    ReplaceAtStart(pat, b, "");
    assert Replace(tail, pat, "") == b;
  }

  /** The mapping the tool collects: for walk roots as `os.walk` yields them,
      one key per declared name, each mapped to the normalised directory of
      that name's last declaration in walk order. */
  lemma LastWriteWins(walk: seq<Dir>)
    requires forall i :: 0 <= i < |walk| ==> !Contains(walk[i].root, "//")
    ensures var decls := Decls(walk);
      && ModulesOf(walk).Keys == Names(decls)
      && forall i :: 0 <= i < |decls| && LastOf(decls, i) ==>
           ModulesOf(walk)[decls[i].name] == decls[i].dir
  {
    forall i | 0 <= i < |walk| ensures Settled(walk[i].root) {
      NormalizeSettles(walk[i].root);
    }
    ApplyLastWins(map[], Decls(walk));
  }

  /** A walk with no declaration collects nothing. */
  lemma NoDeclarationsNoModules(walk: seq<Dir>)
    requires forall i :: 0 <= i < |walk| ==> !Contains(walk[i].root, "//")
    requires Decls(walk) == []
    ensures ModulesOf(walk) == map[]
  {
    LastWriteWins(walk);
    assert Names(Decls(walk)) == {};
  }
}
