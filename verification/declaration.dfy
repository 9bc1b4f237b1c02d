/**
  The module-declaration recogniser of the manifest tool: the pattern
  `\s*MODULE\s*:=\s*(?P<modname>.*)` applied with `re.match`, so anchored at
  the start of the line but not at its end, with `.` matching anything but a
  newline. It is written here as a hand-made parser whose result keeps every
  piece of the line, so that it can be checked against printing those pieces
  back.
 */
module Declaration {
  import opened Wrappers
  import opened Text

  const Keyword := "MODULE"
  const Assign := ":="

  /** How a matching line splits: `lead`, `gap` and `pad` are the three
      `\s*`, `name` is the `modname` group and `rest` is what the match leaves
      unread (empty, or starting at the newline `.*` stopped at). */
  datatype Parts = Parts(lead: string, gap: string, pad: string, name: string, rest: string) {

    function Line(): string {
      lead + (Keyword + (gap + (Assign + (pad + (name + rest)))))
    }

    /** The pieces a leftmost, greedy match produces: whitespace where `\s*`
        stands, each `\s*` and `.*` as long as it can be, and no newline in
        the name. */
    predicate Valid() {
      && AllSpace(lead) && AllSpace(gap) && AllSpace(pad)
      && '\n' !in name
      && (rest == [] || rest[0] == '\n')
      && (name + rest == [] || !IsSpace((name + rest)[0]))
    }
  }

  /** Length of the whitespace run `\s*` consumes at the start of `s`. */
  function SpaceRun(s: string): (n: nat)
    ensures n <= |s|
    ensures AllSpace(s[..n])
    ensures n == |s| || !IsSpace(s[n])
    decreases |s|
  {
    if |s| == 0 || !IsSpace(s[0]) then 0 else 1 + SpaceRun(s[1..])
  }

  /** Length of the text `.*` consumes at the start of `s`: up to the first
      newline. */
  function LineRun(s: string): (n: nat)
    ensures n <= |s|
    ensures '\n' !in s[..n]
    ensures n == |s| || s[n] == '\n'
    decreases |s|
  {
    if |s| == 0 || s[0] == '\n' then 0 else 1 + LineRun(s[1..])
  }

  /** `moduleRE.match(line)`, returning the pieces of the match. */
  function Match(line: string): (r: Option<Parts>)
    ensures r.Some? ==> r.value.Valid() && r.value.Line() == line
  {
    var i := SpaceRun(line);
    assert line == line[..i] + line[i..];
    MatchKeyword(line[..i], line[i..])
  }

  /** The match after the leading `\s*`: the literal `MODULE`. */
  function MatchKeyword(lead: string, a: string): (r: Option<Parts>)
    requires AllSpace(lead)
    ensures r.Some? ==> r.value.Valid() && r.value.Line() == lead + a
  {
    if !StartsWith(a, Keyword) then None
    else
      var b := a[|Keyword|..];
      var j := SpaceRun(b);
      assert a == Keyword + (b[..j] + b[j..]);
      MatchAssign(lead, b[..j], b[j..])
  }

  /** The match after `MODULE\s*`: the literal `:=`. */
  function MatchAssign(lead: string, gap: string, c: string): (r: Option<Parts>)
    requires AllSpace(lead) && AllSpace(gap)
    ensures r.Some? ==> r.value.Valid() && r.value.Line() == lead + (Keyword + (gap + c))
  {
    if !StartsWith(c, Assign) then None
    else
      var d := c[|Assign|..];
      assert c == Assign + d;
      Some(MatchName(lead, gap, d))
  }

  /** The match after `:=`: the last `\s*` and the `modname` group. */
  function MatchName(lead: string, gap: string, d: string): (p: Parts)
    requires AllSpace(lead) && AllSpace(gap)
    ensures p.Valid() && p.Line() == lead + (Keyword + (gap + (Assign + d)))
  {
    var k := SpaceRun(d);
    var e := d[k..];
    var n := LineRun(e);
    assert e[..n] + e[n..] == e;
    assert d == d[..k] + e;
    Parts(lead, gap, d[..k], e[..n], e[n..])
  }

  /** `m.group('modname')` when the line matches. */
  function Recognise(line: string): (r: Option<string>)
    ensures r.Some? <==> Match(line).Some?
    ensures r.Some? ==> '\n' !in r.value
  {
    match Match(line)
    case None => None
    case Some(p) => Some(p.name)
  }

  lemma SpaceRunOf(w: string, t: string)
    requires AllSpace(w)
    requires t == [] || !IsSpace(t[0])
    ensures SpaceRun(w + t) == |w|
    decreases |w|
  {
    if |w| > 0 {
      assert (w + t)[1..] == w[1..] + t;
      SpaceRunOf(w[1..], t);
    }
  }

  lemma LineRunOf(w: string, t: string)
    requires '\n' !in w
    requires t == [] || t[0] == '\n'
    ensures LineRun(w + t) == |w|
    decreases |w|
  {
    if |w| > 0 {
      assert (w + t)[1..] == w[1..] + t;
      LineRunOf(w[1..], t);
    }
  }

  /** Every well-formed split of a line is the one the matcher finds: the
      recogniser accepts exactly the lines the pattern describes, and
      captures exactly the name the pattern's groups assign. */
  lemma {:induction false} MatchComplete(p: Parts)
    requires p.Valid()
    ensures Match(p.Line()) == Some(p)
  {
    var line := p.Line();
    var a := Keyword + (p.gap + (Assign + (p.pad + (p.name + p.rest))));
    assert line == p.lead + a;
    SpaceRunOf(p.lead, a);
    assert line[..|p.lead|] == p.lead;
    assert line[|p.lead|..] == a;
    MatchKeywordOf(p);
  }

  /** The keyword stage of a well-formed split finds its gap. */
  lemma MatchKeywordOf(p: Parts)
    requires p.Valid()
    ensures MatchKeyword(p.lead, Keyword + (p.gap + (Assign + (p.pad + (p.name + p.rest))))) == Some(p)
  {
    var c := Assign + (p.pad + (p.name + p.rest));
    var b := p.gap + c;
    var a := Keyword + b;
    assert StartsWith(a, Keyword);
    assert a[|Keyword|..] == b;
    SpaceRunOf(p.gap, c);
    assert b[..|p.gap|] == p.gap;
    assert b[|p.gap|..] == c;
    MatchAssignOf(p);
  }

  /** The assignment stage of a well-formed split finds its pad and name. */
  lemma MatchAssignOf(p: Parts)
    requires p.Valid()
    ensures MatchAssign(p.lead, p.gap, Assign + (p.pad + (p.name + p.rest))) == Some(p)
  {
    var d := p.pad + (p.name + p.rest);
    var c := Assign + d;
    assert StartsWith(c, Assign);
    assert c[|Assign|..] == d;
    MatchNameOf(p);
  }

  /** The name stage of a well-formed split gives the split back. */
  lemma MatchNameOf(p: Parts)
    requires p.Valid()
    ensures MatchName(p.lead, p.gap, p.pad + (p.name + p.rest)) == p
  {
    var e := p.name + p.rest;
    var d := p.pad + e;
    SpaceRunOf(p.pad, e);
    assert d[..|p.pad|] == p.pad;
    assert d[|p.pad|..] == e;
    LineRunOf(p.name, p.rest);
    assert e[..|p.name|] == p.name;
    assert e[|p.name|..] == p.rest;
  }

  /** A line declares a module exactly when it splits into the pattern's
      pieces; the declared name is then the `name` piece. */
  lemma RecogniseIff(line: string, name: string)
    ensures Recognise(line) == Some(name) <==>
              exists p: Parts :: p.Valid() && p.Line() == line && p.name == name
  {
    if Recognise(line) == Some(name) {
      var p := Match(line).value;
      assert p.Valid() && p.Line() == line && p.name == name;
    }
    if exists p: Parts :: p.Valid() && p.Line() == line && p.name == name {
      var p: Parts :| p.Valid() && p.Line() == line && p.name == name;
      MatchComplete(p);
    }
  }

  /** The capture keeps whatever follows the name on its line: trailing
      blanks and a trailing make comment stay part of the module name. */
  lemma TrailingTextKept(name: string, trailer: string)
    requires '\n' !in name + trailer
    requires name != [] && !IsSpace(name[0])
    ensures Recognise("  MODULE := " + name + trailer + "\n") == Some(name + trailer)
  {
    var p := Parts("  ", " ", " ", name + trailer, "\n");
    assert AllSpace(p.lead) && AllSpace(p.gap) && AllSpace(p.pad);
    assert (p.name + p.rest)[0] == name[0];
    assert p.Line() == "  MODULE := " + name + trailer + "\n";
    MatchComplete(p);
  }
}
