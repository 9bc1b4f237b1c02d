/**
  The manifest tool's command line: the tokens `make`, `env` and `dox` name
  the variants, `all` stands for every one of them, and the tokens are run
  in order until one is not recognised.
 */
module Registry {
  import opened Wrappers
  import opened Walk
  import opened Manifest

  /** The `classes` table, in its insertion order. */
  const Registered: seq<(string, Variant)> := [("make", Make), ("env", Env), ("dox", Dox)]

  function Lookup(token: string): (r: Option<Variant>)
    ensures r.Some? <==> exists i :: 0 <= i < |Registered| && Registered[i].0 == token
    ensures forall i :: 0 <= i < |Registered| && Registered[i].0 == token ==> r == Some(Registered[i].1)
  {
    if token == "make" then assert Registered[0].0 == token; Some(Make)
    else if token == "env" then assert Registered[1].0 == token; Some(Env)
    else if token == "dox" then assert Registered[2].0 == token; Some(Dox)
    else None
  }

  /** Every variant, in the order `classes.keys()` lists them. */
  const AllVariants: seq<Variant> := [Make, Env, Dox]

  /** How a run ends: normally, with the usage text (no token given), or
      with the exception naming the first unknown token. */
  datatype Stop = Completed | Usage | Invalid(token: string)

  /** The variants a run generates, in order, and how it ends. */
  datatype Dispatch = Dispatch(runs: seq<Variant>, stop: Stop)

  function InvalidMessage(token: string): string {
    token + " is not a valid generation option."
  }

  /** The `for name in targets` loop: generate while the tokens are known. */
  function RunTokens(tokens: seq<string>): (d: Dispatch)
    ensures |d.runs| <= |tokens|
    ensures forall i :: 0 <= i < |d.runs| ==> Lookup(tokens[i]) == Some(d.runs[i])
    ensures d.stop == Completed <==> |d.runs| == |tokens|
    ensures |d.runs| < |tokens| ==> Lookup(tokens[|d.runs|]) == None && d.stop == Invalid(tokens[|d.runs|])
    ensures d.stop != Usage
    decreases |tokens|
  {
    if |tokens| == 0 then Dispatch([], Completed)
    else
      match Lookup(tokens[0])
      case None => Dispatch([], Invalid(tokens[0]))
      case Some(v) =>
        var rest := RunTokens(tokens[1..]);
        Dispatch([v] + rest.runs, rest.stop)
  }

  /** The whole command line after the program name. */
  function Plan(tokens: seq<string>): (d: Dispatch)
    ensures tokens == [] ==> d == Dispatch([], Usage)
    ensures tokens != [] && "all" in tokens ==> d == Dispatch(AllVariants, Completed)
    ensures tokens != [] && "all" !in tokens ==>
              && d.stop != Usage
              && |d.runs| <= |tokens|
              && (forall i :: 0 <= i < |d.runs| ==> Lookup(tokens[i]) == Some(d.runs[i]))
              && (d.stop == Completed <==> |d.runs| == |tokens|)
              && (d.stop.Invalid? ==> d.stop == Invalid(tokens[|d.runs|]) && Lookup(d.stop.token) == None)
  {
    if tokens == [] then Dispatch([], Usage)
    else if "all" in tokens then Dispatch(AllVariants, Completed)
    else RunTokens(tokens)
  }

  /** `-` and `stdout` send a manifest to standard output; any other target
      names the file it replaces. */
  datatype Sink = Stdout | Path(path: string)

  function Destination(target: string): (s: Sink)
    ensures s == Stdout <==> target in {"-", "stdout"}
    ensures s.Path? ==> s.path == target
  {
    if target == "-" || target == "stdout" then Stdout else Path(target)
  }

  datatype Artifact = Artifact(sink: Sink, text: string)

  /** The manifests a run writes, one per generated variant, in order. Each
      variant is a fresh generator that reads the clock when it is built, so
      the `i`-th manifest carries its own timestamp `nows[i]`; each walks the
      tree anew. */
  function Artifacts(runs: seq<Variant>, walk: seq<Dir>, nows: seq<string>, present: string -> bool): (a: seq<Artifact>)
    requires |nows| == |runs|
    ensures |a| == |runs|
    ensures forall i :: 0 <= i < |runs| ==>
              a[i] == Artifact(Path(Target(runs[i])), Generate(runs[i], walk, nows[i], present))
  {
    seq(|runs|, i requires 0 <= i < |runs| =>
      Artifact(Destination(Target(runs[i])), Generate(runs[i], walk, nows[i], present)))
  }

  /** The manifests of one run differ from those of any other run over the
      same tree only in their timestamps. */
  lemma ArtifactsOnlyTimestampsVary(runs: seq<Variant>, walk: seq<Dir>, nows: seq<string>, nows': seq<string>, present: string -> bool)
    requires |nows| == |runs| && |nows'| == |runs|
    ensures var a := Artifacts(runs, walk, nows, present);
            var b := Artifacts(runs, walk, nows', present);
            forall i :: 0 <= i < |runs| ==>
              && a[i].sink == b[i].sink
              && var ha := |Header(Description(runs[i]), nows[i])|;
                 var hb := |Header(Description(runs[i]), nows'[i])|;
                 ha <= |a[i].text| && hb <= |b[i].text| && a[i].text[ha..] == b[i].text[hb..]
  {
    forall i | 0 <= i < |runs| {
      OnlyTimestampVaries(runs[i], walk, nows[i], nows'[i], present);
    }
  }

  /** An unknown token stops the run after the variants named before it,
      and `all` overrides everything else on the line, unknown tokens
      included. */
  lemma UnknownTokenStops(before: seq<string>, bad: string, after: seq<string>)
    requires forall i :: 0 <= i < |before| ==> Lookup(before[i]).Some?
    requires Lookup(bad) == None
    ensures var d := Plan(before + [bad] + after);
      && (bad != "all" && "all" !in before + after ==>
            |d.runs| == |before| && d.stop == Invalid(bad))
      && ("all" in before + after ==> d == Dispatch(AllVariants, Completed))
  {
    var tokens := before + [bad] + after;
    assert tokens[|before|] == bad;
    if "all" !in tokens {
      var d := RunTokens(tokens);
      assert forall i :: 0 <= i < |before| ==> tokens[i] == before[i];
    }
    if "all" in before + after {
      assert forall t :: t in before + after ==> t in tokens;
    }
  }
}
