/** The whole program: load the directory entries, fold them into the two maps,
    then print the blocks. */
module Processor {
  import opened Wrappers
  import opened Text
  import opened Loader
  import opened Aggregator
  import opened Renderer

  /** One run of the program over the directory entries, in `read_dir` order.
      A file name without `:` panics before anything is printed. */
  function Program(entries: seq<Entry>): (r: Run)
    ensures (exists i :: 0 <= i < |entries| && ':' !in entries[i].0) ==>
      && r.stdout == []
      && exists i :: 0 <= i < |entries| && r.panic == Some(NameWithoutColon(entries[i].0))
           && ':' !in entries[i].0 && forall j :: 0 <= j < i ==> ':' in entries[j].0
    ensures (forall i :: 0 <= i < |entries| ==> ':' in entries[i].0) ==>
      r == Printed(Layout(Collect(Load(entries).value)))
  {
    match Load(entries)
    case Failure(p) => Run([], Some(p))
    case Success(arts) => Emit(Layout(Collect(arts)))
  }

  /** The loop of the program as written: parse each name, panic on the first
      bad one, and otherwise fold the artifact into the catalog. */
  method Aggregate(entries: seq<Entry>) returns (r: Result<Catalog, Panic>)
    ensures r.Failure? <==> exists i :: 0 <= i < |entries| && ':' !in entries[i].0
    ensures r.Failure? ==> r == Failure(Load(entries).error)
    ensures r.Success? ==> r.value == Collect(Load(entries).value)
  {
    var c := Empty;
    var arts: seq<Artifact> := [];
    for n := 0 to |entries|
      invariant Load(entries[..n]) == Success(arts)
      invariant c == Collect(arts)
    {
      var (name, contents) := entries[n];
      var key := ParseName(name);
      if key.None? {
        LoadStopsAtBadName(entries, n);
        return Failure(NameWithoutColon(name));
      }
      var a := Artifact(key.value.id, key.value.mode, contents);
      LoadExtends(entries, n, arts);
      CollectExtends(arts, a);
      c := Add(c, a);
      arts := arts + [a];
    }
    assert entries[..|entries|] == entries;
    return Success(c);
  }

  /** Loading one more well-named entry appends one artifact. */
  lemma {:induction false} LoadAppend(xs: seq<Entry>, e: Entry)
    requires Load(xs).Success? && ':' in e.0
    ensures var k := ParseName(e.0).value;
      Load(xs + [e]) == Success(Load(xs).value + [Artifact(k.id, k.mode, e.1)])
    decreases |xs|
  {
    var k := ParseName(e.0).value;
    var a := Artifact(k.id, k.mode, e.1);
    if xs == [] {
      assert xs + [e] == [e];
      assert [e][1..] == [];
      assert Load([e][1..]) == Success([]);
      assert Load([e]) == Success([a] + []);
      assert Load(xs) == Success([]);
      assert [a] + [] == [] + [a];
    } else {
      var k0 := ParseName(xs[0].0).value;
      var a0 := Artifact(k0.id, k0.mode, xs[0].1);
      var rest := Load(xs[1..]).value;
      assert Load(xs).value == [a0] + rest;
      assert (xs + [e])[0] == xs[0];
      assert (xs + [e])[1..] == xs[1..] + [e];
      LoadAppend(xs[1..], e);
      assert [a0] + (rest + [a]) == ([a0] + rest) + [a];
    }
  }

  lemma LoadExtends(entries: seq<Entry>, n: nat, arts: seq<Artifact>)
    requires n < |entries| && Load(entries[..n]) == Success(arts)
    requires ':' in entries[n].0
    ensures var k := ParseName(entries[n].0).value;
      Load(entries[..n + 1]) == Success(arts + [Artifact(k.id, k.mode, entries[n].1)])
  {
    assert entries[..n + 1] == entries[..n] + [entries[n]];
    LoadAppend(entries[..n], entries[n]);
  }

  lemma CollectExtends(arts: seq<Artifact>, a: Artifact)
    ensures Collect(arts + [a]) == Add(Collect(arts), a)
  {
    assert (arts + [a])[..|arts|] == arts;
  }

  /** When the first bad name is at `n`, loading fails with that name. */
  lemma LoadStopsAtBadName(entries: seq<Entry>, n: nat)
    requires n < |entries| && ':' !in entries[n].0
    requires Load(entries[..n]).Success?
    ensures Load(entries).Failure?
    ensures Load(entries).error == NameWithoutColon(entries[n].0)
  {
    var pre := entries[..n];
    assert forall j :: 0 <= j < n ==> pre[j] == entries[j];
    var r := Load(entries);
    var i :| 0 <= i < |entries| && r.error == NameWithoutColon(entries[i].0)
      && ':' !in entries[i].0 && forall j :: 0 <= j < i ==> ':' in entries[j].0;
    assert forall j :: 0 <= j < n ==> ':' in entries[j].0;
    assert i == n;
  }

  /** With no entries the program prints nothing and exits normally. */
  lemma EmptyDirectory()
    ensures Program([]) == Run([], None)
  {
    assert Load([]) == Success([]);
    assert Collect([]) == Empty;
  }

  /** With well-formed names, the run panics exactly when some command has an
      invocation but no outputs; on success it prints every block in full. */
  lemma ProgramSucceedsIffEveryCommandHasOutputs(entries: seq<Entry>)
    requires forall i :: 0 <= i < |entries| ==> ':' in entries[i].0
    ensures var arts := Load(entries).value;
      Program(entries).panic.None? <==>
        forall i :: 0 <= i < |arts| && arts[i].mode == CommandMode ==>
          exists j :: 0 <= j < |arts| && IsOutputFor(arts[j], arts[i].id)
  {
    var arts := Load(entries).value;
    ProgramOfLoaded(entries);
    EmitPanicsIffUncovered(Collect(arts));
    CollectCommandsHaveOutputs(arts);
  }

  lemma ProgramOfLoaded(entries: seq<Entry>)
    requires Load(entries).Success?
    ensures Program(entries) == Emit(Layout(Collect(Load(entries).value)))
  {
  }

  lemma EmitPanicsIffUncovered(c: Catalog)
    ensures Emit(Layout(c)).panic.None? <==> forall id :: id in c.commands ==> id in c.outputs
  {
    PrintedPanics(Layout(c));
    LayoutComplete(c);
  }

  // ------------------------------------------------------------ scenarios

  /** One command with an invocation and two output files whose contents trim
      to the same text, e.g. `build:COMMAND` = `make all` with `build:linux` and
      `build:mac` both `ok` and a newline: one block, whose single div carries
      both modes in encounter order and the trimmed text. */
  lemma SharedOutputScenario(id: string, inv: string, m1: string, x1: string, m2: string, x2: string)
    requires ':' !in id && ':' !in m1 && ':' !in m2
    requires m1 != CommandMode && m2 != CommandMode
    requires Trim(x1) == Trim(x2)
    ensures Program([(id + ":" + CommandMode, inv), (id + ":" + m1, x1), (id + ":" + m2, x2)])
         == Run(Head(Block(id, inv, None)) + DivLine(Div([m1, m2], Trim(x1))) + Closing, None)
  {
    var e := [(id + ":" + CommandMode, inv), (id + ":" + m1, x1), (id + ":" + m2, x2)];
    var arts := [Artifact(id, CommandMode, inv), Artifact(id, m1, x1), Artifact(id, m2, x2)];
    LoadSharedOutput(id, inv, m1, x1, m2, x2);
    var c := Catalog(map[id := inv], map[id := map[Trim(x1) := [m1, m2]]]);
    CollectThree(arts, c);
    var d := Div([m1, m2], Trim(x1));
    var b := Block(id, inv, Some([d]));
    LayoutOne(c, b);
    EmitOne(b, d);
  }

  lemma LoadSharedOutput(id: string, inv: string, m1: string, x1: string, m2: string, x2: string)
    requires ':' !in id && ':' !in m1 && ':' !in m2
    ensures Load([(id + ":" + CommandMode, inv), (id + ":" + m1, x1), (id + ":" + m2, x2)])
         == Success([Artifact(id, CommandMode, inv), Artifact(id, m1, x1), Artifact(id, m2, x2)])
  {
    var e := [(id + ":" + CommandMode, inv), (id + ":" + m1, x1), (id + ":" + m2, x2)];
    var arts := [Artifact(id, CommandMode, inv), Artifact(id, m1, x1), Artifact(id, m2, x2)];
    LoadEntries(arts);
    assert Entries(arts[2..]) == [e[2]];
    assert Entries(arts[1..]) == e[1..];
    assert Entries(arts) == e;
  }

  lemma EmitOne(b: Block, d: Div)
    requires b.divs == Some([d])
    ensures Emit([b]) == Run(Head(b) + DivLine(d) + Closing, None)
  {
    assert DivsText([d]) == DivLine(d) + DivsText([]);
    assert [b][1..] == [];
  }

  lemma CollectThree(arts: seq<Artifact>, c: Catalog)
    requires |arts| == 3 && arts[0].mode == CommandMode
    requires arts[1].mode != CommandMode && arts[2].mode != CommandMode
    requires arts[1].id == arts[0].id && arts[2].id == arts[0].id
    requires Trim(arts[1].contents) == Trim(arts[2].contents)
    requires c == Catalog(map[arts[0].id := arts[0].contents],
                          map[arts[0].id := map[Trim(arts[1].contents) := [arts[1].mode, arts[2].mode]]])
    ensures Collect(arts) == c
  {
    var a1, a2, a3 := arts[0], arts[1], arts[2];
    var cmds := map[a1.id := a1.contents];
    var t := Trim(a2.contents);
    assert [a1][..0] == [];
    assert Collect([a1]) == Catalog(cmds, map[]);
    CollectExtends([a1], a2);
    assert [a1] + [a2] == [a1, a2];
    AddFirstOutput(cmds, a2);
    CollectExtends([a1, a2], a3);
    assert [a1, a2] + [a3] == arts;
    AddSecondOutput(cmds, t, a2.mode, a3);
  }

  lemma AddFirstOutput(cmds: map<string, string>, a: Artifact)
    requires a.mode != CommandMode
    ensures Add(Catalog(cmds, map[]), a) == Catalog(cmds, map[a.id := map[Trim(a.contents) := [a.mode]]])
  {
    assert [] + [a.mode] == [a.mode];
  }

  lemma AddSecondOutput(cmds: map<string, string>, t: string, m: string, a: Artifact)
    requires a.mode != CommandMode && Trim(a.contents) == t
    ensures Add(Catalog(cmds, map[a.id := map[t := [m]]]), a) == Catalog(cmds, map[a.id := map[t := [m, a.mode]]])
  {
    assert [m] + [a.mode] == [m, a.mode];
    assert Push(map[t := [m]], t, a.mode) == map[t := [m, a.mode]];
  }

  lemma LayoutOne(c: Catalog, b: Block)
    requires b.divs.Some? && |b.divs.value| == 1
    requires c == Catalog(map[b.id := b.invocation], map[b.id := map[b.divs.value[0].text := b.divs.value[0].modes]])
    ensures Layout(c) == [b]
  {
    var g := c.outputs[b.id];
    var ds := GroupDivs(g);
    assert ds[0].text in g;
    assert ds == b.divs.value;
    var bs := Layout(c);
    assert bs[0].id in c.commands;
  }

  /** A command with an invocation but no outputs: its head is printed, then the
      run panics. */
  lemma CommandWithoutOutputsScenario()
    ensures Program([("ls:COMMAND", "ls -l")])
         == Run(Opening + CommandLine("ls -l") + CommandClose, Some(CommandWithoutOutputs("ls")))
  {
    var b := Block("ls", "ls -l", None);
    LoadLs();
    CollectLs();
    LayoutLs();
    assert Emit([b]) == Run(Head(b), Some(CommandWithoutOutputs("ls")));
  }

  lemma LoadLs()
    ensures Load([("ls:COMMAND", "ls -l")]) == Success([Artifact("ls", "COMMAND", "ls -l")])
  {
    var arts := [Artifact("ls", "COMMAND", "ls -l")];
    LoadEntries(arts);
    assert NamePrefix(Key("ls", "COMMAND")) == "ls:COMMAND";
    assert Entries(arts) == [("ls:COMMAND", "ls -l")] + Entries([]);
  }

  lemma CollectLs()
    ensures Collect([Artifact("ls", "COMMAND", "ls -l")]) == Catalog(map["ls" := "ls -l"], map[])
  {
    var a := Artifact("ls", "COMMAND", "ls -l");
    assert [a][..0] == [];
  }

  lemma LayoutLs()
    ensures Layout(Catalog(map["ls" := "ls -l"], map[])) == [Block("ls", "ls -l", None)]
  {
    var c := Catalog(map["ls" := "ls -l"], map[]);
    var bs := Layout(c);
    assert bs[0].id in c.commands;
  }
}
