/** The aggregator: the loop body that folds each loaded artifact into the two
    ordered maps `commands` and `outputs`. */
module Aggregator {
  import opened Wrappers
  import opened Text
  import opened Loader
  import opened Sums

  /** The reserved mode marking a file as the command's invocation text. */
  const CommandMode: string := "COMMAND"

  /** One command's outputs: trimmed output text to the modes that produced it. */
  type Groups = map<string, seq<string>>

  /** The state of the loop: `commands` maps an identifier to its invocation
      text, `outputs` maps an identifier to its groups. */
  datatype Catalog = Catalog(commands: map<string, string>, outputs: map<string, Groups>)

  const Empty: Catalog := Catalog(map[], map[])

  /** `outputs[id]`, or the empty map a missing entry defaults to. */
  function GroupsOf(c: Catalog, id: string): Groups {
    if id in c.outputs then c.outputs[id] else map[]
  }

  /** `outputs[id][text]`, or the empty list a missing entry defaults to. */
  function LabelsIn(c: Catalog, id: string, text: string): seq<string> {
    var g := GroupsOf(c, id);
    if text in g then g[text] else []
  }

  /** What every reachable catalog satisfies: only non-empty entries exist and
      every group key is trimmed text. */
  predicate WellFormed(c: Catalog) {
    forall id :: id in c.outputs ==>
      && c.outputs[id] != map[]
      && forall t :: t in c.outputs[id] ==> Trimmed(t) && c.outputs[id][t] != []
  }

  predicate IsCommandFor(a: Artifact, id: string) {
    a.mode == CommandMode && a.id == id
  }

  predicate IsOutputFor(a: Artifact, id: string) {
    a.mode != CommandMode && a.id == id
  }

  /** `.entry(text).or_default().push(mode)` on one command's groups: the
      mode goes to the end of the group of `text`, which is created empty if
      missing; every other group is left as it was. */
  function Push(g: Groups, text: string, mode: string): (r: Groups)
    ensures r.Keys == g.Keys + {text}
    ensures r[text] == (if text in g then g[text] else []) + [mode]
    ensures forall u :: u in g && u != text ==> r[u] == g[u]
  {
    g[text := (if text in g then g[text] else []) + [mode]]
  }

  /** One pass of the loop body. A `COMMAND` artifact stores its untrimmed
      contents as the command's invocation, replacing any earlier one; any
      other artifact pushes its mode onto the group of its trimmed contents,
      creating missing entries empty. Nothing else changes. */
  function Add(c: Catalog, a: Artifact): (r: Catalog)
    ensures a.mode == CommandMode ==>
      && r.outputs == c.outputs
      && r.commands.Keys == c.commands.Keys + {a.id}
      && a.id in r.commands && r.commands[a.id] == a.contents
      && forall id :: id in c.commands && id != a.id ==> id in r.commands && r.commands[id] == c.commands[id]
    ensures a.mode != CommandMode ==>
      && r.commands == c.commands
      && r.outputs.Keys == c.outputs.Keys + {a.id}
      && (forall id :: id in c.outputs && id != a.id ==> id in r.outputs && r.outputs[id] == c.outputs[id])
      && a.id in r.outputs && r.outputs[a.id] == Push(GroupsOf(c, a.id), Trim(a.contents), a.mode)
  {
    if a.mode == CommandMode then
      Catalog(c.commands[a.id := a.contents], c.outputs)
    else
      Catalog(c.commands, c.outputs[a.id := Push(GroupsOf(c, a.id), Trim(a.contents), a.mode)])
  }

  /** The group of `text` after a pass, in terms of the groups before it. */
  lemma AddLabels(c: Catalog, a: Artifact, id: string, text: string)
    ensures LabelsIn(Add(c, a), id, text) ==
      LabelsIn(c, id, text) + (if IsOutputFor(a, id) && Trim(a.contents) == text then [a.mode] else [])
  {
  }

  lemma AddCommandKeys(c: Catalog, a: Artifact, id: string)
    ensures id in Add(c, a).commands <==> id in c.commands || IsCommandFor(a, id)
  {
  }

  lemma AddOutputKeys(c: Catalog, a: Artifact, id: string)
    ensures id in Add(c, a).outputs <==> id in c.outputs || IsOutputFor(a, id)
  {
  }

  /** One loop pass keeps the catalog well formed. */
  lemma AddPreservesWellFormed(c: Catalog, a: Artifact)
    requires WellFormed(c)
    ensures WellFormed(Add(c, a))
  {
    var r := Add(c, a);
    if a.mode != CommandMode {
      forall id | id in r.outputs
        ensures r.outputs[id] != map[]
        ensures forall t :: t in r.outputs[id] ==> Trimmed(t) && r.outputs[id][t] != []
      {
        if id == a.id {
          TrimIsTrimmed(a.contents);
          assert Trim(a.contents) in r.outputs[id];
        }
      }
    }
  }

  /** The whole loop: the artifacts folded into the empty catalog, in order. */
  function Collect(arts: seq<Artifact>): Catalog {
    if arts == [] then Empty
    else Add(Collect(arts[..|arts| - 1]), arts[|arts| - 1])
  }

  /** The fold keeps the catalog well formed. */
  lemma {:induction false} CollectWellFormed(arts: seq<Artifact>)
    ensures WellFormed(Collect(arts))
    decreases |arts|
  {
    if arts != [] {
      var n := |arts| - 1;
      CollectWellFormed(arts[..n]);
      AddPreservesWellFormed(Collect(arts[..n]), arts[n]);
    }
  }

  /** Every group key the fold builds is its own trim: trimming it again would
      change nothing, so no two keys differ only in surrounding whitespace. */
  lemma GroupKeysAreOwnTrim(arts: seq<Artifact>, id: string, t: string)
    requires id in Collect(arts).outputs && t in Collect(arts).outputs[id]
    ensures Trim(t) == t
  {
    CollectWellFormed(arts);
    TrimOfTrimmed(t);
  }

  // ------------------------------------------------------------ reference reading

  /** The modes, in encounter order, of the artifacts that produced `text` for `id`. */
  function Matching(arts: seq<Artifact>, id: string, text: string): seq<string> {
    if arts == [] then []
    else
      (if IsOutputFor(arts[0], id) && Trim(arts[0].contents) == text then [arts[0].mode] else [])
      + Matching(arts[1..], id, text)
  }

  lemma {:induction false} MatchingAppend(arts: seq<Artifact>, a: Artifact, id: string, text: string)
    ensures Matching(arts + [a], id, text) ==
      Matching(arts, id, text) + (if IsOutputFor(a, id) && Trim(a.contents) == text then [a.mode] else [])
    decreases |arts|
  {
    if arts == [] {
      assert [] + [a] == [a];
      assert [a][1..] == [];
    } else {
      assert (arts + [a])[1..] == arts[1..] + [a];
      MatchingAppend(arts[1..], a, id, text);
    }
  }

  lemma {:induction false} MatchingConcat(xs: seq<Artifact>, ys: seq<Artifact>, id: string, text: string)
    ensures Matching(xs + ys, id, text) == Matching(xs, id, text) + Matching(ys, id, text)
    decreases |xs|
  {
    if xs == [] {
      assert xs + ys == ys;
    } else {
      assert (xs + ys)[1..] == xs[1..] + ys;
      MatchingConcat(xs[1..], ys, id, text);
    }
  }

  /** The fold keeps an invocation for `id` exactly when some `COMMAND`
      artifact names it. */
  lemma {:induction false} CollectCommandKeys(arts: seq<Artifact>, id: string)
    ensures id in Collect(arts).commands <==> exists i :: 0 <= i < |arts| && IsCommandFor(arts[i], id)
    decreases |arts|
  {
    if arts != [] {
      var n := |arts| - 1;
      var c := Collect(arts[..n]);
      assert Collect(arts) == Add(c, arts[n]);
      AddCommandKeys(c, arts[n], id);
      CollectCommandKeys(arts[..n], id);
      CommandInPrefix(arts, id);
    }
  }

  lemma CommandInPrefix(arts: seq<Artifact>, id: string)
    requires arts != []
    ensures var n := |arts| - 1;
      (exists i :: 0 <= i < |arts| && IsCommandFor(arts[i], id))
      <==> (exists i :: 0 <= i < n && IsCommandFor(arts[..n][i], id)) || IsCommandFor(arts[n], id)
  {
    var n := |arts| - 1;
    if exists i :: 0 <= i < |arts| && IsCommandFor(arts[i], id) {
      var i :| 0 <= i < |arts| && IsCommandFor(arts[i], id);
      if i < n {
        assert arts[..n][i] == arts[i];
      }
    }
    if exists i :: 0 <= i < n && IsCommandFor(arts[..n][i], id) {
      var i :| 0 <= i < n && IsCommandFor(arts[..n][i], id);
      assert arts[..n][i] == arts[i];
    }
  }

  /** Last write wins: the invocation kept for a command is the contents of the
      last `COMMAND` artifact naming it. */
  lemma {:induction false} CollectLastCommandWins(arts: seq<Artifact>, i: nat)
    requires i < |arts| && arts[i].mode == CommandMode
    requires forall j :: i < j < |arts| ==> !IsCommandFor(arts[j], arts[i].id)
    ensures arts[i].id in Collect(arts).commands
    ensures Collect(arts).commands[arts[i].id] == arts[i].contents
    decreases |arts|
  {
    var n := |arts| - 1;
    var pre := arts[..n];
    if i < n {
      assert pre[i] == arts[i];
      assert !IsCommandFor(arts[n], arts[i].id);
      forall j | i < j < |pre|
        ensures !IsCommandFor(pre[j], pre[i].id)
      {
        assert pre[j] == arts[j];
      }
      CollectLastCommandWins(pre, i);
    }
  }

  /** Each group of the fold holds exactly the modes, in encounter order, of
      the non-`COMMAND` artifacts of that command whose contents trim to the
      group's text. */
  lemma {:induction false} CollectLabels(arts: seq<Artifact>, id: string, text: string)
    ensures LabelsIn(Collect(arts), id, text) == Matching(arts, id, text)
    decreases |arts|
  {
    if arts != [] {
      var n := |arts| - 1;
      assert arts == arts[..n] + [arts[n]];
      CollectLabels(arts[..n], id, text);
      AddLabels(Collect(arts[..n]), arts[n], id, text);
      MatchingAppend(arts[..n], arts[n], id, text);
    }
  }

  /** The fold has outputs for `id` exactly when some non-`COMMAND` artifact
      names it; commands with only a `COMMAND` file get no entry. */
  lemma {:induction false} CollectOutputKeys(arts: seq<Artifact>, id: string)
    ensures id in Collect(arts).outputs <==> exists i :: 0 <= i < |arts| && IsOutputFor(arts[i], id)
    decreases |arts|
  {
    if arts != [] {
      var n := |arts| - 1;
      var c := Collect(arts[..n]);
      assert Collect(arts) == Add(c, arts[n]);
      AddOutputKeys(c, arts[n], id);
      CollectOutputKeys(arts[..n], id);
      OutputInPrefix(arts, id);
    }
  }

  lemma OutputInPrefix(arts: seq<Artifact>, id: string)
    requires arts != []
    ensures var n := |arts| - 1;
      (exists i :: 0 <= i < |arts| && IsOutputFor(arts[i], id))
      <==> (exists i :: 0 <= i < n && IsOutputFor(arts[..n][i], id)) || IsOutputFor(arts[n], id)
  {
    var n := |arts| - 1;
    if exists i :: 0 <= i < |arts| && IsOutputFor(arts[i], id) {
      var i :| 0 <= i < |arts| && IsOutputFor(arts[i], id);
      if i < n {
        assert arts[..n][i] == arts[i];
      }
    }
    if exists i :: 0 <= i < n && IsOutputFor(arts[..n][i], id) {
      var i :| 0 <= i < n && IsOutputFor(arts[..n][i], id);
      assert arts[..n][i] == arts[i];
    }
  }

  /** Every command with an invocation has outputs in the fold exactly when
      every `COMMAND` artifact has a non-`COMMAND` artifact of the same id. */
  lemma CollectCommandsHaveOutputs(arts: seq<Artifact>)
    ensures var c := Collect(arts);
      (forall id :: id in c.commands ==> id in c.outputs) <==>
      forall i :: 0 <= i < |arts| && arts[i].mode == CommandMode ==>
        exists j :: 0 <= j < |arts| && IsOutputFor(arts[j], arts[i].id)
  {
    var c := Collect(arts);
    if forall id :: id in c.commands ==> id in c.outputs {
      forall i | 0 <= i < |arts| && arts[i].mode == CommandMode
        ensures exists j :: 0 <= j < |arts| && IsOutputFor(arts[j], arts[i].id)
      {
        CollectCommandKeys(arts, arts[i].id);
        CollectOutputKeys(arts, arts[i].id);
      }
    } else {
      var id :| id in c.commands && id !in c.outputs;
      CollectCommandKeys(arts, id);
      CollectOutputKeys(arts, id);
      var i :| 0 <= i < |arts| && IsCommandFor(arts[i], id);
      assert arts[i].mode == CommandMode;
    }
  }

  /** Two artifacts of one command whose contents trim to the same text share a
      group, and the earlier one's mode comes first in it. */
  lemma MergedInEncounterOrder(arts: seq<Artifact>, i: nat, j: nat)
    requires i < j < |arts|
    requires IsOutputFor(arts[i], arts[j].id) && IsOutputFor(arts[j], arts[j].id)
    requires Trim(arts[i].contents) == Trim(arts[j].contents)
    ensures var c := Collect(arts);
      var id := arts[j].id;
      var t := Trim(arts[j].contents);
      && id in c.outputs && t in c.outputs[id]
      && exists p, q :: 0 <= p < q < |c.outputs[id][t]|
           && c.outputs[id][t][p] == arts[i].mode && c.outputs[id][t][q] == arts[j].mode
  {
    var id := arts[j].id;
    var t := Trim(arts[j].contents);
    var xs := arts[..j];
    var ys := arts[j..];
    assert arts == xs + ys;
    MatchingConcat(xs, ys, id, t);
    assert xs == xs[..i] + xs[i..];
    MatchingConcat(xs[..i], xs[i..], id, t);
    assert xs[i..][0] == arts[i];
    assert Matching(xs[i..], id, t)[0] == arts[i].mode;
    assert ys[0] == arts[j];
    assert Matching(ys, id, t)[0] == arts[j].mode;
    var labels := Matching(arts, id, t);
    var p := |Matching(xs[..i], id, t)|;
    var q := |Matching(xs, id, t)|;
    assert labels[p] == arts[i].mode;
    assert labels[q] == arts[j].mode;
    CollectLabels(arts, id, t);
    var c := Collect(arts);
    assert LabelsIn(c, id, t) == labels;
    assert id in c.outputs && t in c.outputs[id];
  }

  // ------------------------------------------------------------ counting labels

  /** The number of labels in each group of one command. */
  function Sizes(g: Groups): map<string, nat> {
    map u | u in g :: |g[u]|
  }

  /** The number of labels stored in one command's groups. */
  ghost function GroupSize(g: Groups): nat {
    Sum(Sizes(g))
  }

  /** The number of labels in each command's groups. */
  ghost function GroupSizes(o: map<string, Groups>): map<string, nat> {
    map id | id in o :: GroupSize(o[id])
  }

  /** The number of labels stored across all commands. */
  ghost function LabelCount(c: Catalog): nat {
    Sum(GroupSizes(c.outputs))
  }

  /** How many artifacts are outputs rather than invocations. */
  function OutputArtifacts(arts: seq<Artifact>): nat {
    if arts == [] then 0
    else (if arts[0].mode == CommandMode then 0 else 1) + OutputArtifacts(arts[1..])
  }

  lemma {:induction false} OutputArtifactsAppend(arts: seq<Artifact>, a: Artifact)
    ensures OutputArtifacts(arts + [a]) == OutputArtifacts(arts) + (if a.mode == CommandMode then 0 else 1)
    decreases |arts|
  {
    if arts == [] {
      assert [] + [a] == [a];
      assert [a][1..] == [];
    } else {
      assert (arts + [a])[1..] == arts[1..] + [a];
      OutputArtifactsAppend(arts[1..], a);
    }
  }

  /** A push adds exactly one label to a command's groups. */
  lemma PushCountsOne(g: Groups, text: string, mode: string)
    ensures GroupSize(Push(g, text, mode)) == GroupSize(g) + 1
  {
    var old_ := if text in g then g[text] else [];
    assert Push(g, text, mode) == g[text := old_ + [mode]];
    SizesUpdate(g, text, old_ + [mode]);
    SumUpdate(Sizes(g), text, |old_| + 1);
    assert ValueAt(Sizes(g), text) == |old_|;
  }

  lemma SizesUpdate(g: Groups, text: string, v: seq<string>)
    ensures Sizes(g[text := v]) == Sizes(g)[text := |v|]
  {
    var after := Sizes(g[text := v]);
    var want := Sizes(g)[text := |v|];
    assert after.Keys == want.Keys;
    forall u | u in after
      ensures after[u] == want[u]
    {
    }
  }

  /** Replacing one command's groups changes the total by the difference. */
  lemma GroupSizesUpdate(o: map<string, Groups>, id: string, g: Groups)
    ensures Sum(GroupSizes(o[id := g])) + (if id in o then GroupSize(o[id]) else 0)
         == Sum(GroupSizes(o)) + GroupSize(g)
  {
    GroupSizesOfUpdate(o, id, g);
    SumUpdate(GroupSizes(o), id, GroupSize(g));
  }

  lemma GroupSizesOfUpdate(o: map<string, Groups>, id: string, g: Groups)
    ensures GroupSizes(o[id := g]) == GroupSizes(o)[id := GroupSize(g)]
  {
    var after := GroupSizes(o[id := g]);
    var want := GroupSizes(o)[id := GroupSize(g)];
    assert after.Keys == want.Keys;
    forall k | k in after
      ensures after[k] == want[k]
    {
    }
  }

  /** One loop pass stores exactly one more label for an output artifact and
      none for an invocation. */
  lemma AddCountsOne(c: Catalog, a: Artifact)
    ensures LabelCount(Add(c, a)) == LabelCount(c) + (if a.mode == CommandMode then 0 else 1)
  {
    if a.mode != CommandMode {
      var g := GroupsOf(c, a.id);
      var g' := Push(g, Trim(a.contents), a.mode);
      assert Add(c, a).outputs == c.outputs[a.id := g'];
      PushCountsOne(g, Trim(a.contents), a.mode);
      GroupSizesUpdate(c.outputs, a.id, g');
      if a.id !in c.outputs {
        assert Sizes(g) == map[];
      }
    }
  }

  /** Over the whole fold, the number of stored labels is the number of
      non-`COMMAND` artifacts: no output is lost and none is counted twice. */
  lemma {:induction false} CollectCountsOutputs(arts: seq<Artifact>)
    ensures LabelCount(Collect(arts)) == OutputArtifacts(arts)
    decreases |arts|
  {
    if arts != [] {
      var n := |arts| - 1;
      assert arts == arts[..n] + [arts[n]];
      CollectCountsOutputs(arts[..n]);
      AddCountsOne(Collect(arts[..n]), arts[n]);
      OutputArtifactsAppend(arts[..n], arts[n]);
    }
  }
}
