/** The renderer: walks `commands` in key order and prints, for each command,
    a fixed `term` block with its invocation followed by one `output` div per
    group of that command, in key order of the group texts. */
module Renderer {
  import opened Wrappers
  import opened Text
  import opened Order
  import opened Aggregator

  /** One `output` div: the modes of a group and its (trimmed) text. */
  datatype Div = Div(modes: seq<string>, text: string)

  /** One command as the loop meets it; `divs` is `None` when
      `outputs.get(id)` finds nothing, which is where the `unwrap` panics. */
  datatype Block = Block(id: string, invocation: string, divs: Option<seq<Div>>)

  /** `for (output, modes) in groups`: one div per group, ascending by text. */
  function GroupDivs(g: Groups): (ds: seq<Div>)
    ensures |ds| == |g|
    ensures forall i, j :: 0 <= i < j < |ds| ==> Less(ds[i].text, ds[j].text)
    ensures forall i :: 0 <= i < |ds| ==> ds[i].text in g && ds[i].modes == g[ds[i].text]
  {
    var keys := SortedKeys(g.Keys);
    seq(|keys|, i requires 0 <= i < |keys| => Div(g[keys[i]], keys[i]))
  }

  /** Exactly one div per group: every group text appears, and nothing else. */
  lemma GroupDivsCoverGroups(g: Groups)
    ensures (set i | 0 <= i < |GroupDivs(g)| :: GroupDivs(g)[i].text) == g.Keys
  {
    var ds := GroupDivs(g);
    var keys := SortedKeys(g.Keys);
    forall t | t in g
      ensures t in (set i | 0 <= i < |ds| :: ds[i].text)
    {
      var i :| 0 <= i < |keys| && keys[i] == t;
      assert ds[i].text == t;
    }
  }

  /** What the loop body looks up for one command. */
  function BlockFor(c: Catalog, id: string): (b: Block)
    requires id in c.commands
    ensures b.id == id && b.invocation == c.commands[id]
    ensures b.divs.Some? <==> id in c.outputs
    ensures id in c.outputs ==> b.divs.value == GroupDivs(c.outputs[id])
  {
    Block(id, c.commands[id], if id in c.outputs then Some(GroupDivs(c.outputs[id])) else None)
  }

  /** The blocks of the given commands, in the given order. */
  function Blocks(c: Catalog, ids: seq<string>): (bs: seq<Block>)
    requires forall i :: 0 <= i < |ids| ==> ids[i] in c.commands
    ensures |bs| == |ids|
    ensures forall i :: 0 <= i < |ids| ==> bs[i] == BlockFor(c, ids[i])
  {
    if ids == [] then [] else [BlockFor(c, ids[0])] + Blocks(c, ids[1..])
  }

  /** `for (cmd_name, command) in commands`: the commands' blocks, ascending
      by identifier, each holding that command's invocation and its outputs
      lookup. */
  function Layout(c: Catalog): (bs: seq<Block>)
    ensures |bs| == |c.commands|
    ensures forall i, j :: 0 <= i < j < |bs| ==> Less(bs[i].id, bs[j].id)
    ensures forall i :: 0 <= i < |bs| ==> bs[i].id in c.commands && bs[i] == BlockFor(c, bs[i].id)
  {
    var ids := SortedKeys(c.commands.Keys);
    var bs := Blocks(c, ids);
    assert forall i :: 0 <= i < |bs| ==> bs[i].id == ids[i];
    bs
  }

  /** Exactly one block per command: every identifier with an invocation gets a
      block, and identifiers that only have outputs get none. */
  lemma LayoutCoversCommands(c: Catalog)
    ensures (set i | 0 <= i < |Layout(c)| :: Layout(c)[i].id) == c.commands.Keys
  {
    var bs := Layout(c);
    forall id | id in c.commands
      ensures id in (set i | 0 <= i < |bs| :: bs[i].id)
    {
      var i := BlockIndex(c, id);
    }
  }

  /** Where the block of a command sits in the layout. */
  lemma BlockIndex(c: Catalog, id: string) returns (i: nat)
    requires id in c.commands
    ensures i < |Layout(c)| && Layout(c)[i].id == id
  {
    var ids := SortedKeys(c.commands.Keys);
    assert Layout(c) == Blocks(c, ids);
    i :| 0 <= i < |ids| && ids[i] == id;
  }

  /** Every block has its outputs exactly when every command with an
      invocation also has outputs. */
  lemma LayoutComplete(c: Catalog)
    ensures Complete(Layout(c)) <==> forall id :: id in c.commands ==> id in c.outputs
  {
    var bs := Layout(c);
    if Complete(bs) {
      forall id | id in c.commands
        ensures id in c.outputs
      {
        var i := BlockIndex(c, id);
        assert bs[i].divs.Some?;
      }
    } else {
      var k := FirstMissing(bs);
      assert bs[k] == BlockFor(c, bs[k].id);
    }
  }

  // ------------------------------------------------------------ printed text

  /** The first `println!`: a raw string opening the block, then a newline. */
  const Opening: string := "\n<div class=\"term\">\n  <div class=\"command\"> \n"

  function CommandLine(invocation: string): string {
    "    $ " + invocation + "\n"
  }

  const CommandClose: string := "  </div>\n"

  const Closing: string := "</div>\n"

  /** The `class` attribute of a div: `output` and the modes joined by spaces. */
  function ClassValue(modes: seq<string>): string {
    "output " + Join(modes, " ")
  }

  function DivLine(d: Div): string {
    "  <div class='" + ClassValue(d.modes) + "'>" + d.text + "</div>\n"
  }

  /** What a block prints before its outputs are looked up. */
  function Head(b: Block): string {
    Opening + CommandLine(b.invocation) + CommandClose
  }

  function DivsText(ds: seq<Div>): string {
    if ds == [] then "" else DivLine(ds[0]) + DivsText(ds[1..])
  }

  predicate Complete(bs: seq<Block>) {
    forall i :: 0 <= i < |bs| ==> bs[i].divs.Some?
  }

  /** The text of blocks that all have their outputs, one after another. */
  function Document(bs: seq<Block>): string
    requires Complete(bs)
  {
    if bs == [] then ""
    else Head(bs[0]) + DivsText(bs[0].divs.value) + Closing + Document(bs[1..])
  }

  /** The index of the first block without outputs. */
  function FirstMissing(bs: seq<Block>): (k: nat)
    requires !Complete(bs)
    ensures k < |bs| && bs[k].divs.None? && Complete(bs[..k])
  {
    if bs[0].divs.None? then 0
    else
      var k := FirstMissing(bs[1..]) + 1;
      assert forall i :: 1 <= i < k ==> bs[..k][i] == bs[1..][..k - 1][i - 1];
      k
  }

  /** What a run over the blocks leaves behind: with every command having
      outputs, the whole document and no panic; otherwise the blocks before the
      first command without outputs, that block's head, and a panic naming it. */
  function Printed(bs: seq<Block>): Run {
    if Complete(bs) then Run(Document(bs), None)
    else
      var k := FirstMissing(bs);
      Run(Document(bs[..k]) + Head(bs[k]), Some(CommandWithoutOutputs(bs[k].id)))
  }

  /** A run panics exactly when some command has no outputs. */
  lemma PrintedPanics(bs: seq<Block>)
    ensures Printed(bs).panic.None? <==> Complete(bs)
  {
  }

  /** The printing loop. It prints every block in order; at the first block
      whose command has no outputs it has already printed that block's head
      when the `unwrap` panics, and prints nothing more. */
  function Emit(bs: seq<Block>): (r: Run)
    ensures r == Printed(bs)
  {
    if bs == [] then Run("", None)
    else
      var b := bs[0];
      match b.divs
      case None =>
        EmitMissing(bs);
        Run(Head(b), Some(CommandWithoutOutputs(b.id)))
      case Some(ds) =>
        var rest := Emit(bs[1..]);
        EmitStep(bs);
        Run(Head(b) + DivsText(ds) + Closing + rest.stdout, rest.panic)
  }

  lemma EmitMissing(bs: seq<Block>)
    requires bs != [] && bs[0].divs.None?
    ensures Printed(bs) == Run(Head(bs[0]), Some(CommandWithoutOutputs(bs[0].id)))
  {
    assert !Complete(bs);
    assert FirstMissing(bs) == 0;
    assert Document(bs[..0]) == "";
  }

  /** How a block with outputs extends what the blocks after it print. */
  lemma EmitStep(bs: seq<Block>)
    requires bs != [] && bs[0].divs.Some?
    ensures var rest := Printed(bs[1..]);
      Printed(bs) == Run(Head(bs[0]) + DivsText(bs[0].divs.value) + Closing + rest.stdout, rest.panic)
  {
    if Complete(bs[1..]) {
      CompleteStep(bs);
    } else {
      MissingPrinted(bs);
    }
  }

  lemma MissingPrinted(bs: seq<Block>)
    requires bs != [] && bs[0].divs.Some? && !Complete(bs[1..])
    ensures var rest := Printed(bs[1..]);
      Printed(bs) == Run(Head(bs[0]) + DivsText(bs[0].divs.value) + Closing + rest.stdout, rest.panic)
  {
    MissingStep(bs);
    var k := FirstMissing(bs[1..]);
    var front := Head(bs[0]) + DivsText(bs[0].divs.value) + Closing;
    var tail := Document(bs[1..][..k]);
    var last := Head(bs[k + 1]);
    assert Printed(bs).stdout == (front + tail) + last;
    assert Printed(bs[1..]).stdout == tail + last;
    ConcatAssoc(front, tail, last);
  }

  lemma CompleteStep(bs: seq<Block>)
    requires bs != [] && bs[0].divs.Some? && Complete(bs[1..])
    ensures Complete(bs)
    ensures Document(bs) == Head(bs[0]) + DivsText(bs[0].divs.value) + Closing + Document(bs[1..])
  {
    forall i | 0 <= i < |bs|
      ensures bs[i].divs.Some?
    {
      if i > 0 {
        assert bs[i] == bs[1..][i - 1];
      }
    }
  }

  lemma MissingStep(bs: seq<Block>)
    requires bs != [] && bs[0].divs.Some? && !Complete(bs[1..])
    ensures !Complete(bs)
    ensures var k := FirstMissing(bs[1..]);
      && FirstMissing(bs) == k + 1
      && bs[k + 1] == bs[1..][k]
      && Document(bs[..k + 1]) == Head(bs[0]) + DivsText(bs[0].divs.value) + Closing + Document(bs[1..][..k])
  {
    var k := FirstMissing(bs[1..]);
    assert bs[1..][k] == bs[k + 1];
    var pre := bs[..k + 1];
    assert pre[0] == bs[0];
    assert pre[1..] == bs[1..][..k];
  }

  /** Re-reading a class attribute: after the `output ` prefix, splitting on
      spaces recovers the modes, provided none of them contains a space. */
  lemma ClassRoundTrip(modes: seq<string>)
    requires modes != []
    requires forall i :: 0 <= i < |modes| ==> ' ' !in modes[i]
    ensures var v := ClassValue(modes);
      v[..7] == "output " && Split(v[7..], ' ') == modes
  {
    SplitJoin(modes, ' ');
    var v := ClassValue(modes);
    assert v[7..] == Join(modes, " ");
  }

  /** The space-separated words of each mode, one mode after another. */
  function Words(modes: seq<string>): seq<string> {
    if modes == [] then [] else Split(modes[0], ' ') + Words(modes[1..])
  }

  /** What a reader splitting the class attribute on spaces sees for any
      modes: the words of every mode in order, so a mode holding spaces reads
      back as several classes. */
  lemma {:induction false} ClassReadsAsWords(modes: seq<string>)
    requires modes != []
    ensures var v := ClassValue(modes);
      v[..7] == "output " && Split(v[7..], ' ') == Words(modes)
    decreases |modes|
  {
    var v := ClassValue(modes);
    assert v[7..] == Join(modes, " ");
    if |modes| == 1 {
      assert Words(modes[1..]) == [];
      assert Split(modes[0], ' ') + [] == Split(modes[0], ' ');
    } else {
      assert Join(modes, " ") == modes[0] + [' '] + Join(modes[1..], " ");
      SplitConcat(modes[0], ' ', Join(modes[1..], " "));
      ClassReadsAsWords(modes[1..]);
      assert ClassValue(modes[1..])[7..] == Join(modes[1..], " ");
    }
  }
}
