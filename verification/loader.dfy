/** The artifact loader: each directory entry's file name `<id>:<mode>` is cut
    on `:` into a command identifier and a mode (label), and paired with the
    file's contents. */
module Loader {
  import opened Wrappers
  import opened Text

  /** What a file name says: the command it belongs to and its mode. */
  datatype Key = Key(id: string, mode: string)

  /** One loaded file: identifier and mode from its name, and its text. */
  datatype Artifact = Artifact(id: string, mode: string, contents: string)

  /** A directory entry as the program sees it: file name and file contents. */
  type Entry = (string, string)

  /** The name of `k` as it is written in a file name, up to the mode's end. */
  function NamePrefix(k: Key): string {
    k.id + ":" + k.mode
  }

  /** `let mut parts = name.split(":")`, then two `parts.next().unwrap()`: the
      first piece is the identifier, the second the mode, the rest is ignored.
      Only the second `unwrap` can fail, and it does exactly when there is no `:`. */
  function ParseName(name: string): (k: Option<Key>)
    ensures k.None? <==> ':' !in name
    ensures k.Some? ==> ':' !in k.value.id && ':' !in k.value.mode
    ensures k.Some? ==>
      var p := NamePrefix(k.value);
      |p| <= |name| && name[..|p|] == p && (|name| == |p| || name[|p|] == ':')
  {
    var parts := Split(name, ':');
    if |parts| < 2 then
      assert name == parts[0] by { JoinSplit(name, ':'); }
      None
    else
      var k := Key(parts[0], parts[1]);
      JoinSplit(name, ':');
      SplitLayout(name, parts);
      Some(k)
  }

  lemma SplitLayout(name: string, parts: seq<string>)
    requires name == Join(parts, ":") && |parts| >= 2
    ensures ':' in name
    ensures var p := NamePrefix(Key(parts[0], parts[1]));
      |p| <= |name| && name[..|p|] == p && (|name| == |p| || name[|p|] == ':')
  {
    var p := NamePrefix(Key(parts[0], parts[1]));
    var more: string := if |parts| == 2 then [] else ":" + Join(parts[2..], ":");
    assert Join(parts[1..], ":") == parts[1] + more by {
      assert (parts[1..])[1..] == parts[2..];
    }
    assert name == p + more;
    assert name[|parts[0]|] == ':';
  }

  /** The inverse of `ParseName`: writing an identifier and a mode free of `:`
      into a file name, with anything after a further `:`, parses back to them. */
  lemma ParseNameInverse(k: Key, rest: string)
    requires ':' !in k.id && ':' !in k.mode
    requires rest == [] || rest[0] == ':'
    ensures ParseName(NamePrefix(k) + rest) == Some(k)
  {
    SplitOfName(k, rest);
  }

  /** Cutting such a name on `:` yields the identifier, then the mode. */
  lemma SplitOfName(k: Key, rest: string)
    requires ':' !in k.id && ':' !in k.mode
    requires rest == [] || rest[0] == ':'
    ensures var parts := Split(NamePrefix(k) + rest, ':');
      |parts| >= 2 && parts[0] == k.id && parts[1] == k.mode
  {
    var after := k.mode + rest;
    assert NamePrefix(k) + rest == k.id + [':'] + after;
    SplitStep(k.id, ':', after);
    SplitOfTail(k.mode, rest);
  }

  /** The piece before the first `:` of `mode + rest`. */
  lemma SplitOfTail(mode: string, rest: string)
    requires ':' !in mode
    requires rest == [] || rest[0] == ':'
    ensures Split(mode + rest, ':')[0] == mode
  {
    if rest == [] {
      assert mode + rest == mode;
      SplitFree(mode, ':');
    } else {
      assert mode + rest == mode + [':'] + rest[1..];
      SplitStep(mode, ':', rest[1..]);
    }
  }

  /** The loop's name handling over all entries, in `read_dir` order: the run
      panics at the first file name without a `:`; otherwise every entry becomes
      an artifact. */
  function Load(entries: seq<Entry>): (r: Result<seq<Artifact>, Panic>)
    ensures r.Success? <==> forall i :: 0 <= i < |entries| ==> ':' in entries[i].0
    ensures r.Success? ==>
      && |r.value| == |entries|
      && forall i :: 0 <= i < |entries| ==>
           && ParseName(entries[i].0) == Some(Key(r.value[i].id, r.value[i].mode))
           && r.value[i].contents == entries[i].1
    ensures r.Failure? ==>
      exists i :: 0 <= i < |entries| && r.error == NameWithoutColon(entries[i].0)
        && ':' !in entries[i].0
        && forall j :: 0 <= j < i ==> ':' in entries[j].0
  {
    if entries == [] then Success([])
    else
      var (name, contents) := entries[0];
      match ParseName(name)
      case None => Failure(NameWithoutColon(name))
      case Some(k) =>
        match Load(entries[1..])
        case Failure(e) =>
          assert forall i :: 1 <= i < |entries| ==> entries[i] == entries[1..][i - 1];
          Failure(e)
        case Success(rest) =>
          assert forall i :: 1 <= i < |entries| ==> entries[i] == entries[1..][i - 1];
          Success([Artifact(k.id, k.mode, contents)] + rest)
  }

  /** The directory listing that stores each artifact under its own name
      `id:mode`, in the given order. */
  function Entries(arts: seq<Artifact>): (es: seq<Entry>)
    ensures |es| == |arts|
    ensures forall i :: 0 <= i < |arts| ==> es[i].1 == arts[i].contents
  {
    if arts == [] then []
    else [(NamePrefix(Key(arts[0].id, arts[0].mode)), arts[0].contents)] + Entries(arts[1..])
  }

  /** Loading the listing of artifacts whose ids and modes hold no `:` gives the
      artifacts back unchanged. */
  lemma {:induction false} LoadEntries(arts: seq<Artifact>)
    requires forall i :: 0 <= i < |arts| ==> ':' !in arts[i].id && ':' !in arts[i].mode
    ensures Load(Entries(arts)) == Success(arts)
  {
    if arts != [] {
      var a := arts[0];
      var es := Entries(arts);
      ParseNameInverse(Key(a.id, a.mode), []);
      assert NamePrefix(Key(a.id, a.mode)) + [] == es[0].0;
      assert es[1..] == Entries(arts[1..]);
      LoadEntries(arts[1..]);
      assert [a] + arts[1..] == arts;
    }
  }
}
