# Example-outputs processor, modelled in Dafny

The processor is a small Rust program from the `linux-directory-permissions`
content. It builds HTML snippets showing a terminal command and its output.
It reads a directory of files named `<id>:<mode>`. The file `<id>:COMMAND`
holds the invocation of command `<id>`. Every other file holds that
command's output when it was run under `<mode>`. The program folds the files
into two ordered maps:

- `commands`: each id to its invocation text;
- `outputs`: each id to a map from trimmed output text to the list of modes
  that produced it.

It then prints one `term` block per command, in ascending id order. Each
block shows the invocation and then one `<div class='output m1 m2'>` per
distinct output text, in ascending text order.

The model has three stages, each a pure function over immutable data.

- **Loader** (`loader.dfy`): cuts each file name on `:` and builds an
  artifact from the name and the file's contents. A name without `:`
  panics.
- **Aggregator** (`aggregator.dfy`): the loop body `Add` and the fold
  `Collect`.
  - A `COMMAND` artifact overwrites the command's invocation.
  - Any other artifact appends its mode to the group of its trimmed
    contents. Missing entries are created empty first.
- **Renderer** (`renderer.dfy`): the blocks in `BTreeMap` order, and the
  printed text.
  - A command with no outputs panics at the `unwrap`.
  - The text printed before that panic is kept.

`processor.dfy` composes the three stages into `Program`. It also holds a
loop version of the aggregation, `Aggregate`, which is proved equal to the
functional fold. Its scenario lemmas compute whole runs.

Two supporting files model standard-library behaviour:

- `text.dfy`: `str::trim`, `str::split` and `join`;
- `order.dfy`: the ordering of `String` keys, and sorted iteration of a set of
  keys.

`sums.dfy` is a proof utility: sums over maps, used to count the stored
labels.

`wrappers.dfy` holds `Option`, `Result`, the two panics and `Run`. A `Run`
pairs what was printed with the panic, if any.

Standard-library details, as the model takes them:

- `str::trim` strips characters with the Unicode `White_Space` property. This
  is what `char::is_whitespace` tests. `Text.IsWs` lists the set exactly.
- `Ord` on `String` compares UTF-8 bytes. That equals code-point order, so
  `Order.Less` is lexicographic order on characters.

## Model

| member | source | states |
|---|---|---|
| Loader.ParseName | content/linux-directory-permissions/example_outputs_generator/processor/src/main.rs:16-18 | A name has no key exactly when it contains no `:`; otherwise id and mode are `:`-free, and the name starts with `id:mode` and then ends or goes on with `:` (anything after a second `:` is ignored) |
| Loader.ParseNameInverse | content/linux-directory-permissions/example_outputs_generator/processor/src/main.rs:16-18 | Writing a `:`-free id and mode as `id:mode`, optionally followed by `:` and anything, parses back to that id and mode |
| Loader.Load | content/linux-directory-permissions/example_outputs_generator/processor/src/main.rs:12-20 | Loading succeeds exactly when every name has a `:`; then artifact i carries entry i's parsed key and its contents unchanged; otherwise the panic names the first entry without `:` |
| Loader.LoadEntries | content/linux-directory-permissions/example_outputs_generator/processor/src/main.rs:12-20 | Loading the directory listing written from artifacts with `:`-free ids and modes gives those artifacts back |
| Text.Split | content/linux-directory-permissions/example_outputs_generator/processor/src/main.rs:16 | `split` always yields at least one piece and no piece contains the separator |
| Text.JoinSplit | content/linux-directory-permissions/example_outputs_generator/processor/src/main.rs:16 | Re-joining the pieces of a split with the separator gives the original string |
| Text.SplitJoin | content/linux-directory-permissions/example_outputs_generator/processor/src/main.rs:43 | Splitting the join of separator-free pieces gives the pieces back |
| Text.TrimSplits | content/linux-directory-permissions/example_outputs_generator/processor/src/main.rs:28 | `Text.Trim` strips `Text.IsWs` characters (the Unicode White_Space set) from both ends: the result has no whitespace at either end, and the input is a whitespace run, then the result, then a whitespace run |
| Text.TrimCharacterization | content/linux-directory-permissions/example_outputs_generator/processor/src/main.rs:28 | Text with no whitespace at its ends, surrounded by any whitespace runs, trims to exactly that text |
| Text.TrimIdempotent | content/linux-directory-permissions/example_outputs_generator/processor/src/main.rs:28 | Trimming twice is trimming once |
| Order.SortedKeys | content/linux-directory-permissions/example_outputs_generator/processor/src/main.rs:34 | Map iteration lists each key of the set exactly once, strictly ascending in `Order.Less`, the code-point lexicographic order of `String` keys |
| Order.SortedListingUnique | content/linux-directory-permissions/example_outputs_generator/processor/src/main.rs:34 | Any strictly ascending listing of exactly the keys is the iteration order |
| Order.LessTransitive | content/linux-directory-permissions/example_outputs_generator/processor/src/main.rs:9-10 | The key order is transitive |
| Order.LessTotal | content/linux-directory-permissions/example_outputs_generator/processor/src/main.rs:9-10 | Any two distinct keys are ordered one way or the other |
| Aggregator.Push | content/linux-directory-permissions/example_outputs_generator/processor/src/main.rs:28-30 | The mode is appended to the group of the text, which is created empty if missing; other groups are untouched |
| Aggregator.Add | content/linux-directory-permissions/example_outputs_generator/processor/src/main.rs:22-31 | A `COMMAND` artifact sets `commands[id]` to its untrimmed contents and changes nothing else; any other artifact pushes its mode onto `outputs[id]`'s group of its trimmed contents and changes nothing else |
| Aggregator.AddPreservesWellFormed | content/linux-directory-permissions/example_outputs_generator/processor/src/main.rs:25-30 | After a pass, every outputs entry is non-empty and every group key is trimmed and has at least one mode |
| Aggregator.CollectWellFormed | content/linux-directory-permissions/example_outputs_generator/processor/src/main.rs:12-32 | The whole fold keeps that invariant: every catalog it reaches is well formed |
| Aggregator.CollectCommandKeys | content/linux-directory-permissions/example_outputs_generator/processor/src/main.rs:22-23 | An id has an invocation exactly when some `COMMAND` artifact names it |
| Aggregator.CollectLastCommandWins | content/linux-directory-permissions/example_outputs_generator/processor/src/main.rs:22-23 | The invocation kept is the contents of the last `COMMAND` artifact for that id |
| Aggregator.CollectOutputKeys | content/linux-directory-permissions/example_outputs_generator/processor/src/main.rs:24-31 | An id has outputs exactly when some non-`COMMAND` artifact names it |
| Aggregator.CollectLabels | content/linux-directory-permissions/example_outputs_generator/processor/src/main.rs:12-32 | For `Collect`, the fold of the whole loop: each group holds exactly the modes, in encounter order, of the artifacts of that id whose contents trim to the group's text (the reference filter `Matching`) |
| Aggregator.MergedInEncounterOrder | content/linux-directory-permissions/example_outputs_generator/processor/src/main.rs:25-30 | Two outputs of one command whose contents trim equally share a group, the earlier mode first |
| Aggregator.GroupKeysAreOwnTrim | content/linux-directory-permissions/example_outputs_generator/processor/src/main.rs:28 | Every group key is its own trim |
| Aggregator.AddCountsOne | content/linux-directory-permissions/example_outputs_generator/processor/src/main.rs:22-31 | A pass stores one more label for an output artifact and none for an invocation |
| Aggregator.CollectCountsOutputs | content/linux-directory-permissions/example_outputs_generator/processor/src/main.rs:12-32 | The number of stored labels equals the number of non-`COMMAND` artifacts: none lost, none duplicated |
| Aggregator.CollectCommandsHaveOutputs | content/linux-directory-permissions/example_outputs_generator/processor/src/main.rs:22-31 | Every invocation has outputs exactly when every `COMMAND` artifact has a non-`COMMAND` artifact of the same id |
| Renderer.GroupDivs | content/linux-directory-permissions/example_outputs_generator/processor/src/main.rs:42-46 | One div per group, texts strictly ascending, each div carrying its group's text and modes |
| Renderer.GroupDivsCoverGroups | content/linux-directory-permissions/example_outputs_generator/processor/src/main.rs:42 | The div texts are exactly the group keys |
| Renderer.Layout | content/linux-directory-permissions/example_outputs_generator/processor/src/main.rs:34 | As many blocks as commands, ids strictly ascending, each block the one for its id |
| Renderer.LayoutCoversCommands | content/linux-directory-permissions/example_outputs_generator/processor/src/main.rs:34 | The block ids are exactly the ids with an invocation; ids with only outputs get no block |
| Renderer.LayoutComplete | content/linux-directory-permissions/example_outputs_generator/processor/src/main.rs:42 | Every block has divs exactly when every command with an invocation has outputs |
| Renderer.FirstMissing | content/linux-directory-permissions/example_outputs_generator/processor/src/main.rs:42 | The first block without outputs lies in range, and every block before it has outputs |
| Renderer.Emit | content/linux-directory-permissions/example_outputs_generator/processor/src/main.rs:34-48 | The printing loop leaves the run `Printed` describes: the `Document` of all blocks and no panic, or the blocks before the first command without outputs plus that block's `Head` and a panic naming it. The printed text is `Head` = `Opening` (lines 35-39) + `CommandLine` (line 40) + `CommandClose` (line 41), one `DivLine` per div (line 45, class from `ClassValue`, line 43), then `Closing` (line 47) |
| Renderer.EmitStep | content/linux-directory-permissions/example_outputs_generator/processor/src/main.rs:34-48 | A block with outputs prints its head, its divs and its closing line in front of whatever the later blocks print |
| Renderer.ClassRoundTrip | content/linux-directory-permissions/example_outputs_generator/processor/src/main.rs:43-45 | The class attribute is `output ` followed by the modes joined with spaces, and splitting that on spaces recovers the modes when none contains a space |
| Renderer.ClassReadsAsWords | content/linux-directory-permissions/example_outputs_generator/processor/src/main.rs:43-45 | For any non-empty modes, the class attribute is `output ` followed by text that splits on spaces into the words of every mode in order (`Words`); a mode holding spaces therefore reads back as several classes |
| Processor.Program | content/linux-directory-permissions/example_outputs_generator/processor/src/main.rs:12-48 | A name without `:` panics naming the first such name with nothing printed; otherwise the run is the printing of the collected catalog |
| Processor.Aggregate | content/linux-directory-permissions/example_outputs_generator/processor/src/main.rs:12-32 | The loop as written fails exactly when some name lacks `:`, with the first bad name, and otherwise ends with the fold's catalog |
| Processor.LoadAppend | content/linux-directory-permissions/example_outputs_generator/processor/src/main.rs:12-20 | Loading one more well-named entry appends exactly its artifact |
| Processor.EmptyDirectory | content/linux-directory-permissions/example_outputs_generator/processor/src/main.rs:12-48 | An empty directory prints nothing and does not panic |
| Processor.ProgramSucceedsIffEveryCommandHasOutputs | content/linux-directory-permissions/example_outputs_generator/processor/src/main.rs:34-42 | With well-formed names the run completes exactly when every `COMMAND` file has an output file of the same id |
| Processor.SharedOutputScenario | content/linux-directory-permissions/example_outputs_generator/processor/src/main.rs:22-47 | A command with two outputs that trim equally prints one block with one div holding both modes in order |
| Processor.CommandWithoutOutputsScenario | content/linux-directory-permissions/example_outputs_generator/processor/src/main.rs:34-42 | A lone `ls:COMMAND` prints its head and then panics naming `ls` |

## Left out

- Argument handling (main.rs:4-7): the directory is whatever the entries came from. The model takes the listing as a sequence of (file name, contents) pairs.
- The I/O `unwrap`s at main.rs:12-15 and main.rs:20 are not modelled. These cover directory, entry, file-name and read failures, and non-UTF-8 contents. `to_string_lossy` is taken as already applied.
- Entry order: `read_dir` order is not specified. The model takes the entries in whatever order they come and does not sort them. Three results depend on that order: the label order within a group; which invocation is kept when two names parse to the same `COMMAND` key (`b:COMMAND` and `b:COMMAND:old` both do, and the later one wins, `Aggregator.CollectLastCommandWins`); and, when several names lack a `:`, which of them the panic names (the first one met, `Loader.Load`).
- `println!`: standard output is one string, `Run.stdout`. The panic message written to standard error and the exit status are not modelled; `Run.panic` records which `unwrap` failed.
- Aggregator.LabelCount: a ghost sum, since map sums pick keys by choice. The counting property is proved about it, not computed.

Where one might expect otherwise, the model follows the code:

- A command with an invocation but no outputs panics at main.rs:42 after its head is printed. It does not render an empty block.
- Outputs of an id with no `COMMAND` file are never printed. They do not render with an empty invocation.
- Empty ids and modes (`:x`, `x:`) are accepted, and anything after a second `:` is ignored.
- Entries are not sorted by name before folding.
