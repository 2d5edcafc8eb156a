# iscli command tree, modelled in Dafny

iscli is a framework for interactive command lines in the style of network
equipment shells. A command is registered with a grammar such as
`sshfs HOSTNAME ({path PATH | port <1-65535>}|)` and a list of help texts,
one per token. Each registration is compiled into a prefix tree of keyword
nodes. A line typed at the prompt is then resolved against that tree with
these rules:

- every word may be abbreviated to any prefix that is not ambiguous;
- an upper-case placeholder accepts any word;
- `<N-M>` accepts an integer in range;
- a leading `.` marks a vararg that repeats;
- `( | )` gives alternatives and `{ | }` gives any order of a non-empty subset.

The same walk over the tree drives three things: dispatch to the handler,
tab completion, and `?` help with its `<cr>` marker.

The project models this engine from grammar text to dispatch decision:

- `wrappers.dfy` (`Wrappers`): `Option`, `Result` and `Outcome`.
- `text.dfy` (`Text`): Python's `str.strip`/`lstrip`/`rstrip` on whitespace, the string order used for `sorted`, and a sorted set.
- `converter.dfy` (`Converter`): the converter registry. It covers how a keyword pattern selects a converter, the variable and range converters, and Python 2 `int()` on a string.
- `node.dfy` (`CliNode`): these parts of `CliElement` and `CliNode`:
  - elements;
  - nodes as values `Node(element, fn, children)`;
  - `parse` and `match`;
  - `merge`, both as a function and as a method with the source's two loops;
  - `make_root`.
- `arrange.dfy` (`Arrange`): the ordered non-empty subsets a `{...}` group expands into. It covers how many there are and exactly which they are.
- `grammar.dfy` (`Grammar`): `cmdsplit`. It has three parts:
  - the scan is a fold of one step per character;
  - a method runs the scan with the source's loop;
  - lemmas cover balance, the elements produced and the hand-out of help texts.
- `build.dfy` (`TreeBuild`): `CliNode.build`. It has two parts:
  - a function with the group expansion, plus the paths a grammar spells out;
  - a method running the source's work-list loop.
- `walk.dfy` (`Walking`): the walk of `Cli.expand`, its forks and dead ends, and the one-step lookahead.
- `decide.dfy` (`Decisions`): the decisions of `command`, `complete`, `describe` and the line classification of `commandloop`.
- `shell.dfy` (`Shell`): the `Cli` class. It holds the tree in its `root` field. `register` and `load` replace that field, and `expand`, `command` and `describe` are methods with the source's loops.

Several operations take the per-level matching rule as a parameter `step`:

- the walk;
- the expansion;
- dispatch, completion and help.

`Walking.TreeMatch` instantiates it with `Node.Match`, and the `Cli` methods use that instance.

Inputs the source obtains from libraries are parameters of the model:

- The tokenised line (`shlex.split`, `iscli/cli.py:148-150`) is a `seq<string>` parameter.
- Both the raw line and its tokens are parameters of `describe`.
- Handlers are opaque numbers (`CliNode.Handler`).
- Converted values are `Value = Str(s) | Int(n)`.

The model follows these behaviours of the code as written:

- Re-registering an existing path keeps the OLD handler. `merge` merges the old root into the fresh tree, and `node.fn or self.fn` prefers the old one (`iscli/node.py:164`, `iscli/cli.py:79-83`).
- `cmdsplit` reports a stray `)`/`}` and a `|` outside every group as errors of their own (`StrayClose`, `StrayBar`). In the source these are an `IndexError` from the stack of lists. A close of the wrong kind is the failing `assert` (`WrongClose`). Only a group left open is the "unbalanced" `ValueError` (`Unclosed`).
- A help list shorter than the number of tokens makes `next(desc)` raise (`MissingHelp`). The text does not default to `''`.
- A token written directly before `(` or `{` is dropped, because `last` jumps past it (`Grammar.BracketDropsToken`).
- `describe` on an empty line raises when the root itself has a handler. This happens after an empty grammar was registered: `nodes[-1]` is taken on an empty tuple. The model reports this as `HelpFault`.

## Model

| member | source | states |
|---|---|---|
| Converter.CreateConverter | iscli/converter.py:28-35 | a keyword starting with an upper-case letter gets the variable converter (tried first); one starting with neither an upper-case letter nor `<` gets none |
| Converter.CreateConverterPrefix | iscli/converter.py:33-35 | the patterns only look at a prefix: appending anything to a keyword that selects a converter selects the same one |
| Converter.CreateConverterRange | iscli/converter.py:14-17 | a keyword beginning `<N-M>` selects the range converter with bounds N and M, whatever follows |
| Converter.RangeMatchRendered | iscli/converter.py:5 | the range pattern reads back both bounds of a written-out `<N-M>` |
| Converter.RangeMatchPrefix | iscli/converter.py:15-17 | once the range pattern matches, text after the `>` does not change the bounds |
| Converter.RangeMatchParts | iscli/converter.py:5 | `<` digits `-` digits `>` is matched with the decimal values of the two digit runs |
| Converter.RangeMatchForm | iscli/converter.py:5 | conversely, a match means the text starts with `<` digits `-` digits `>`, and the bounds are the values of those two digit runs |
| Converter.NoConverterExamples | iscli/converter.py:14-17 | `<abc>`, `<1->` and `<1-5` break the range pattern and `port` starts with neither `<` nor an upper-case letter, so none gets a converter |
| Converter.Apply | iscli/converter.py:8-11 | the variable converter accepts every argument and returns it unchanged; a converter that matches always yields a value |
| Converter.RangeAcceptsRendered | iscli/converter.py:19-22 | for every integer written out, the range converter yields that integer and matches exactly when it lies in [start, end], both ends included |
| Converter.RangeRejectsNonNumeric | iscli/converter.py:20-24 | an argument containing a character `int()` never accepts gives (no match, no value), with no error |
| Converter.RangeOneToTen | iscli/tests/test_cli.py:139-144 | `<1-10>` accepts 1 to 10 and rejects -123, -10, -5, -1, 0, 11 and 123 |
| Converter.ParseShowInt | iscli/converter.py:21 | `int()` reads back every integer written in decimal, negative ones included |
| Converter.ParseShowNat | iscli/converter.py:21 | `int()` reads back every natural number written in decimal |
| Converter.ParseShowNegative | iscli/converter.py:21 | `int()` reads back `-` followed by a natural number written in decimal |
| Converter.ParseDigits | iscli/converter.py:21 | `int()` of a non-empty run of digits is its decimal value |
| Converter.ParseNegativeDigits | iscli/converter.py:21 | `int()` of `-` and a non-empty run of digits is minus its decimal value |
| Converter.ParsedIsNumeric | iscli/converter.py:21-24 | `int()` succeeds only on text made of whitespace, signs and digits |
| Converter.DecimalShow | iscli/converter.py:17 | the decimal value of a number's written digits is the number |
| Converter.DigitRun | iscli/converter.py:5 | the `\d+` run at the start of a text: all digits, followed by a non-digit or the end |
| Text.StripSlice | iscli/node.py:224 | `strip()` keeps the slice of the text between its leading and its trailing run of whitespace |
| Text.StripRangeIsStrip | iscli/node.py:230 | the index-based strip of `cmdspec[last:i]` is `strip()` of that slice |
| Text.SortedSet | iscli/cli.py:141-145 | `sorted(set(...))`: strictly increasing, with exactly the members of the set |
| CliNode.StripDots | iscli/node.py:88 | `lstrip('.')`: only dots are removed, and the result does not start with one |
| CliNode.NewElement | iscli/node.py:85-98 | the keyword is the argspec without leading dots; the element is a vararg exactly when a dot was removed; its converter is chosen by the keyword; it is an argument when flagged so or when it has a converter |
| CliNode.MakeRoot | iscli/node.py:281-282 | a childless, handler-less node with keyword `_root` |
| CliNode.Leaf | iscli/node.py:196-199 | a node created by `setdefault` has no children and no handler |
| CliNode.Node.Match | iscli/node.py:140-158 | an exact child keyword gives just that child under the typed word; else a vararg node that parses the word gives itself; else the children's matches, never more entries than children |
| CliNode.Node.Scan | iscli/node.py:156-157 | every child that parses the word contributes its parsed value; every entry is a child that parses to its key; collisions collapse, so never more entries than children |
| CliNode.ParsePrefix | iscli/node.py:132-133 | a word that is a prefix of the keyword parses to the whole keyword |
| CliNode.ParseOther | iscli/node.py:134-138 | otherwise a parse can only succeed through the converter: the word itself or an integer |
| CliNode.MatchPlain | iscli/node.py:155-158 | without an exact child and without a vararg hit, `match` is the scan over the children |
| CliNode.ScanKeyword | iscli/node.py:156 | a child whose keyword starts with the word appears in the scan under that keyword |
| CliNode.ScanKeywordEntry | iscli/node.py:156 | that entry is the child itself |
| CliNode.ScanPlainChild | iscli/node.py:156-157 | a scan entry whose node has no converter is the child stored under its own keyword, and that keyword starts with the word |
| CliNode.MatchEmpty | iscli/node.py:156-158 | matching the empty word at a plain node gives every child under its keyword, and nothing else |
| CliNode.MatchEmptyVararg | iscli/node.py:152-153 | matching the empty word at a vararg node gives the node itself |
| CliNode.MatchUniquePrefix | iscli/node.py:155-158 | a word that only one child accepts matches just that child |
| CliNode.ScanUnique | iscli/node.py:156-157 | a word that only one child accepts scans to just that child |
| CliNode.ScanOnly | iscli/node.py:156-157 | when only one child accepts a prefix of its keyword, the scan's key is that keyword |
| CliNode.MatchSharedPrefix | iscli/node.py:155-158 | a word that abbreviates two child keywords matches both (at least two entries) |
| CliNode.ScanShared | iscli/node.py:156-157 | a word that abbreviates two child keywords scans to both |
| CliNode.Merged | iscli/node.py:160-171 | the merged node keeps its element, and its keys are the union of both key sets |
| CliNode.MergedChildren | iscli/node.py:166-171 | shared keys hold the merge of both children; keys of one side only keep that side's child |
| CliNode.MergedWellKeyed | iscli/node.py:160-171 | merging two trees whose children sit under their own keywords gives such a tree |
| CliNode.MergedPaths | iscli/node.py:160-171 | a path exists after the merge exactly when it existed in either tree; its handler is the argument's when set, else the receiver's |
| CliNode.Merge | iscli/node.py:160-171 | the two loops (shared keys, then adopted keys) compute `Merged` |
| CliNode.MergeShared | iscli/node.py:166-169 | the first loop: the receiver's children, with every key shared with the argument holding the merge of both children |
| CliNode.Adopt | iscli/node.py:170-171 | the second loop: the argument's children under the keys only it has are added, and every other entry is unchanged |
| Arrange.PermsCount | iscli/node.py:190 | `permutations(group, k)` of n distinct positions has n!/(n-k)! entries |
| Arrange.PermsSound | iscli/node.py:190 | each entry of `permutations(group, k)` is k distinct members of the group |
| Arrange.PermsComplete | iscli/node.py:190 | every sequence of k distinct members of the group is an entry |
| Arrange.ArrangementsCount | iscli/node.py:187-191 | a brace group of n branches expands into the sum over k = 1..n of n!/(n-k)! orders |
| Arrange.ArrangementsOfThree | iscli/node.py:37-52 | a brace group of three branches gives 15 orders |
| Arrange.ArrangementsExactly | iscli/node.py:187-191 | the orders are exactly the non-empty sequences of distinct branch positions |
| Arrange.FallingFactorial | iscli/node.py:189-190 | n!/(n-k)! is the falling factorial |
| Grammar.Consume | iscli/node.py:229-239 | `consume` leaves `last` and the nesting as they were, and can only fail by running out of help texts |
| Grammar.Pop | iscli/node.py:247-250 | closing fails exactly when no group is open (stray close) or the innermost open group is of the other kind (wrong close) |
| Grammar.Bar | iscli/node.py:267-272 | a bar fails exactly when no group is open, and otherwise keeps the nesting depth |
| Grammar.Push | iscli/node.py:241-245 | opening a group deepens the nesting by one |
| Grammar.RunStaysFailed | iscli/node.py:252-272 | once the scan has failed, later characters do not change the error |
| Grammar.SplitFailed | iscli/node.py:222-278 | the first error of the scan is the error of the whole `cmdsplit` |
| Grammar.CmdSplit | iscli/node.py:222-278 | the character loop with its stack of open groups computes `Split` |
| Grammar.RunNesting | iscli/node.py:252-272 | the scan's open groups follow the bracket nesting of the text read so far, and its errors are the nesting errors (or a missing help text) |
| Grammar.SplitBalance | iscli/node.py:247-250 | without help texts, `cmdsplit` succeeds exactly when the brackets and bars are balanced, and fails with the balance error |
| Grammar.SplitBalanceWithHelp | iscli/node.py:275-276 | unbalanced grammar always fails; a failure is a balance error or a help list that ran out |
| Grammar.SplitElements | iscli/node.py:229-237 | every element is one non-empty token without spaces, brackets or bars; it is an argument exactly when inside a group or when it has a converter |
| Grammar.SplitGrouped | iscli/node.py:241-245 | every group `cmdsplit` produces has at least one branch, since a group opens with an empty one |
| Grammar.SplitWords | iscli/node.py:222-278 | a specification without brackets or bars gives plain elements only, one per word in order: the non-empty stripped pieces between its spaces; without a help list it is never refused |
| Grammar.BracketDropsToken | iscli/node.py:253-255 | for one-character tokens `a`, `b` and `c`, `a(b|c)` splits into the group of `b` and `c` alone: the `a` before `(` is lost |
| Grammar.SplitHelp | iscli/node.py:223-234 | the j-th element gets the j-th help text (all `''` without a list), and a given list covers every element |
| TreeBuild.Alternatives | iscli/node.py:183-191 | every alternative a group expands into, followed by the rest, is smaller than the group plus the rest |
| TreeBuild.ParenPaths | iscli/node.py:185-186 | a paren group spells the paths of one of its branches followed by the rest |
| TreeBuild.BracePaths | iscli/node.py:187-193 | a brace group spells the paths of its branches concatenated in one of the orders, followed by the rest |
| TreeBuild.BuiltHandlers | iscli/node.py:173-200 | after `build`, exactly the paths the grammar spells out carry the new handler, and every other path keeps its old one |
| TreeBuild.BuiltKeeps | iscli/node.py:196-199 | `setdefault` never replaces a node: every existing path survives, with its element |
| TreeBuild.BuiltNodes | iscli/node.py:180-199 | after `build`, a path exists exactly when it existed before or the grammar spells an element there, and a new node carries one of the elements spelled there |
| TreeBuild.BuiltPaths | iscli/node.py:180-199 | for a grammar whose groups all have a branch, the built tree's paths are the old ones plus every prefix of a path the grammar spells |
| TreeBuild.BuiltWellKeyed | iscli/node.py:196-199 | building keeps every child under its own keyword, and keeps the start node's element |
| TreeBuild.Build | iscli/node.py:173-200 | the work-list loop, with its recursion per alternative, computes `Built` |
| Walking.Extend | iscli/cli.py:106-109 | each match becomes a candidate one word longer, with its node appended to the path, and nothing else |
| Walking.WalkStep | iscli/cli.py:98-103 | a word with a single match moves to that node and records the match |
| Walking.ForkStep | iscli/cli.py:104-109 | a word with several matches ends the walk with all of them, ignoring later words |
| Walking.WalkShape | iscli/cli.py:94-111 | expansions and nodes stay the same length; a fork offers at least two candidates, each one word longer than what was resolved |
| Walking.Lookahead | iscli/cli.py:114-122 | lookahead keys are the resolved line plus at most one word; the resolved line is a candidate exactly when its node has a handler |
| Walking.Exact | iscli/cli.py:124-128 | without lookahead a resolved line is its only candidate, and an empty line gives none |
| Walking.Expansion | iscli/cli.py:85-128 | every candidate has as many nodes as words, at most one more than the line's length; without lookahead none is empty |
| Walking.ExpansionOfNothing | iscli/cli.py:124-128 | an empty line without lookahead expands to nothing |
| Walking.ExpansionReached | iscli/cli.py:124-126 | a completed walk without lookahead expands to itself alone |
| Walking.ExpansionAhead | iscli/cli.py:114-122 | a completed walk with lookahead offers the matches of the empty word at its last node |
| Walking.ExpansionFork | iscli/cli.py:104-109 | a fork is the expansion with or without lookahead, and has at least two candidates |
| Walking.ExpansionAfterWord | iscli/cli.py:97-109 | one more word after a line that walks to a node gives one candidate per match of that word there, and every candidate ends in such a match |
| Walking.KeywordWalk | iscli/cli.py:97-103 | spelling out the keywords of an existing path walks to its node, resolving to those keywords |
| Walking.WalkAppend | iscli/cli.py:97-103 | a walk through a line that gets to its end goes on from where it stopped when more words follow |
| Walking.AbbreviatedStep | iscli/cli.py:97-103 | a word only one child accepts is expanded to that child's keyword and the walk goes on from it |
| Walking.SharedPrefixForks | iscli/cli.py:104-109 | a word abbreviating two child keywords forks with both as candidates |
| Walking.LookaheadChildren | iscli/cli.py:114-121 | at a plain node, lookahead offers every child under its keyword, plus the line itself when the node has a handler |
| Walking.LookaheadVararg | iscli/cli.py:114-121 | at a vararg node, lookahead offers the node itself again |
| Decisions.ArgPositions | iscli/cli.py:215-219 | the positions whose node is an argument, all of them, in increasing order |
| Decisions.ArgumentsAtPositions | iscli/cli.py:215-219 | the handler's arguments are the values at the argument positions, in order |
| Decisions.Choose | iscli/cli.py:206-222 | ambiguous exactly when several candidates; a call only when there is a single one |
| Decisions.Dispatched | iscli/cli.py:203-222 | a call never has more arguments than the line has words |
| Decisions.DispatchNothing | iscli/cli.py:205-208 | an empty line is unrecognized |
| Decisions.DispatchStops | iscli/cli.py:206-210 | a fork is ambiguous and a dead end is unrecognized |
| Decisions.DispatchReached | iscli/cli.py:211-222 | a completed walk calls its node's handler with the argument values, or is unrecognized when the node has none |
| Decisions.DispatchKeywords | iscli/cli.py:211-222 | spelling out an existing path calls exactly the handler at that path, and is unrecognized when there is none |
| Decisions.DispatchShared | iscli/tests/test_cli.py:132 | a first word that abbreviates two top-level keywords is ambiguous |
| Decisions.Completions | iscli/cli.py:130-146 | completions are strictly sorted, and an empty line has none |
| Decisions.CompleteNextLevel | iscli/cli.py:139-145 | after a blank word, the completions are exactly the converter-less child keywords of the node the line walks to |
| Decisions.CompleteWord | iscli/cli.py:139-145 | while a word is being typed at a plain node, the completions are exactly the converter-less child keywords that start with it |
| Decisions.Decide | iscli/cli.py:173-201 | unrecognized exactly when there are no candidates; ambiguous exactly when the exact expansion has several; a fault exactly when an empty candidate is reached |
| Decisions.DecideExact | iscli/cli.py:181-199 | with one exact expansion, `<cr>` is shown exactly when it is a candidate with a handler, and all other candidates are listed |
| Decisions.HelpCr | iscli/cli.py:181-199 | after a space, a line that walks to a node with a handler gets `<cr>`; a listing shows `<cr>` exactly then, and lists every other candidate |
| Decisions.HelpFork | iscli/cli.py:173-188 | a forking line after a space is ambiguous; otherwise all candidates are listed without `<cr>` |
| Decisions.HelpEmptyLine | iscli/cli.py:189-192 | an empty line faults when the root has a handler |
| Decisions.TrimQuestion | iscli/cli.py:239-241 | `rstrip('?')`: a prefix of the line, not ending in `?`, with only `?` removed |
| Decisions.Classify | iscli/cli.py:232-244 | a stripped empty line is blank; one ending in `?` asks for help on the line without its `?`s; any other runs as a command |
| Shell.Registered | iscli/cli.py:72-83 | registering fails exactly when `cmdsplit` fails, with its error; a success keeps the tree rooted and well keyed |
| Shell.RegisteredHandlers | iscli/cli.py:79-83 | every path keeps its old handler; a path without one gets the new handler exactly when the grammar spells it out; no path is lost |
| Shell.RegisteredRuns | iscli/cli.py:79-83 | after registering, typing any spelled-out path in full calls the new handler, unless the path already had one |
| Shell.Loaded | iscli/cli.py:62-70 | loading succeeds exactly when every grammar compiles, and keeps the tree rooted |
| Shell.LoadedKeeps | iscli/cli.py:62-70 | loading never takes away a handler the tree already had |
| Shell.Cli.constructor | iscli/cli.py:49-51 | a new shell holds the empty root and its prompt |
| Shell.Cli.Register | iscli/cli.py:72-83 | the root is replaced by the registered tree only on success; on failure the root is unchanged and the error is reported |
| Shell.Cli.Load | iscli/cli.py:62-70 | loads the registrations in order; on the first failure the root is restored to what it was before the first |
| Shell.Cli.Expand | iscli/cli.py:85-128 | computes `Expansion` with the tree's own matching rule |
| Shell.Cli.Command | iscli/cli.py:203-222 | computes `Dispatched`: unrecognized, ambiguous, or the single expansion's handler with its arguments |
| Shell.CollectArguments | iscli/cli.py:215-219 | the comprehension over matched values and nodes, as a loop, yields exactly `Arguments`, the values at argument nodes in order |
| Shell.Cli.Complete | iscli/cli.py:130-146 | completions are strictly sorted, and none for an empty line |
| Shell.Cli.Describe | iscli/cli.py:162-201 | computes `HelpFor` |
| Shell.WalkBy | iscli/cli.py:94-111 | the loop of `expand` computes `Walk` |
| Shell.ExpandBy | iscli/cli.py:85-128 | the walk followed by lookahead or the exact result computes `Expansion` |
| Shell.ListHelp | iscli/cli.py:189-199 | the loop over the candidates faults on an empty candidate; otherwise it lists `Entries` and sets `<cr>` exactly for the completed command with a handler |

## Left out

- `Cli.parse` (`shlex.split`): the model takes the tokens as a parameter.
- `Cli.commandloop`, `init_line_editor`, `out`, `emptyline`, `error_unrecognized`, `error_ambiguous`: these are terminal I/O, the line editor and printing. Only the classification of a line (`Decisions.Classify`) is modelled.
- `Cli.describe` prints its candidates with `sorted()`, whose order over tuples mixing text and integers relies on Python 2's cross-type ordering. The model returns the candidates as a map with their help texts and the `<cr>` flag, without an order.
- `Cli.command` calls the handler. The model returns the handler's id and its argument values (`Invoke`). What the handler does, its exceptions and the `ExitLoop` control flow are outside the model.
- `CommandSet` (`install`, `on_load`, `load_into`): this is registration glue that walks a dict in unspecified order. `Cli.Load` takes the registrations as an explicit sequence instead, and the `command_sets` argument of the constructor is not modelled.
- `**options` of `register` and `add`: these are unused by the core.
- `CliNode.lookup`: it is unused by the core.
- `CliNode.Merge`, `TreeBuild.Build`: the tree is a value, so in-place updates of nodes and the sharing of adopted subtrees between the old and the new tree (aliasing) are not captured. This is faithful to what `register` can observe, because only freshly built nodes are ever updated.
- `CliNode.Node.Scan`: when two children parse a word to the same value, the dict comprehension keeps whichever Python visits last. The model visits children in keyword order, so the child with the greatest keyword survives.
- `Walking.WalkStep`: `popitem` is modelled only on a single-entry dict, the one case in which the source uses it to pick a result.
- `Converter.ParseInt`: it models Python 2 `int()` on text as optional ASCII whitespace, an optional sign, optional whitespace, decimal digits and optional whitespace, with NUL rejected. Other Unicode digits, whitespace and `long` results are not modelled.
- A help list of `None` and an empty help list are both modelled as the empty sequence. The source treats them the same, giving `''` for every token.
