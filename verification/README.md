# Reverse path trie and failure messages

This project is a Dafny model of two parts of `testing-results-parser`.

The first part is the **reverse path trie**. It resolves a partial or
differently rooted file path against a set of known paths.

- `reverse_components` splits a path on `/` and yields its segments basename first. It drops `.`. Each `..` cancels the next ordinary segment in that reversed order. A `..` with nothing left to cancel is dropped without an error.
- `ReverseFileTree` is a trie keyed by those components.
  - `insert` walks the components from the root, creating missing children, and appends the original string to the last node's `full_paths`.
  - `from_iter` inserts a sequence of paths in order.
  - `lookup` walks the query's components as far as they match and remembers the deepest non-empty `full_paths` it passes. When at least `min_matches + 1` components matched (1 when there is no `min_matches`), it also follows a run of only-children and appends the `full_paths` of the first non-empty node on it.

The second part is the **failure message** of `failure_message.rs`:

- `escape_failure_message`: seven replace-all steps in a fixed order.
- The per-match rewrite of `shorten_file_paths`: a path of more than three `/`-pieces becomes `.../` and its last three pieces.
- `generate_test_description` and `generate_failure_info`: the two cells of a table row.
- `build_message`: header, summary of the counts, table head, one row per failure, joined by line feeds.

Modules follow the source:

- `Components` and `FileTree` model `src/filetree/`.
- `Escape`, `Shorten`, `Cells` and `FailureMessage` model `src/failure_message.rs`.
- `Markup` holds the fixed texts of the markup.
- `Text` holds the string operations the Rust standard library provides: `split`, `join`, `replace`, decimal formatting.
- `Wrappers` holds `Option`.
- `ComponentsTests`, `FileTreeTests` and `FailureMessageTests` restate the repository's own test cases over the model.

Modelling choices:

- Components are `seq<string>`.
- The trie is the recursive datatype `Node(fullPaths, children: map<string, Node>)`.
- `reverse_components` is computed eagerly as a sequence.
- The trie operations are pure functions, so `lookup` cannot change the tree.
- The loops of `from_iter` and `lookup` are also written as methods, proved equal to the functions.
- The regular-expression scan of `shorten_file_paths` is a parameter, `findPaths`, giving the matches found in a message. Only the rewrite of each match is modelled.

### Where the code and its description disagree

A natural expectation of the trie is a round trip: looking up an inserted path `P` gives exactly `[P]`. The code does not give it, and the model follows the code:

- Forced completion can append a second node's paths. With `["a", "b/a"]`, looking up `a` gives both (`FileTreeTests.ExactMatchCompleted`).
- Duplicates are all returned. With `["a", "a"]`, looking up `a` gives `["a", "a"]` (`FileTreeTests.DuplicateInsert`).
- A path with no components is recorded at the root, and no lookup reads the root's paths: everything `lookup` answers is recorded one or more components below the root (`FileTree.LookupSkipsRoot`). With `["a/.."]`, looking up `a/..` gives nothing (`FileTreeTests.RootPathNeverFound`).

What the code does promise is proved instead:

- Every answer was inserted (`FileTree.LookupReturnsInserted`).
- An inserted path with at least one component is found again, together with every input that has the same components (`FileTree.LookupFindsInserted`).

The Python test of `build_message` passes the flake through a payload-level `flaky_tests` map. `Failure` reads a `flake` attribute of each failure instead (`src/failure_message.rs:202-208`). The model follows the Rust code: the flake belongs to the failure. Read that way, the test's own objects give no flaky row: its first failure has no flake of its own, so its row is the plain one, and it differs from the flaky row the test expects (`FailureMessageTests.FirstRowAsRead`). `FailureMessageTests.MessageOfTestPayload` moves the flake onto the first failure, and then the message is the one the test expects.

## Model

| member | source | states |
|---|---|---|
| Components.Normalize | src/filetree/components.rs:9-25 | no component the loop yields is `.` or `..` |
| Components.NormalizeSubsequence | src/filetree/components.rs:7-21 | the yielded components are the reversed segments with some left out, the rest kept in order |
| Components.ReverseComponentsShape | src/filetree/components.rs:5-26 | no component is `.` or `..` or holds `/`; the components are a subsequence of the reversed `/`-split; there are at most as many components as segments |
| Components.NormalizePlain | src/filetree/components.rs:11-21 | without `.` and `..` and with nothing pending, every segment is kept |
| Components.PlainPath | src/filetree/components.rs:7-21 | a path with no `.` or `..` segment gives exactly its `/`-split reversed |
| Components.NormalizeSnoc | src/filetree/components.rs:10-23 | one more segment at the end of the reversed order is processed with the `..` count left by the others |
| Components.NormalizeOne | src/filetree/components.rs:11-21 | the four cases of one segment: `.` leaves the count, `..` raises it, an ordinary segment lowers a positive count or is yielded when it is zero |
| Components.StepMatchesNormalize | src/filetree/components.rs:11-21 | one root-first step of the directory-stack reading matches one step of the tokenizer at the other end |
| Components.ResolveMatchesNormalize | src/filetree/components.rs:9-25 | resolving from any stack pops as many entries as `..` are left pending, then pushes the tokenizer's output, turned root first |
| Components.ReverseComponentsReference | src/filetree/components.rs:5-26 | the tokenizer equals the usual stack reading of `.` and `..` (`..` pops a directory if there is one), read basename first |
| Components.LeadingParentDropped | src/filetree/components.rs:13-16 | a leading `..` has nothing to cancel and disappears: `../p` has the components of `p` |
| Components.DotDropped | src/filetree/components.rs:12 | a `.` segment anywhere changes nothing: `a/./b` has the components of `a/b` |
| Components.NormalizeSkipsDot | src/filetree/components.rs:12 | a `.` between two runs of segments leaves the output and the pending `..` count alone |
| Components.ParentCancelsSegment | src/filetree/components.rs:13-20 | an ordinary segment followed by `..` cancels out: `p/x/..` has the components of `p` |
| ComponentsTests.BareFileName | src/filetree/components.rs:34-35 | `mod.rs` gives `["mod.rs"]` |
| ComponentsTests.DotsDropped | src/filetree/components.rs:37-38 | `./foo/./bar/mod.rs` gives `["mod.rs", "bar", "foo"]` |
| ComponentsTests.ParentCancelsOne | src/filetree/components.rs:40-41 | `./foo/../bar/mod.rs` gives `["mod.rs", "bar"]` |
| ComponentsTests.ParentsCancelAll | src/filetree/components.rs:43-44 | `foo/../bar/../mod.rs` gives `["mod.rs"]` |
| ComponentsTests.TwoParentsCancelTwo | src/filetree/components.rs:46-47 | `foo/bar/foobar/../../mod.rs` gives `["mod.rs", "foo"]` |
| ComponentsTests.SurplusParents | src/filetree/components.rs:13-16 | surplus `..` vanish: `a/../..` gives no component |
| ComponentsTests.DoubledSeparator | src/filetree/components.rs:7-21 | `a//b` gives the ordinary empty component: `["b", "", "a"]` |
| ComponentsTests.AbsoluteAndEmpty | src/filetree/components.rs:7-21 | `/a` gives `["a", ""]` and the empty path gives `[""]` |
| FileTree.New | src/filetree/mod.rs:19-21 | a new tree has no node but the root, and records nothing at any component sequence |
| FileTree.InsertPaths | src/filetree/mod.rs:23-31 | insertion appends the path after what was recorded at the end of its components, and records nothing anywhere else |
| FileTree.InsertHas | src/filetree/mod.rs:24-28 | insertion keeps every node and adds exactly the nodes on the prefixes of the components |
| FileTree.InsertOffPath | src/filetree/mod.rs:24-28 | a node that is off the insertion path, or lies below its end, is left exactly as it was |
| FileTree.FromIterPaths | src/filetree/mod.rs:73-79 | the built tree records at each component sequence exactly the inputs with those components, in input order, duplicates included |
| FileTree.FromIterHas | src/filetree/mod.rs:23-80 | the built tree has a node exactly at the root and at each prefix of an input's components, so no empty node dangles off the inserted paths |
| FileTree.FromIterStored | src/filetree/mod.rs:73-79 | a string is recorded somewhere in the built tree if and only if it is an input |
| FileTree.BuildTree | src/filetree/mod.rs:73-79 | the loop inserting the paths one at a time into a new tree builds the tree of the fold |
| FileTree.OnlyKey | src/filetree/mod.rs:57 | the key of a one-child map is its only key |
| FileTree.WalkSpec | src/filetree/mod.rs:39-50 | the walk stops at the node of a matching prefix whose next component is not a child, and remembers the deepest non-empty paths on that prefix, or nothing |
| FileTree.WalkMatchesLongestPrefix | src/filetree/mod.rs:39-50 | the walk matches the longest prefix of the components that leads to a node |
| FileTree.CompleteSound | src/filetree/mod.rs:56-62 | a non-empty completion is the paths of a node at the end of a run of only-children with nothing recorded in between |
| FileTree.CompleteFinds | src/filetree/mod.rs:56-62 | the first non-empty node on a run of only-children is what completion answers |
| FileTree.CompleteCharacterization | src/filetree/mod.rs:56-62 | completion answers something if and only if a run of only-children reaches a non-empty node, and then it answers that one node's paths |
| FileTree.LookupSpec | src/filetree/mod.rs:33-66 | the answer is the deepest non-empty paths on the longest matching prefix, followed by the completion from its end if and only if the prefix is at least `min_matches + 1` long (1 without `min_matches`) |
| FileTree.BelowThreshold | src/filetree/mod.rs:52-53 | below the threshold there is no completion |
| FileTree.NoFirstMatch | src/filetree/mod.rs:39-48 | a query with no component, or whose basename is not a child of the root, finds nothing |
| FileTree.ExactMatch | src/filetree/mod.rs:39-52 | for a query with at least one component: when its whole component sequence ends at a node with recorded paths, the answer starts with exactly those paths, whatever `min_matches` |
| FileTree.LookupSound | src/filetree/mod.rs:33-66 | everything lookup answers is recorded in the tree |
| FileTree.LookupSkipsRoot | src/filetree/mod.rs:33-66 | every answer of `lookup` is recorded at a component sequence of length at least one, so paths recorded only at the root are never answered |
| FileTree.LookupReturnsInserted | src/filetree/mod.rs:30-59 | every answer from a built tree is one of the inputs |
| FileTree.LookupFindsInserted | src/filetree/mod.rs:23-52 | an input with at least one component is in the answer to its own lookup, whatever `min_matches`, and so is every input with the same components |
| FileTree.MatchWalk | src/filetree/mod.rs:34-50 | the `for` loop with its early `break` computes the walk |
| FileTree.ForcedCompletion | src/filetree/mod.rs:56-62 | the `while` loop with its early return computes the completion |
| FileTree.LookupLoop | src/filetree/mod.rs:33-66 | lookup as written, with both loops, computes the lookup function |
| FileTreeTests.PlainTokens | src/filetree/components.rs:5-26 | a path joined from `/`-free pieces that are neither `.` nor `..` has exactly those pieces, reversed, as its components |
| FileTreeTests.TreeOfXyz | src/filetree/mod.rs:88 | the tree of `["x/y/z"]` is one insertion along `z`, `y`, `x` |
| FileTreeTests.LookupZ | src/filetree/mod.rs:90-109 | `z` and `R/z` find `x/y/z` when one match is enough, and nothing otherwise |
| FileTreeTests.LookupRyz | src/filetree/mod.rs:90-109 | `R/y/z` finds `x/y/z` when at most two matches are needed, and nothing otherwise |
| FileTreeTests.LookupXyz | src/filetree/mod.rs:90-109 | `x/y/z` and `w/x/y/z` find `x/y/z` for every `min_matches` |
| FileTreeTests.MinMatchesTable | src/filetree/mod.rs:87-113 | the fifteen cases of the `min_matches` test table |
| FileTreeTests.TreeOfModRs | src/filetree/mod.rs:117 | the tree of `["mod.rs"]` is the root with one leaf `mod.rs` |
| FileTreeTests.LookupBareName | src/filetree/mod.rs:117-119 | `mod.rs` finds `["mod.rs"]` |
| FileTreeTests.LookupNotFound | src/filetree/mod.rs:120-121 | `not-found` finds nothing |
| FileTreeTests.TreeOfFooBar | src/filetree/mod.rs:123 | the tree of `["foo/bar/mod.rs"]` is one insertion along `mod.rs`, `bar`, `foo` |
| FileTreeTests.LookupFollowsBranch | src/filetree/mod.rs:125-126 | `bar/mod.rs` is completed along the unambiguous branch to `foo/bar/mod.rs` |
| FileTreeTests.LookupFollowsBranchPastForeign | src/filetree/mod.rs:127-128 | `qux/baz/bar/mod.rs` stops matching at `baz` and is still completed to `foo/bar/mod.rs` |
| FileTreeTests.ExactMatchCompleted | src/filetree/mod.rs:52-62 | with `["a", "b/a"]`, looking up `a` gives both paths: an exact match is still completed |
| FileTreeTests.TreeOfDuplicate | src/filetree/mod.rs:23-31 | inserting `a` twice records it twice at the same node |
| FileTreeTests.DuplicateInsert | src/filetree/mod.rs:23-52 | with `["a", "a"]`, looking up `a` gives `["a", "a"]` |
| FileTreeTests.RootPathNeverFound | src/filetree/mod.rs:36-52 | the tree built from `["a/.."]` holds `a/..` at the root (`PathsAt(root, [])`), and looking `a/..` up finds nothing |
| Text.Split | src/failure_message.rs:56 | splitting gives one piece more than there are separators, and no piece holds one |
| Text.SplitJoin | src/failure_message.rs:56 | separator-free pieces joined by the separator split back into the same pieces |
| Text.JoinSplit | src/failure_message.rs:56-61 | the pieces of a split, joined by the separator, give the string back |
| Text.SplitConcat | src/filetree/components.rs:7 | the split of `a + "/" + b` is the split of `a` followed by the split of `b` |
| Text.ReplaceAll | src/failure_message.rs:27 | every character of a replace-all's result comes from the string or from the replacement |
| Text.ReplaceAbsent | src/failure_message.rs:27 | a pattern that does not occur leaves the string unchanged |
| Text.ReplaceCharAppend | src/failure_message.rs:27 | replacing one character distributes over concatenation |
| Text.ReplaceCharRemoves | src/failure_message.rs:27 | after replacing a character by a text without it, the character does not occur |
| Text.ReplaceWhole | src/failure_message.rs:62 | a string replaced in itself gives the replacement |
| Text.IntToDecimal | src/failure_message.rs:238-241 | the numeral is not empty and starts with `-` exactly for negative numbers |
| Text.IntToDecimalValue | src/failure_message.rs:238-241 | after the optional `-`, the numeral is decimal digits whose value is the number's magnitude |
| Text.DecimalRoundTrip | src/failure_message.rs:238-241 | reading back the numeral of a natural number gives the number |
| Text.NatToDecimalInjective | src/failure_message.rs:238-241 | different counts print differently |
| Escape.ReplaceFromAppend | src/failure_message.rs:26-28 | the remaining replacement steps distribute over concatenation |
| Escape.EscapeAppend | src/failure_message.rs:24-30 | escaping distributes over concatenation |
| Escape.EscapeQuote | src/failure_message.rs:14 | `"` comes out as `&amp;quot;` |
| Escape.EscapeApostrophe | src/failure_message.rs:15 | `'` comes out as `&amp;apos;` |
| Escape.EscapeLess | src/failure_message.rs:16 | `<` comes out as `&amp;lt;` |
| Escape.EscapeGreater | src/failure_message.rs:17 | `>` comes out as `&amp;gt;` |
| Escape.EscapeAmpersand | src/failure_message.rs:18 | `&` comes out as `&amp;` |
| Escape.EscapeCarriageReturn | src/failure_message.rs:19 | a carriage return disappears |
| Escape.EscapeLineFeed | src/failure_message.rs:20 | a line feed becomes `<br>`, which no later step touches |
| Escape.EscapePlain | src/failure_message.rs:24-30 | a character outside the table passes through unchanged |
| Escape.EntityChar | src/failure_message.rs:14-18 | an entity written by one of the first four steps has its `&` escaped by the fifth |
| Escape.EscapeOne | src/failure_message.rs:13-29 | the seven steps send each character to its entry of the hand-written per-character table |
| Escape.EscapeReference | src/failure_message.rs:13-29 | the seven steps in order equal escaping every character on its own |
| Escape.EscapeShape | src/failure_message.rs:13-29 | the result holds no `"`, `'`, carriage return or line feed, and holds exactly one `<` and one `>` per line feed of the input |
| Escape.EscapeUntouched | src/failure_message.rs:24-30 | a message without any of the seven characters comes back unchanged |
| Shorten.ShortenPathSpec | src/failure_message.rs:56-63 | a path with fewer than three separators is kept; a longer one becomes `.../` followed by the text after its third separator from the end, which holds exactly two separators |
| Shorten.ShortenedPieces | src/failure_message.rs:59-61 | the rewrite splits back into `...` and the three pieces kept |
| Shorten.ShortenPathIdempotent | src/failure_message.rs:56-63 | rewriting a rewritten path changes nothing |
| Shorten.SameLastThree | src/failure_message.rs:56-61 | two long paths with the same last three pieces are rewritten alike |
| Shorten.ShortenIgnoresHead | src/failure_message.rs:56-61 | whatever stands before a path of at least three separators does not change the rewrite |
| Shorten.ShortenFilePathsKeepsShort | src/failure_message.rs:52-66 | when no match has three separators, the message is unchanged |
| Shorten.ShortenWholeMessage | src/failure_message.rs:54-62 | a message that is one match is replaced by its rewrite |
| Cells.FlagItems | src/failure_message.rs:76-79 | one bullet `- flag` per flag, in order |
| Cells.FlagsSectionSingleLine | src/failure_message.rs:74-85 | flags without line feeds give a flags section without line feeds |
| Cells.FlakeTitle | src/failure_message.rs:93-96 | the title is "Newly Detected Flake" if and only if the flake is new, and "Known Flaky Test" otherwise |
| Cells.FlakePrefixesDescription | src/failure_message.rs:91-103 | a flake puts its title line in front of the unprefixed description |
| Cells.DescriptionSingleLine | src/failure_message.rs:68-104 | a suite, name and flags without line feeds give a description without line feeds |
| Cells.SymptomLines | src/failure_message.rs:119-133 | one symptom line per symptom, in order |
| Cells.SymptomLinesSingleLine | src/failure_message.rs:116-135 | the symptom lines hold no line feed |
| Cells.FlakePrefixesInfo | src/failure_message.rs:116-137 | a flake puts its symptom lines in front of the unprefixed failure info |
| Cells.FailureTextOfMessage | src/failure_message.rs:109-114 | a message is shortened, then escaped; with no long path and no escaped character it is shown as it is |
| Cells.FailureInfoSingleLine | src/failure_message.rs:106-138 | the failure info never holds a line feed, whatever the message |
| FailureMessage.Completed | src/failure_message.rs:237 | the total is the 32-bit sum of the three counts: congruent to the true sum modulo 2^32, and equal to it when it fits |
| FailureMessage.SummaryShowsCounts | src/failure_message.rs:233-241 | for counts of any sign whose sum fits in 32 bits, the summary shows the true total and the three counts, each with a `-` when negative; for counts none of which is negative, all four are unsigned numerals |
| FailureMessage.SummarySingleLine | src/failure_message.rs:238-241 | the summary holds no line feed |
| FailureMessage.MessageLines | src/failure_message.rs:229-262 | the lines are the header, the summary, the four lines of the table head and one row per failure, in order |
| FailureMessage.RowSingleLine | src/failure_message.rs:258-260 | a failure whose texts hold no line feed gives a row without one |
| FailureMessage.MessageSplitsIntoLines | src/failure_message.rs:229-264 | when no name, suite or flag holds a line feed, the message splits at its line feeds into exactly its lines |
| FailureMessageTests.EscapeEveryCharacter | tests/test_failure_message.py:57-60 | the seven characters in one message give `&amp;quot;&amp;apos;&amp;lt;&amp;gt;&amp;<br>` |
| FailureMessageTests.EscapeKeepsBackslashes | tests/test_failure_message.py:62-65 | backslashes and a written `\n` are kept; only the real line feed becomes `<br>` |
| FailureMessageTests.ShortPathKept | tests/test_failure_message.py:67-70 | `short/file/path.txt` is kept |
| FailureMessageTests.LongPathShortened | tests/test_failure_message.py:72-75 | `very/long/file/path/should/be/shortened.txt` becomes `.../should/be/shortened.txt` |
| FailureMessageTests.LeadingSlashShortened | tests/test_failure_message.py:77-80 | the same path with a leading `/` gives the same result |
| FailureMessageTests.DescriptionWithTwoFlags | src/failure_message.rs:74-89 | two flags give two bullets, each closed by a line break, inside the `<pre>` block |
| FailureMessageTests.PlainMessage | src/failure_message.rs:109-114 | a message with no path and no escaped character is shown as it is |
| FailureMessageTests.InfoWithoutMessage | src/failure_message.rs:107-108 | a failure without a message shows "No failure message available" in the `<pre>` block |
| FailureMessageTests.SummaryOfPayload | tests/test_failure_message.py:135-136 | counts 1, 2 and 3 give a total of 6 in the summary |
| FailureMessageTests.DescriptionOfFlakyTest | tests/test_failure_message.py:141 | the known flaky test's description cell |
| FailureMessageTests.InfoOfFlakyTest | tests/test_failure_message.py:141 | the known flaky test's failure cell: two symptom lines, then the message |
| FailureMessageTests.RowOfFlakyTest | tests/test_failure_message.py:141 | the known flaky test's row |
| FailureMessageTests.FirstRowAsRead | src/failure_message.rs:202-208 | the test's first failure, which carries no flake of its own, gets the plain row, and that row differs from the flaky row the test expects |
| FailureMessageTests.DescriptionOfPlainTest | tests/test_failure_message.py:142 | the plain test's description cell |
| FailureMessageTests.InfoOfPlainTest | tests/test_failure_message.py:142 | the plain test's failure cell |
| FailureMessageTests.RowOfPlainTest | tests/test_failure_message.py:142 | the plain test's row |
| FailureMessageTests.MessageOfTestPayload | tests/test_failure_message.py:82-142 | the test's message, line by line: header, summary, table head, the flaky row, the plain row |

## Left out

- The Python boundary is not modelled: the `FromPyObject` implementations, `PyResult`, `PyString` and the `#[pyfunction]` wrappers (`src/failure_message.rs:147-217`). It is type extraction in a foreign runtime. The model starts from the extracted `Failure`, `Flake` and `MessagePayload` values.
- The regular expression `SHORTEN_PATH_PATTERN` and its `find_iter` scan (`src/failure_message.rs:46-49,54`) are not modelled, because the regex engine is an external library. The matches are a parameter: `ShortenFilePaths` takes them as a sequence and `Cells.FailureText` takes a function `findPaths`.
- `src/lib.rs` registers the functions with Python and is not modelled. It also names `failure_message::escape_message`, which `failure_message.rs` does not define. That is module plumbing, and no behaviour attaches to it.
- The ordering of `BTreeMap` is not modelled. Forced completion only needs "exactly one child" and that child, which a Dafny `map` gives.
- The laziness of the `reverse_components` iterator is not modelled. The early `break` of `lookup` gives the same result on the eagerly computed sequence.
- Components.Normalize: the `skip` counter is an `i32` in the source and a `nat` here. Its overflow, which takes more than 2^31 `..` segments, is not modelled.
- FileTree.Threshold: `min_matches + 1` is computed on unbounded naturals. The `usize` overflow at `usize::MAX` is not modelled.
- FailureMessage.Completed: models the wrap-around of a release build. A debug build panics on overflow instead.
- Markdown is not escaped: a `|` in a test name ends the table cell in the source too. The model keeps that behaviour and states nothing about table structure beyond lines.
- The modules `junit`, `raw_upload`, `testrun`, `compute_name` and `helpers` are not part of this model. `helpers::s` is taken to be `String::from`.
