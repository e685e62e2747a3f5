# Aho–Corasick multi-pattern matcher, modelled in Dafny

This project models the automaton at the heart of the repository: `ahocorasick/aho_corasick.c` and `ahocorasick/node.c`, with the types of `ahocorasick/ac_types.h`, `ahocorasick/aho_corasick.h` and `lib/node.h`. The model then proves that the automaton finds exactly the occurrences of its patterns.

The automaton works in two phases:

- **Open phase.** Patterns (`STRING`, modelled as `AcTypes.Str`) are added one at a time. Each one is walked from the root, and the missing nodes are created along the way.
- **Closing.** `ac_automata_locate_failure` sets every failure link with a depth-first traversal. It then gives every node the patterns of its failure chain, sorts every node's edges and ends the open phase.
- **Closed phase.** `ac_automata_search` can now scan text. It may be called repeatedly on consecutive chunks of one stream. The node reached and the number of symbols consumed are kept between calls, and `ac_automata_reset` returns them to the root.

Each match is recorded and handed to a callback. A nonzero answer from the callback stops the search.

## How the model is built

- **`AcNode`** (`node.dfy`) models the node.
  - `class Node` has the node's fields: `final`, `failure`, `depth`, the `matched` list, the `outgoing` edge list and its two capacity counters.
  - `NodeV` is the node as a value.
  - Node references become arena indices. An `Edge` is a symbol plus the index of the target node.
- **`AhoCorasick.Automaton`** (`automaton.dfy`) models the automaton.
  - The node arena `all_nodes` is a sequence of `Node` objects.
  - Ghost fields mirror the arena as values (`view`) and explain it: `paths[v]` is the symbol path that spells node `v`, `parent[v]` is the node `v` hangs from, `patterns` lists the added patterns and `ends` gives the node where each pattern ends.
  - `history` holds the symbols consumed since the last reset.
- **`Trie`** (`trie.dfy`) states, on values, the properties the arena keeps:
  - the shape of the trie;
  - the failure links as longest proper suffixes;
  - the matched lists as unions over the failure chain.
- **`Scanning`** (`scan.dfy`) gives the search loop as a function, `Scan`, from a start node and a text to an `Outcome` (reports, end node, symbols consumed, stopped).
- **`Matching`** (`matching.dfy`) defines a naive reference.
  - `Occurrences` lists, after every symbol, the patterns that end there, longest first.
  - `ScanFinds` proves that the automaton's search produces exactly that list.

A few behaviours of the code are worth spelling out:

- **Long patterns.** A pattern longer than `AC_PATTRN_MAX_LENGTH` (256) is refused with `ACERR_LONG_STRING`. The comment above `ac_automata_add_string` says such a pattern is cropped; the model follows the code.
- **Duplicate check by length.** `node_has_matchstr` compares a new pattern only by length, because the `continue` inside its symbol-by-symbol loop only continues that loop, which therefore always runs to the end, so every entry of the same length counts as equal. `AcNode.Node.HasMatchStr` models this as written (`LengthListed`). In this automaton it never changes a result: every list it is asked about holds suffixes of one node's path, and two suffixes of one word with the same length are equal. `Trie.UnionCollects` and `Matching.CollectIsSuffixList` rely on this.
- **No phase check in `ac_automata_locate_failure`.** `AhoCorasick.Automaton.LocateFailure` accepts both phases. On a closed automaton it recomputes the same links and lists.

## Model

| member | source | states |
|---|---|---|
| AcNode.Node.constructor | ahocorasick/node.c:48-77 | a new node is not final, has no failure link, depth 0, no patterns and no edges, and the initial capacities of 8 |
| AcNode.Node.FindNext | ahocorasick/node.c:102-113 | the result is the target of the first edge labelled with the symbol, or none when no edge has it |
| AcNode.Node.FindBsNext | ahocorasick/node.c:124-145 | the binary search only returns an existing edge's target, and on sorted edges it agrees with the linear search |
| AcNode.FindIsFirstMatch | ahocorasick/node.c:102-113 | the linear lookup finds nothing exactly when no edge carries the symbol, and otherwise returns the first edge that does |
| AcNode.FindPermutation | ahocorasick/node.c:291-295 | reordering edges with distinct symbols does not change any lookup, so sorting preserves the transitions |
| AcNode.Node.HasMatchStr | ahocorasick/node.c:155-176 | the answer is true exactly when a pattern of the same length is already listed |
| AcNode.Node.CreateNext | ahocorasick/node.c:185-197 | with an edge for the symbol already present nothing changes and no node is returned; otherwise a fresh node (depth 0; the caller sets the depth) is returned and an edge to it is appended |
| AcNode.Node.RegisterMatchStr | ahocorasick/node.c:206-224 | a pattern is appended to the matched list, growing capacity by one chunk when full, unless one of equal length is already there, in which case nothing changes |
| AcNode.Node.RegisterOutgoing | ahocorasick/node.c:233-244 | the edge is appended after the existing ones and capacity grows by one chunk exactly when the list was full |
| AcNode.EdgeCompare | ahocorasick/node.c:267-283 | the comparator never answers 0 and is negative exactly when the left symbol is smaller, so it is antisymmetric on distinct symbols and answers 1 both ways on equal ones |
| AcNode.SortedEdgesElements | ahocorasick/node.c:291-295 | sorting keeps exactly the same edges (a permutation) |
| AcNode.SortedEdgesOrdered | ahocorasick/node.c:291-295 | sorted edges are in ascending symbol order, strictly so when the symbols were distinct |
| AcNode.Node.SortEdges | ahocorasick/node.c:291-295 | the node's edge list becomes its sorted permutation and nothing else about the node changes |
| AhoCorasick.Automaton.constructor | ahocorasick/aho_corasick.c:48-59 | a new automaton has a root alone in the arena, accepts patterns, has no patterns, and the search state is at the root with nothing consumed |
| AhoCorasick.Automaton.Reset | ahocorasick/aho_corasick.c:69-73 | the search state returns to the root with nothing consumed and an empty history, so the next search reports the same matches as the first search after closing |
| AhoCorasick.Automaton.RegisterNodePtr | ahocorasick/aho_corasick.c:82-91 | the node is appended to the arena and capacity grows by 200 exactly when the arena was full |
| AhoCorasick.Automaton.AddString | ahocorasick/aho_corasick.c:108-149 | errors come in the order closed, empty, too long, duplicate, and any error leaves the automaton unchanged; on success the pattern is appended, the count goes up by one, old nodes keep their paths, the nodes added are new objects, and every prefix of the pattern is spelled by some node |
| AhoCorasick.Automaton.WalkCreating | ahocorasick/aho_corasick.c:124-139 | the walk ends at the node that spells the pattern; new nodes are fresh and spell prefixes of it; and for a pattern already added nothing changes |
| AhoCorasick.Automaton.Step | ahocorasick/aho_corasick.c:126-138 | one walk step reaches the child spelling the path plus the symbol, and changes nothing when the edge already exists |
| AhoCorasick.Automaton.AppendChild | ahocorasick/aho_corasick.c:134-137 | a fresh child one level deeper is registered at the end of the arena, and its parent gains exactly one edge to it |
| AhoCorasick.Automaton.MarkFinal | ahocorasick/aho_corasick.c:144-146 | the node spelling the new pattern becomes final with exactly that pattern in its list, and the pattern is recorded as ending there |
| AhoCorasick.Automaton.LocateFailure | ahocorasick/aho_corasick.c:255-271 | afterwards the automaton is closed: every failure link is the longest proper suffix that is a trie path, every node lists the patterns of its failure chain, edges are sorted, patterns are refused, and no node is added |
| AhoCorasick.Automaton.Seal | ahocorasick/aho_corasick.c:270 | lowering the acceptance flag after linking leaves a valid closed automaton |
| AhoCorasick.Automaton.LinkAll | ahocorasick/aho_corasick.c:261 | the traversal from the root sets a correct failure link on every node below the root and changes nothing else |
| AhoCorasick.Automaton.CloseNodes | ahocorasick/aho_corasick.c:263-268 | after the loop over the arena every node lists what its failure chain matches, and its edges are the sorted permutation of the linked trie's |
| AhoCorasick.Automaton.SortNodeEdges | ahocorasick/aho_corasick.c:267 | only that node's edge list changes, to its sorted permutation |
| AhoCorasick.Automaton.DfsTraverse | ahocorasick/aho_corasick.c:230-246 | every node below the visited one gets its correct failure link, and nothing else in the trie changes |
| AhoCorasick.Automaton.DfsChild | ahocorasick/aho_corasick.c:237-244 | visiting one child links that child's subtree and keeps the path prefix in the symbol buffer |
| AhoCorasick.Automaton.SetFailure | ahocorasick/aho_corasick.c:202-220 | only the node's failure link changes, and it becomes the node of the longest proper suffix of its path that the trie spells, else the link already set, else the root |
| AhoCorasick.Automaton.SuffixSearch | ahocorasick/aho_corasick.c:207-217 | the result is the first node reached by a proper suffix of the path, trying the longest suffix first |
| AhoCorasick.Automaton.WalkSuffix | ahocorasick/aho_corasick.c:209-211 | the inner walk reaches exactly the node spelling that stretch of the buffer, if one exists |
| AhoCorasick.Automaton.UnionMatchStrs | ahocorasick/aho_corasick.c:180-193 | only the node's matched list and final flag change, to the union along its failure chain |
| AhoCorasick.RegisterAll | ahocorasick/aho_corasick.c:187-188 | registering another node's patterns one by one gives the register-each result over that list |
| AhoCorasick.Automaton.Search | ahocorasick/aho_corasick.c:281-330 | while patterns are still accepted nothing happens; otherwise the reports are exactly the occurrences of the patterns in the consumed symbols, with the history carried over from earlier calls; the state resumes where it stopped; and the last report is the saved match record |
| AhoCorasick.Automaton.SearchClosed | ahocorasick/aho_corasick.c:292-329 | the loop's reports and new state follow `Scan` and equal the reference occurrences, and position = consumed + base |
| AhoCorasick.Automaton.Advance | ahocorasick/aho_corasick.c:328-329 | the saved node and position advance by what was consumed, and the automaton stays consistent with its history |
| AhoCorasick.Automaton.SearchLoop | ahocorasick/aho_corasick.c:298-325 | the loop's reports, end node and consumed count are those of `Scan` from the saved state, and the match record is the last report |
| AhoCorasick.Automaton.SearchStep | ahocorasick/aho_corasick.c:300-324 | each iteration does exactly one of three things: with an edge for the next symbol it moves to the target and consumes the symbol, reporting (position = consumed + base, the target's list) exactly when the target is final; with no edge it follows the failure link without consuming or reporting; with neither (the root has no link) it skips the symbol without reporting. It stops exactly when it reported and the callback answered nonzero |
| Scanning.Scan | ahocorasick/aho_corasick.c:298-325 | the search as a function: a stop happens only after a report the callback answered nonzero, and a run without a stop consumes all the text |
| Scanning.ScanConcat | ahocorasick/aho_corasick.c:327-329 | searching x and then y from the saved state reports the same as one search of x+y, offset by the symbols consumed |
| Scanning.ScanPositions | ahocorasick/aho_corasick.c:318 | each position reported lies after the base and at most base + consumed, and the positions strictly increase |
| Scanning.ClosedLinked | ahocorasick/aho_corasick.c:255-271 | once closed, edge targets stay in the arena, failure links lead to strictly shorter paths (so the search loop terminates), and every edge list is strictly sorted, as the binary search needs |
| Scanning.ResumesEdge | ahocorasick/aho_corasick.c:307-324 | taking an edge keeps the loop's state on track with `Scan` |
| Scanning.ResumesFollow | ahocorasick/aho_corasick.c:302-303 | following a failure link keeps the loop's state on track with `Scan` |
| Scanning.ResumesSkip | ahocorasick/aho_corasick.c:304-305 | skipping a symbol at the root keeps the loop's state on track with `Scan` |
| Scanning.ResumesEnd | ahocorasick/aho_corasick.c:298 | when the text runs out, the loop's state is the whole `Scan` outcome |
| Trie.WalkIffPath | ahocorasick/aho_corasick.c:124-139 | walking a word from the root reaches node v exactly when v spells that word |
| Trie.PatternStep | ahocorasick/aho_corasick.c:126-130 | inside an added pattern, every node on its path has an edge for the next symbol |
| Trie.FinalIffPattern | ahocorasick/aho_corasick.c:141-146 | in the open trie, a node is final exactly when an added pattern spells it |
| Trie.FirstSuffixNodeIsLink | ahocorasick/aho_corasick.c:202-220 | the suffix search gives the node of the longest proper suffix that is a trie path, and the root when no suffix is |
| Trie.FailureAfterIsLink | ahocorasick/aho_corasick.c:207-219 | unless a wrong link was already set, the link set_failure leaves is the longest-proper-suffix link |
| Trie.FailureLinkUnique | ahocorasick/aho_corasick.c:202-220 | each node has only one failure link |
| Trie.CollectSuffixes | ahocorasick/aho_corasick.c:180-193 | what a node collects along its failure chain is exactly the added patterns that are suffixes of its path |
| Trie.UnionCollects | ahocorasick/aho_corasick.c:180-193 | the union along the chain, built with the length-only duplicate check, equals that collection |
| Trie.ClosedDetermined | ahocorasick/aho_corasick.c:263-268 | a closed trie is determined by its paths and patterns, so the order of the arena does not affect the result of closing |
| Trie.LinksBeforeSearch | ahocorasick/aho_corasick.c:230-246 | every link present before the traversal is already a correct one, so re-linking a closed automaton is harmless |
| Trie.ClosingDone | ahocorasick/aho_corasick.c:263-268 | after the loop over every node the trie is closed and each edge list is the sorted permutation of the linked one |
| Matching.SuffixListMember | ahocorasick/aho_corasick.c:180-193 | a pattern is in the reference list for a word exactly when it was added, is nonempty and is a suffix of the word |
| Matching.CollectIsSuffixList | ahocorasick/aho_corasick.c:180-193 | the list a node collects along its failure chain is the reference list of its path, longest first |
| Matching.NodeList | ahocorasick/aho_corasick.c:313-320 | the node a search stands in after some text lists exactly the patterns that end there, and it is final exactly when that list is nonempty |
| Matching.BoundEdge | ahocorasick/aho_corasick.c:307-310 | taking the edge for the next symbol reaches the longest suffix of the extended text that the trie spells |
| Matching.BoundFailure | ahocorasick/aho_corasick.c:302-303 | following a failure link skips no shorter suffix that could still be extended |
| Matching.BoundRoot | ahocorasick/aho_corasick.c:304-305 | skipping a symbol at the root leaves the root as the longest suffix |
| Matching.OccurrencesConcat | ahocorasick/aho_corasick.c:327-329 | the reference occurrences of x+y are those of x followed by those of y after x |
| Matching.ScanFinds | ahocorasick/aho_corasick.c:281-330 | on a closed automaton the search from the state of a history reports exactly the reference occurrences of the consumed text, and ends in the state of the extended history |

## Left out

- `ac_automata_release` and `node_release` (`ahocorasick/aho_corasick.c:158-170`, `ahocorasick/node.c:86-91`) are left out. They free memory, and Dafny has no explicit deallocation.
- `ac_automata_dbg_show` and `node_assign_id` are left out. They are debugging output and a debug numbering.
- Allocation failure is not modelled. `malloc` and `realloc` become capacity counters that grow by the source's chunk sizes.
- `qsort` is modelled by an insertion sort with the same comparator. The model states the result, a sorted permutation, rather than the library's algorithm.
- Pattern texts are values. The source keeps pointers to the caller's `STRING`, and aliasing or later mutation of that memory is not captured.
- The callback is a pure function of the match and the two integer arguments. Its side effects on the caller's state are not modelled.
- Positions and counters are unbounded integers. The source's `unsigned long` and `int` limits are not modelled.
- The command-line drivers, the examples, the serial and parallel drivers, file I/O and threads are not part of this model.
- AhoCorasick.Automaton.constructor: the flag and counters are set before the root is registered. The source initialises them after registering it, and no step reads them in between.
- AhoCorasick.Automaton.AddString: a pattern longer than 256 symbols is refused with `LongString`, as the code does, not cropped as the comment above `ac_automata_add_string` says.
