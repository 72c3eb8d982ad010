# Component language server core, modelled in Dafny

This project models the core of a small language server for Angular-style
components (`4_LSP_Server/src/main.rs`). The server does three things that hold logic:

- **`find_node`** walks a tree-sitter cursor one way over an HTML syntax tree.
  It stops at the first node of a requested kind whose byte range contains the
  cursor offset. The range check includes the end byte.
- **`completion`** and the lookup in **`goto_definition`** combine `find_node`
  with the component index, a map from selector to component record.
  - On a tag name, completion offers every selector as a KEYWORD item.
  - On an attribute name, it looks up the text of the tag's first named child
    and offers that component's inputs and then its outputs. Each is a FIELD
    snippet item, `[x]="$0"` for inputs and `(x)="$0"` for outputs.
  - The definition lookup returns the recorded file and class-name range of the
    tag name under the offset.
- **`analyze_file`** turns the query matches of one TypeScript file into
  component records. A member goes to `inputs` iff its decorator is exactly
  `Input`; every other member goes to `outputs`. Each record is inserted under
  its selector. **`analyze_workspace`** does this for every file in glob order,
  so the last write for a selector wins.

Modules, one per concern of the source file:

- `Wrappers`: the `Option` type.
- `LspTypes`: positions, ranges, completion items, and the truncating
  `usize as u32` casts of `to_position`/`to_range`.
- `SyntaxTree`: the node datatype `Node(kind, named, start, end, children)`,
  node text as `doc[start..end]`, `named_child(0)`, and cursor paths.
- `TreeCursors`: a class `TreeCursor` holding a path of child indices, with
  `GotoFirstChild` and `GotoNextSibling`. As in tree-sitter, the node the
  cursor was created on has no siblings.
- `FindNodes`: `FindFrom`, the descent stated as a function, and `FindNode`,
  the cursor loop proved equal to it.
- `Snippets`: filling the `{}` hole of the two completion templates.
- `Components`: member sorting (`SortMembers`, a loop proved against
  `InputNames`/`OutputNames`), the index as a class `ComponentIndex`, and
  `AnalyzeFile`/`AnalyzeWorkspace`. These are proved equal to the folds
  `ApplyMatches`/`ApplyEntries`, and the lemmas about those folds give
  last-write-wins and "no entry is ever removed".
- `Completions` and `Definitions`: the two request handlers as functions over
  the tree, the document text and the index.
- `HtmlScenarios`: completion on three small HTML documents, with concrete trees.

Inputs that come from foreign code are parameters:

- the HTML syntax tree;
- the component and input/output query matches: per component, a selector,
  a class-name range and `(decorator, name)` member pairs;
- the cursor offset (the line/character-to-offset conversion is not modelled);
- the file URL;
- the order in which the index's hash map iterates, as a duplicate-free
  enumeration of its keys.

The model follows the code where it differs from the intended design of the system:

- Outputs get kind FIELD, not an event kind.
- Duplicate member names are kept.
- Index entries are never removed or replaced per file. `analyze_file` only
  inserts, and watched-file events (`main.rs:288-300`) only log, so there is no
  rescan or delete path to model.
- The attribute branch needs an `attribute_name` node under the offset. With no
  such node the result is empty, not the enclosing tag's inputs and outputs
  (`HtmlScenarios.TagBodyScenario`).

## Model

| member | source | states |
|---|---|---|
| `LspTypes.TruncateU32` | 4_LSP_Server/src/main.rs:52-53 | a value below 2^32 is kept exactly; any value keeps its residue modulo 2^32 (`as u32` drops the high bits) |
| `LspTypes.ToPosition` | 4_LSP_Server/src/main.rs:50-55 | row and column become line and character, unchanged when they fit in 32 bits and congruent to them modulo 2^32 otherwise |
| `LspTypes.ToRange` | 4_LSP_Server/src/main.rs:57-62 | the range's start is the tree-sitter start point's row and column and its end the end point's, exactly when they fit in 32 bits and modulo 2^32 otherwise; a range whose start point is at or before its end point, both fitting in 32 bits, stays ordered |
| `LspTypes.ToPositionWraps` | 4_LSP_Server/src/main.rs:52 | a row of 2^32 + 7 becomes line 7: the cast wraps |
| `SyntaxTree.Contains` | 4_LSP_Server/src/main.rs:177 | a node can contain an offset only if its range is well formed; its first byte and its end byte both count as inside; an offset before the start or past the end is outside |
| `SyntaxTree.Text` | 4_LSP_Server/src/main.rs:216 | the node text has length `end - start` and character `i` is document character `start + i` |
| `SyntaxTree.FirstNamedChild` | 4_LSP_Server/src/main.rs:215 | `named_child(0)` is present iff some child is named, and then it is the named child with no named child before it |
| `TreeCursors.TreeCursor.constructor` | 4_LSP_Server/src/main.rs:175 | a new cursor stands on the given node, and that node has no siblings |
| `TreeCursors.TreeCursor.Current` | 4_LSP_Server/src/main.rs:177-179 | `cursor.node()` lies in the subtree of the node the cursor was created on, and is that node while the cursor has not moved down |
| `TreeCursors.TreeCursor.GotoFirstChild` | 4_LSP_Server/src/main.rs:181 | moves iff the current node has children; the reachable siblings become exactly those children; otherwise the cursor is unchanged |
| `TreeCursors.TreeCursor.GotoNextSibling` | 4_LSP_Server/src/main.rs:185 | moves iff a later sibling exists; the reachable siblings lose their first element; otherwise the cursor is unchanged |
| `FindNodes.FirstContaining` | 4_LSP_Server/src/main.rs:184-188 | the sibling walk stops at the first node whose range, end byte included, contains the offset, and at none if no node contains it |
| `FindNodes.FindFrom` | 4_LSP_Server/src/main.rs:176-189 | any node found has a requested kind and contains the offset (end inclusive); a start node that contains the offset and has a requested kind is itself the result |
| `FindNodes.FindAmong` | 4_LSP_Server/src/main.rs:184-188 | a search from a node that may go on through its later siblings finds only nodes of a requested kind that contain the offset |
| `FindNodes.FindNode` | 4_LSP_Server/src/main.rs:174-190 | the cursor loop terminates and returns exactly `FindFrom` |
| `FindNodes.FindFromInSubtree` | 4_LSP_Server/src/main.rs:175-188 | a node found lies in the subtree of the start node |
| `FindNodes.FindFromDescent` | 4_LSP_Server/src/main.rs:176-189 | a node is found iff it has a requested kind and lies on the descent: each node on the way contains the offset, has no requested kind, and is entered at its first child that contains the offset |
| `FindNodes.FindFromNone` | 4_LSP_Server/src/main.rs:181-188 | `None` iff the start node does not contain the offset, or the descent reaches a node of the wrong kind that has no children or none that contains the offset |
| `Snippets.ReplaceHoles` | 4_LSP_Server/src/main.rs:210 | `replace("{}", x)`, read left to right without overlap; its effect is stated by `ReplaceHolesByHole`, `ReplaceHolesNoBrace`, `ReplaceSingleHole`, `InputSnippet` and `OutputSnippet` |
| `Snippets.ReplaceHolesByHole` | 4_LSP_Server/src/main.rs:210 | replacing every `{}` by `{}` gives the template back: only holes are rewritten |
| `Snippets.ReplaceHolesNoBrace` | 4_LSP_Server/src/main.rs:210 | a template without `{` is left unchanged by `replace("{}", x)` |
| `Snippets.ReplaceSingleHole` | 4_LSP_Server/src/main.rs:210 | with one `{}` between text that has no `{`, only the hole is replaced |
| `Snippets.InputSnippet` | 4_LSP_Server/src/main.rs:219 | the input template gives `[x]="$0"` |
| `Snippets.OutputSnippet` | 4_LSP_Server/src/main.rs:220 | the output template gives `(x)="$0"` |
| `Components.SortMembers` | 4_LSP_Server/src/main.rs:112-127 | the loop yields `inputs` = the names with decorator exactly `Input` and `outputs` = all other names, both in match order |
| `Components.SortAppend` | 4_LSP_Server/src/main.rs:116-125 | sorting the matches of `a + b` gives the lists of `a` followed by those of `b` (match order is kept) |
| `Components.SortPartitions` | 4_LSP_Server/src/main.rs:121-125 | inputs and outputs together hold every member name once, as multisets, duplicates kept; their lengths add up to the number of matches |
| `Components.InputNamesMembership` | 4_LSP_Server/src/main.rs:121-125 | a name is an input iff some match with that name has decorator `Input`; it is an output iff some match with that name has another decorator |
| `Components.NonExactInputIsOutput` | 4_LSP_Server/src/main.rs:38 | a decorator `ExtraInput` passes the unanchored `Input\|Output` filter but its member is sorted as an output |
| `Components.Assemble` | 4_LSP_Server/src/main.rs:130-136 | the record carries the match's selector and the file's URL, and its inputs and outputs together have one name per member match |
| `Components.ApplyMatches` | 4_LSP_Server/src/main.rs:103-138 | the index after `analyze_file`'s inserts, in match order; `AnalyzeFile` is proved to compute it, and the `ApplyMatches…` lemmas below state its keys, untouched keys, last write wins, keying by selector and idempotence |
| `Components.ApplyMatchesKeys` | 4_LSP_Server/src/main.rs:137 | after a file's inserts the keys are the old keys plus the file's selectors: nothing is removed |
| `Components.ApplyMatchesUntouched` | 4_LSP_Server/src/main.rs:137 | a key no match names keeps its entry, or stays absent |
| `Components.ApplyMatchesLastWins` | 4_LSP_Server/src/main.rs:103-138 | the last match with a selector decides its entry, assembled from that match |
| `Components.ApplyMatchesKeyed` | 4_LSP_Server/src/main.rs:137 | every entry stays stored under its own selector |
| `Components.ApplyMatchesIdempotent` | 4_LSP_Server/src/main.rs:103-138 | analysing the same matches for the same file a second time leaves the index unchanged |
| `Components.ApplyEntries` | 4_LSP_Server/src/main.rs:141-156 | the index after `analyze_workspace`, files in glob order and glob errors skipped; `AnalyzeWorkspace` is proved to compute it, and the `ApplyEntries…` lemmas below state untouched keys, last write wins, growth and keying by selector |
| `Components.ApplyEntriesUntouched` | 4_LSP_Server/src/main.rs:141-156 | a selector no scanned file declares keeps its entry, or stays absent |
| `Components.ApplyEntriesLastWins` | 4_LSP_Server/src/main.rs:141-156 | across files in glob order, the last match for a selector in the last file declaring it decides the entry |
| `Components.ApplyEntriesGrows` | 4_LSP_Server/src/main.rs:141-156 | the workspace scan never removes a key |
| `Components.ApplyEntriesKeyed` | 4_LSP_Server/src/main.rs:141-156 | the workspace scan keeps every entry under its own selector |
| `Components.ComponentIndex.constructor` | 4_LSP_Server/src/main.rs:400 | the index starts empty |
| `Components.ComponentIndex.Insert` | 4_LSP_Server/src/main.rs:137 | the entry for the component's selector becomes the component; no other key changes |
| `Components.AnalyzeFile` | 4_LSP_Server/src/main.rs:103-138 | the index afterwards is the old index with each match's record inserted in order (`ApplyMatches`) |
| `Components.AnalyzeWorkspace` | 4_LSP_Server/src/main.rs:141-156 | the index afterwards is every readable glob entry analysed in order, with glob errors skipped (`ApplyEntries`) |
| `Completions.SnippetItem` | 4_LSP_Server/src/main.rs:207-213 | the item is labelled with the element and is a FIELD snippet; with the input template it inserts `[x]="$0"`, with the output template `(x)="$0"` |
| `Completions.MakeCompletions` | 4_LSP_Server/src/main.rs:206-214 | one item per element, in order, labelled with it, kind FIELD, format SNIPPET, insert text the filled template |
| `Completions.KeywordItems` | 4_LSP_Server/src/main.rs:197-203 | one KEYWORD item per key in iteration order, labelled with that entry's selector |
| `Completions.KeywordItemsCount` | 4_LSP_Server/src/main.rs:197-203 | there are exactly as many keyword items as index entries |
| `Completions.KeywordItemsCover` | 4_LSP_Server/src/main.rs:197-203 | in an index keyed by selector every keyword label is a key, and every key is the label of some item |
| `Completions.KeywordItemsLabels` | 4_LSP_Server/src/main.rs:197-203 | in an index keyed by selector, item `i` is labelled with the `i`-th key of the iteration, so no label repeats |
| `Completions.Completion` | 4_LSP_Server/src/main.rs:192-226 | empty when no start or self-closing tag is found; off the tag name, also empty when there is no `attribute_name` hit or no named child |
| `Completions.CompletionUnknownTag` | 4_LSP_Server/src/main.rs:215-217 | empty when the tag's first named child's text is not a key of the index |
| `Completions.CompletionOnTagName` | 4_LSP_Server/src/main.rs:195-203 | on a tag name: one item per index entry, each KEYWORD without insert text; every label is a key, every key is a label, and no label repeats |
| `Completions.AttributeItems` | 4_LSP_Server/src/main.rs:218-221 | the input items followed by the output items; `AttributeItemsShape` states the count, the order and each item, and `AttributeItemsOfMatch` the labels of a record built by the analysis |
| `Completions.AttributeItemsShape` | 4_LSP_Server/src/main.rs:218-221 | `\|inputs\| + \|outputs\|` items; item `i` is input `i` with insert text `[x]="$0"`, then each output with `(x)="$0"`; all FIELD, format SNIPPET |
| `Completions.CompletionOnAttribute` | 4_LSP_Server/src/main.rs:215-222 | on an attribute name, when the text of the tag's first named child is a key, the result is that component's attribute items |
| `Completions.AttributeItemsOfMatch` | 4_LSP_Server/src/main.rs:218-221 | for a record built by the analysis, the attribute items are the `Input` members then the others, in match order, one per member match |
| `HtmlScenarios.PartialAttributeSearches` | 4_LSP_Server/src/main.rs:192-205 | in `<app-foo fo` at offset 11 the searches find the start tag, no tag name and an attribute name |
| `HtmlScenarios.PartialAttributeTagName` | 4_LSP_Server/src/main.rs:215-216 | the first named child of that start tag is its tag name, and the document text it spans is `app-foo` |
| `HtmlScenarios.FooInputItems` | 4_LSP_Server/src/main.rs:206-219 | the input `value` gives exactly one FIELD snippet item, inserting `[value]="$0"` |
| `HtmlScenarios.FooOutputItems` | 4_LSP_Server/src/main.rs:206-220 | the output `changed` gives exactly one FIELD snippet item, inserting `(changed)="$0"` |
| `HtmlScenarios.FooAttributeItems` | 4_LSP_Server/src/main.rs:218-221 | a component with input `value` and output `changed` gets exactly the items `[value]="$0"` and `(changed)="$0"`, both FIELD snippets, inputs first |
| `HtmlScenarios.AttributeScenario` | 4_LSP_Server/src/main.rs:192-226 | completion in `<app-foo fo` after `fo` returns exactly those two items |
| `HtmlScenarios.TagNameEndScenario` | 4_LSP_Server/src/main.rs:177 | completion in `<app-foo` right after the name (the end byte of `tag_name`) offers every selector as KEYWORD items |
| `HtmlScenarios.TagBodyScenario` | 4_LSP_Server/src/main.rs:205-225 | completion in `<app-foo >` in the tag body, on neither the name nor an attribute name, returns nothing |
| `Definitions.GotoDefinition` | 4_LSP_Server/src/main.rs:315-318 | no tag name under the offset gives no location; a location returned is the file and class-name range of some index entry |
| `Definitions.DefinitionResolves` | 4_LSP_Server/src/main.rs:315-318 | a location is returned iff the text of the tag name under the offset is a key, and then it is that entry's file and class-name range |
| `Definitions.DefinitionAfterScan` | 4_LSP_Server/src/main.rs:306-319 | after the workspace scan, a tag name resolves to the last declaring file and the class-name range of its last match for that selector |

## Left out

- Tree-sitter parsing and query evaluation (`Parser::parse`, `QueryCursor::matches`, the query strings at `main.rs:14-39`): a foreign library. Trees and match tuples are inputs. The `unwrap`s on captures (`main.rs:104-120`) are taken as always succeeding, because the match tuples carry every capture.
- The `#match? "Input|Output"` filter is not applied by the model. Member matches are taken as the query returns them, and `PassesInOutFilter` only documents the filter.
- File and workspace I/O: `fs::read_to_string` and its panic, `glob` and its pattern error (`main.rs:143`, `main.rs:152-154`), and building the `Url` from the path (`main.rs:128-132`). Files, URLs and glob entries are inputs.
- LSP and tower plumbing: `initialize`, capabilities, logging handlers, `tokio::spawn`, `main`. These are transport and async wiring.
- The `Backend` document and AST maps (`on_change`, `did_open`, `did_change`, `did_close`). These are editor-integration state around the foreign parser. `did_close` removes only the `document_map` entry (`main.rs:365`). For the same reason the `?` lookups of the document and tree in `goto_definition`/`completion` are not modelled.
- The ropey `try_line_to_char` offset computation (`main.rs:312-313`, `main.rs:329-330`). The offset is an input, and the document is taken to be ASCII, so char and byte offsets agree.
- Completions.Completion: ropey's `RopeSlice::as_str` returns `None` when a slice spans several internal chunks. The model always yields the text, because rope chunking is foreign.
- Definitions.GotoDefinition: the same `as_str` chunk case is not modelled.
- `DashMap`/`Arc` concurrency: the index is a sequential `map`, and `components.get` (`main.rs:217`, `main.rs:317`) is map membership and lookup. The hash map's iteration order is an input, so keyword items are stated per entry and not in a fixed order.
- `CompletionItem` fields the server leaves at their defaults: only the four it sets are modelled.
