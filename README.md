# text2flow-demo: parser and edit state, in Dafny

The editor turns arrow-separated text such as `登录 → 验证短信 → 进入主页` into a
left-to-right chain of diagram boxes. This project models the component's own
logic in `src/App.jsx`:

- `parseTextToFlow` splits the text at `→` (U+2192) and trims each segment.
  Segment `i` becomes node `node-i`, placed at `(250·i, 100)` with type `custom`.
  Each consecutive pair of nodes gets an edge `edge-i` from `node-i` to `node-(i+1)`.
- `handleSubmit` parses the input text. An empty box is first filled with the sample `登录 → 验证短信 → 进入主页`.
- `onNodeChange` rewrites the label of the node with a given id.
- `onNodeDoubleClick` / `onNodeBlur` store, and clear, the single node id in edit mode.
  A node renders its inline editor iff its id is the stored one.

Files, one module each:

- `text.dfy` (`Text`): JavaScript's `split` with a one-character separator, `join` and `trim`.
  `trim` uses ECMAScript's whitespace and line-terminator set.
- `ids.dfy` (`Ids`): decimal spelling of indices and the `node-i` / `edge-i` ids, with injectivity.
- `flow.dfy` (`Flow`): the node and edge records, `Parse` and `PatchLabel`, and their lemmas.
- `app.dfy` (`App`): the component state as class `FlowApp`.
  Its methods `TypeText`, `Submit`, `DoubleClick`, `Blur` and `ChangeLabel` overwrite its fields as the handlers do.

A new parse discards every node, so one might expect it to clear edit mode as well. The code does not.
`handleSubmit` never calls `setEditingNode`, so the stored id survives a re-parse.
The model follows the code: `Submit` leaves `editing` as it was.
Two client methods show what follows:

- `StaleEditIdAfterResubmit`: the kept id can name no node at all.
- `StaleEditIdSelectsNewNode`: because new ids reuse `node-0`, `node-1`, …, the kept id can put a freshly generated node in edit mode.

Both are sequences of handler calls, not a sequence a user is known to produce in a browser.
The inline editor takes focus when it opens and calls the blur handler when it loses focus (src/CustomNode.jsx:13-14).
Reaching the submit button normally moves focus out of the editor first, which clears the id.

## Model

| member | source | states |
|---|---|---|
| Text.Split | src/App.jsx:32 | `split('→')` gives one more part than there are arrows (so at least one part, `[""]` for `""`), and no part contains an arrow |
| Text.Trim | src/App.jsx:32 | `trim` returns a slice of the segment with no whitespace at either end and only whitespace cut off around it |
| Text.TrimUnique | src/App.jsx:32 | that contract determines the result: any trimmed slice with only whitespace around it is `Trim`'s result |
| Text.TrimAround | src/App.jsx:32 | trimming a trimmed core padded with whitespace gives the core; a segment of only whitespace trims to `""` |
| Text.TrimOfTrimmed | src/App.jsx:32 | trimming is the identity on a string without surrounding whitespace |
| Text.TrimKeepsAbsent | src/App.jsx:32 | trimming cannot introduce an arrow into a segment |
| Text.JoinSplit | src/App.jsx:32 | joining the parts of `split` with the separator gives back the text |
| Text.SplitJoin | src/App.jsx:32 | splitting a join of arrow-free parts gives back the parts |
| Ids.NatToStringRoundTrip | src/App.jsx:34 | the decimal spelling of an index in `node-${index}` reads back as that index |
| Ids.NodeIdInjective | src/App.jsx:34 | `node-i` = `node-j` only when `i` = `j` |
| Ids.EdgeIdInjective | src/App.jsx:41 | `edge-i` = `edge-j` only when `i` = `j` |
| Flow.Steps | src/App.jsx:32 | one step per arrow plus one, each trimmed and arrow-free |
| Flow.Parse | src/App.jsx:30-50 | node count is the number of arrows plus one (never zero); edge count is node count minus one; every label is trimmed and arrow-free |
| Flow.ParseNodeAt | src/App.jsx:33-38 | node `i` has id `node-i`, label = trimmed segment `i`, position `(250·i, 100)`, type `custom` |
| Flow.ParseEdgeAt | src/App.jsx:40-44 | edge `i` is `edge-i` from `node-i` to `node-(i+1)` |
| Flow.ParseHasNodeId | src/App.jsx:32-38 | a parse contains a node `node-k` if and only if the text has at least `k` arrows (more than `k` steps) |
| Flow.LabelsOfStepNodes | src/App.jsx:33-38 | the generated nodes carry the steps as labels, in order |
| Flow.StepsWellFormed | src/App.jsx:33-44 | generated node ids are pairwise distinct, edge ids are pairwise distinct, and every edge endpoint names a generated node |
| Flow.ParseWellFormed | src/App.jsx:30-50 | the same holds for every parse result |
| Flow.ParseEmpty | src/App.jsx:32-44 | `""` parses to the single node `node-0` with an empty label at `(0, 100)` and no edge |
| Flow.StepsOfPadded | src/App.jsx:32 | segments made of whitespace, a trimmed core and whitespace yield exactly those cores as steps, a blank segment (as in `a →→ b`) giving the empty step |
| Flow.ParseJoinRoundTrip | src/App.jsx:32 | when no segment has surrounding whitespace, joining the labels with `→` reproduces the input |
| Flow.ParseOfJoin | src/App.jsx:32-38 | trimmed, arrow-free labels joined with `→` parse back to exactly those labels |
| Flow.ParseNormalForm | src/App.jsx:32-38 | re-parsing the `→`-joined labels of a parse gives the same labels |
| Flow.PatchLabel | src/App.jsx:81-94 | same length and order; every node keeps id, position and type; the label changes exactly on nodes whose id matches |
| Flow.PatchLabelUnknownId | src/App.jsx:83-92 | an id no node carries leaves the list unchanged |
| Flow.PatchLabelKeepsIds | src/App.jsx:84-91 | the id list is unchanged by a label patch |
| Flow.PatchLabelLastWins | src/App.jsx:79-97 | two successive changes to one node equal the later change alone |
| Flow.PatchLabelKeepsWellFormed | src/App.jsx:79-97 | a label patch keeps ids distinct and edge endpoints valid |
| App.SubmittedText | src/App.jsx:60 | an empty box yields exactly the sample `登录 → 验证短信 → 进入主页`; a non-empty box yields its own text; so the text parsed is never empty |
| App.DefaultSegments | src/App.jsx:60 | the sample splits into `登录 `, ` 验证短信 `, ` 进入主页` |
| App.DefaultSteps | src/App.jsx:60 | the sample's steps are `登录`, `验证短信`, `进入主页` |
| App.DefaultChain | src/App.jsx:33-44 | the steps `登录`, `验证短信`, `进入主页` give nodes `node-0..2` at x = 0, 250, 500 and edges `edge-0`, `edge-1` |
| App.ParseDefault | src/App.jsx:60-62 | submitting an empty box parses the sample to exactly three nodes and two edges |
| App.AtMostOneEditing | src/App.jsx:138 | with distinct node ids at most one rendered node has `isEditing`, and none when nothing is stored |
| App.FlowApp.constructor | src/App.jsx:22-25 | initial state: no nodes, no edges, empty box, nothing in edit mode |
| App.FlowApp.TypeText | src/App.jsx:155 | typing replaces the box's text and nothing else; the graph stays well formed |
| App.FlowApp.Submit | src/App.jsx:57-63 | empty box: the sample is written into it and parsed; otherwise the text is parsed unchanged; nodes and edges are replaced by the parse whatever they were; the edit id is untouched; the graph stays well formed |
| App.FlowApp.DoubleClick | src/App.jsx:65-70 | the clicked id becomes the only one in edit mode, whatever was stored before (last wins); the graph and text are unchanged, so it stays well formed |
| App.FlowApp.Blur | src/App.jsx:72-77 | no node is in edit mode afterwards; the graph and text are unchanged, so it stays well formed |
| App.FlowApp.ChangeLabel | src/App.jsx:79-97 | nodes become `PatchLabel` of the old nodes; edges, text and edit id are unchanged; the graph stays well formed |
| App.StaleEditIdAfterResubmit | src/App.jsx:57-63 | after editing node `k` and re-submitting a text with at most `k` steps, the returned ids are those of the new graph, the edit id is still `node-k`, and no node of the new graph has it |
| App.StaleEditIdSelectsNewNode | src/App.jsx:138 | after editing node `k` and re-submitting a text with more than `k` steps, node `k` of the new graph is the one in edit mode, and no other node is |

## Left out

- `exportToPNG` (src/App.jsx:99-131) is not modelled. It queries the DOM and calls `getViewportForBounds` and `toPng`, which are foreign library code with floating-point viewport math. It then triggers a download.
- `onConnect` / `addEdge` (src/App.jsx:52-55) is not modelled. The library decides the new edge's id and any de-duplication, and that code is not visible.
- `onNodesChange` / `onEdgesChange` (src/App.jsx:22-23) are not modelled, for the same reason. Drags, selection and deletion are library changes.
  Because of these two omissions, `FlowApp.Valid` (distinct ids, no dangling edge) is shown only for the handlers modelled here.
- Rendering (src/CustomNode.jsx, the JSX in src/App.jsx, src/index.jsx) is not modelled. The one piece of logic there is that Enter in the inline editor calls the blur handler (src/CustomNode.jsx:15-19). That is the same `Blur` event.
- `DoubleClick` and `ChangeLabel` accept any id, as the handlers in src/App.jsx do. In the UI only rendered nodes raise them. `onChange` is raised only by the node whose editor is open (src/CustomNode.jsx:8-20).
- `editingNode` holds the clicked node's data, not just its id. Only its `.id` is ever read (src/App.jsx:138), so the model stores `Option<string>`.
- Nodes carry only id, label, position and type. Any other fields the diagram library adds are not modelled. The spread in `onNodeChange` would keep them unchanged.
- Positions are integers. The parser only produces the exact values `250·i` and `100`.
- React's state batching and memoisation (`useCallback`, `useMemo`) are not modelled. `Submit` updates the box's text, the nodes and the edges in one atomic step. The `preventDefault` call has no modelled effect.
- Strings are sequences of Unicode scalar values, while JavaScript strings are sequences of UTF-16 code units. No modelled behaviour depends on the difference: `→` and every character `trim` removes are single code units in the Basic Multilingual Plane.
