/**
 * The flow graph and its two pure transforms: `parseTextToFlow`, which turns
 * arrow-separated text into a left-to-right chain of nodes and edges, and the
 * label patch applied by `onNodeChange`.
 */
module Flow {
  import opened Text
  import opened Ids

  datatype Position = Position(x: int, y: int)

  /** A diagram box: `{ id, data: { label }, position, type }`; `caption` is `data.label`. */
  datatype Node = Node(id: string, caption: string, position: Position, kind: string)

  /** A directed connector between two nodes, named by their ids. */
  datatype Edge = Edge(id: string, source: string, target: string)

  /** What one parse installs: the node list and the edge list. */
  datatype Graph = Graph(nodes: seq<Node>, edges: seq<Edge>)

  /** The node type that selects the custom rendering template. */
  const CustomKind: string := "custom"
  /** Horizontal distance between consecutive steps. */
  const Spacing: int := 250
  /** The row every parsed node is placed on. */
  const Row: int := 100

  function NodeIds(nodes: seq<Node>): seq<string>
  {
    seq(|nodes|, i requires 0 <= i < |nodes| => nodes[i].id)
  }

  function Labels(nodes: seq<Node>): seq<string>
  {
    seq(|nodes|, i requires 0 <= i < |nodes| => nodes[i].caption)
  }

  /** No two nodes share an id, no two edges share an id, and every edge joins two nodes of the list. */
  ghost predicate WellFormed(nodes: seq<Node>, edges: seq<Edge>)
  {
    (forall i, j :: 0 <= i < j < |nodes| ==> nodes[i].id != nodes[j].id) &&
    (forall i, j :: 0 <= i < j < |edges| ==> edges[i].id != edges[j].id) &&
    (forall k :: 0 <= k < |edges| ==> edges[k].source in NodeIds(nodes) && edges[k].target in NodeIds(nodes))
  }

  /**
   * `text.split('→').map(step => step.trim())`: one step per arrow-separated
   * segment, each without surrounding whitespace and without an arrow.
   */
  function Steps(text: string): (steps: seq<string>)
    ensures |steps| == Count(text, Arrow) + 1
    ensures forall i :: 0 <= i < |steps| ==> Trimmed(steps[i]) && Arrow !in steps[i]
  {
    var parts := Split(text, Arrow);
    forall i | 0 <= i < |parts| ensures Arrow !in Trim(parts[i]) {
      TrimKeepsAbsent(parts[i], Arrow);
    }
    seq(|parts|, i requires 0 <= i < |parts| => Trim(parts[i]))
  }

  /** The node the parser makes for step `i`. */
  function StepNode(i: nat, step: string): Node
  {
    Node(NodeId(i), step, Position(Spacing * i, Row), CustomKind)
  }

  /** The edge the parser makes from step `i` to step `i + 1`. */
  function StepEdge(i: nat): Edge
  {
    Edge(EdgeId(i), NodeId(i), NodeId(i + 1))
  }

  /** All but the last element, as `slice(0, -1)` gives it (empty for an empty list). */
  function DropLast<T>(s: seq<T>): (r: seq<T>)
    ensures |s| > 0 ==> |r| == |s| - 1
  {
    if |s| == 0 then [] else s[..|s| - 1]
  }

  /** `steps.map((step, index) => ...)`: the node list for the given steps. */
  function StepNodes(steps: seq<string>): seq<Node>
  {
    seq(|steps|, i requires 0 <= i < |steps| => StepNode(i, steps[i]))
  }

  /** `steps.slice(0, -1).map((_, index) => ...)`: the edge list for the given steps. */
  function StepEdges(steps: seq<string>): seq<Edge>
  {
    var pairs := DropLast(steps);
    seq(|pairs|, i requires 0 <= i < |pairs| => StepEdge(i))
  }

  /**
   * `parseTextToFlow`: one node per step and one edge per consecutive pair of
   * steps. There is always at least one node, even for the empty text.
   */
  function Parse(text: string): (g: Graph)
    ensures |g.nodes| == Count(text, Arrow) + 1
    ensures |g.edges| == |g.nodes| - 1
    ensures forall i :: 0 <= i < |g.nodes| ==> Trimmed(g.nodes[i].caption) && Arrow !in g.nodes[i].caption
  {
    var steps := Steps(text);
    Graph(StepNodes(steps), StepEdges(steps))
  }

  /** The generated nodes carry the steps as their labels, in order. */
  lemma LabelsOfStepNodes(steps: seq<string>)
    ensures Labels(StepNodes(steps)) == steps
  {
  }

  /** Node `i` is `node-i`, labelled with trimmed segment `i`, at `(250 * i, 100)`, of the custom type. */
  lemma ParseNodeAt(text: string, i: nat)
    requires i < |Parse(text).nodes|
    ensures var n := Parse(text).nodes[i];
      n.id == NodeId(i) && n.caption == Trim(Split(text, Arrow)[i]) &&
      n.position == Position(250 * i, 100) && n.kind == "custom"
  {
  }

  /** Edge `i` is `edge-i` from `node-i` to `node-(i+1)`. */
  lemma ParseEdgeAt(text: string, i: nat)
    requires i < |Parse(text).edges|
    ensures Parse(text).edges[i] == Edge(EdgeId(i), NodeId(i), NodeId(i + 1))
  {
  }

  /** A parse has a node `node-k` exactly when the text has at least `k` arrows, i.e. more than `k` steps. */
  lemma ParseHasNodeId(text: string, k: nat)
    ensures NodeId(k) in NodeIds(Parse(text).nodes) <==> k <= Count(text, Arrow)
  {
    var ids := NodeIds(Parse(text).nodes);
    if k <= Count(text, Arrow) {
      ParseNodeAt(text, k);
      assert ids[k] == NodeId(k);
    } else {
      forall j | 0 <= j < |ids| ensures ids[j] != NodeId(k) {
        ParseNodeAt(text, j);
        if ids[j] == NodeId(k) {
          NodeIdInjective(j, k);
        }
      }
    }
  }

  /** The generated chain has distinct node ids, distinct edge ids, and no dangling edge endpoint. */
  lemma StepsWellFormed(steps: seq<string>)
    ensures WellFormed(StepNodes(steps), StepEdges(steps))
  {
    var nodes, edges := StepNodes(steps), StepEdges(steps);
    forall i, j | 0 <= i < j < |nodes| ensures nodes[i].id != nodes[j].id {
      if nodes[i].id == nodes[j].id {
        NodeIdInjective(i, j);
      }
    }
    forall i, j | 0 <= i < j < |edges| ensures edges[i].id != edges[j].id {
      if edges[i].id == edges[j].id {
        EdgeIdInjective(i, j);
      }
    }
    var ids := NodeIds(nodes);
    forall k | 0 <= k < |edges| ensures edges[k].source in ids && edges[k].target in ids {
      assert ids[k] == edges[k].source;
      assert ids[k + 1] == edges[k].target;
    }
  }

  /** The parse output has distinct node ids, distinct edge ids, and no dangling edge endpoint. */
  lemma ParseWellFormed(text: string)
    ensures WellFormed(Parse(text).nodes, Parse(text).edges)
  {
    StepsWellFormed(Steps(text));
  }

  /** The empty text gives a single node with an empty label and no edge. */
  lemma ParseEmpty()
    ensures Parse("") == Graph([Node("node-0", "", Position(0, 100), "custom")], [])
  {
    assert Split("", Arrow) == [""];
    assert Trim("") == "";
    var steps := Steps("");
    assert steps == [""];
    assert NodeId(0) == "node-0" by {
      assert NatToString(0) == "0";
    }
    assert StepNodes(steps) == [StepNode(0, "")];
    assert StepEdges(steps) == [];
  }

  /** When no segment has surrounding whitespace, joining the labels with arrows gives back the text. */
  lemma ParseJoinRoundTrip(text: string)
    requires forall i :: 0 <= i < |Split(text, Arrow)| ==> Trimmed(Split(text, Arrow)[i])
    ensures Join(Labels(Parse(text).nodes), Arrow) == text
  {
    StepsOfTrimmedParts(text);
    LabelsOfStepNodes(Steps(text));
    JoinSplit(text, Arrow);
  }

  /** When every segment is already trimmed, the steps are the segments themselves. */
  lemma StepsOfTrimmedParts(text: string)
    requires forall i :: 0 <= i < |Split(text, Arrow)| ==> Trimmed(Split(text, Arrow)[i])
    ensures Steps(text) == Split(text, Arrow)
  {
    var parts, steps := Split(text, Arrow), Steps(text);
    forall i | 0 <= i < |parts| ensures steps[i] == parts[i] {
      TrimOfTrimmed(parts[i]);
    }
  }

  /**
   * Segments that are a trimmed core padded with whitespace become exactly
   * those cores; a blank segment becomes the empty step.
   */
  lemma StepsOfPadded(text: string, pre: seq<string>, core: seq<string>, post: seq<string>)
    requires |pre| == |core| == |post| == |Split(text, Arrow)|
    requires forall i :: 0 <= i < |core| ==> Split(text, Arrow)[i] == pre[i] + core[i] + post[i]
    requires forall i, k :: 0 <= i < |pre| && 0 <= k < |pre[i]| ==> IsWhitespace(pre[i][k])
    requires forall i, k :: 0 <= i < |post| && 0 <= k < |post[i]| ==> IsWhitespace(post[i][k])
    requires forall i :: 0 <= i < |core| ==> Trimmed(core[i])
    ensures Steps(text) == core
  {
    forall i | 0 <= i < |core| ensures Steps(text)[i] == core[i] {
      TrimAround(pre[i], core[i], post[i]);
    }
  }

  /** Labels that are trimmed and arrow-free survive being joined with arrows and parsed again. */
  lemma ParseOfJoin(labels: seq<string>)
    requires |labels| >= 1
    requires forall i :: 0 <= i < |labels| ==> Trimmed(labels[i]) && Arrow !in labels[i]
    ensures Labels(Parse(Join(labels, Arrow)).nodes) == labels
  {
    var text := Join(labels, Arrow);
    SplitJoin(labels, Arrow);
    StepsOfTrimmedParts(text);
    LabelsOfStepNodes(labels);
  }

  /** Re-parsing the arrow-joined labels of a parse reproduces the same labels: the parse is a normal form. */
  lemma ParseNormalForm(text: string)
    ensures var labels := Labels(Parse(text).nodes);
      Labels(Parse(Join(labels, Arrow)).nodes) == labels
  {
    ParseOfJoin(Labels(Parse(text).nodes));
  }

  /**
   * `onNodeChange`'s `nds.map(...)`: the node whose id is `id` gets label `caption`;
   * every other field of every node, and every other node, is left as it was.
   */
  function PatchLabel(nodes: seq<Node>, id: string, caption: string): (r: seq<Node>)
    ensures |r| == |nodes|
    ensures forall i :: 0 <= i < |r| ==>
      r[i].id == nodes[i].id && r[i].position == nodes[i].position && r[i].kind == nodes[i].kind
    ensures forall i :: 0 <= i < |r| ==>
      r[i].caption == if nodes[i].id == id then caption else nodes[i].caption
  {
    if nodes == [] then []
    else
      var n := nodes[0];
      [if n.id == id then n.(caption := caption) else n] + PatchLabel(nodes[1..], id, caption)
  }

  /** Patching an id that no node carries leaves the list exactly as it was. */
  lemma PatchLabelUnknownId(nodes: seq<Node>, id: string, caption: string)
    requires id !in NodeIds(nodes)
    ensures PatchLabel(nodes, id, caption) == nodes
  {
    var r := PatchLabel(nodes, id, caption);
    forall i | 0 <= i < |nodes| ensures r[i] == nodes[i] {
      assert NodeIds(nodes)[i] == nodes[i].id;
    }
  }

  /** Only the label of the target changes, so the id list is the same afterwards. */
  lemma PatchLabelKeepsIds(nodes: seq<Node>, id: string, caption: string)
    ensures NodeIds(PatchLabel(nodes, id, caption)) == NodeIds(nodes)
  {
  }

  /** Of two successive patches of the same node, the later label wins. */
  lemma {:induction false} PatchLabelLastWins(nodes: seq<Node>, id: string, first: string, second: string)
    ensures PatchLabel(PatchLabel(nodes, id, first), id, second) == PatchLabel(nodes, id, second)
  {
    if nodes != [] {
      PatchLabelLastWins(nodes[1..], id, first, second);
    }
  }

  /** A label patch keeps a well-formed graph well-formed: ids, and so edge endpoints, are untouched. */
  lemma PatchLabelKeepsWellFormed(nodes: seq<Node>, edges: seq<Edge>, id: string, caption: string)
    requires WellFormed(nodes, edges)
    ensures WellFormed(PatchLabel(nodes, id, caption), edges)
  {
    PatchLabelKeepsIds(nodes, id, caption);
  }
}
