/**
 * The editor component's state: the node and edge lists, the text in the input
 * box and the id of the node whose label is being edited, together with the
 * event handlers that overwrite them.
 */
module App {
  import opened Text
  import opened Ids
  import opened Flow

  datatype Option<T> = None | Some(value: T)

  /** The sample flow parsed when the input box is empty on submit. */
  const DefaultText: string := "登录 → 验证短信 → 进入主页"

  /** `inputText || default`: the empty string is the only falsy string, so only it is replaced. */
  function SubmittedText(input: string): (t: string)
    ensures t != []
    ensures input == [] ==> t == DefaultText
    ensures input != [] ==> t == input
  {
    if input == [] then DefaultText else input
  }

  /** The `isEditing` flag handed to the node with id `id`: the stored edit id is that id. */
  predicate IsEditingNode(editing: Option<string>, id: string)
  {
    editing.Some? && editing.value == id
  }

  /** The `isEditing` flag of every rendered node, in node order. */
  function EditFlags(nodes: seq<Node>, editing: Option<string>): seq<bool>
  {
    seq(|nodes|, i requires 0 <= i < |nodes| => IsEditingNode(editing, nodes[i].id))
  }

  /** With distinct node ids, at most one rendered node is in edit mode, and none when nothing is stored. */
  lemma AtMostOneEditing(nodes: seq<Node>, editing: Option<string>)
    requires forall i, j :: 0 <= i < j < |nodes| ==> nodes[i].id != nodes[j].id
    ensures forall i, j :: 0 <= i < |nodes| && 0 <= j < |nodes| && EditFlags(nodes, editing)[i] && EditFlags(nodes, editing)[j] ==> i == j
    ensures editing.None? ==> forall i :: 0 <= i < |nodes| ==> !EditFlags(nodes, editing)[i]
  {
  }

  /** The sample, split at its arrows. */
  lemma DefaultSegments()
    ensures Split(DefaultText, Arrow) == ["登录 ", " 验证短信 ", " 进入主页"]
  {
    var parts := ["登录 ", " 验证短信 ", " 进入主页"];
    assert Join(parts, Arrow) == DefaultText;
    SplitJoin(parts, Arrow);
  }

  /** The sample's segments, trimmed, are its three step names. */
  lemma DefaultSteps()
    ensures Steps(DefaultText) == ["登录", "验证短信", "进入主页"]
  {
    DefaultSegments();
    StepsOfSampleSegments(DefaultText);
  }

  /** Any text that splits like the sample trims to the sample's step names. */
  lemma StepsOfSampleSegments(text: string)
    requires Split(text, Arrow) == ["登录 ", " 验证短信 ", " 进入主页"]
    ensures Steps(text) == ["登录", "验证短信", "进入主页"]
  {
    var steps := ["登录", "验证短信", "进入主页"];
    var pre, post := ["", " ", " "], [" ", " ", ""];
    var parts := Split(text, Arrow);
    assert parts[0] == pre[0] + steps[0] + post[0];
    assert parts[1] == pre[1] + steps[1] + post[1];
    assert parts[2] == pre[2] + steps[2] + post[2];
    StepsOfPadded(text, pre, steps, post);
  }

  /** The chain built from the sample's three steps. */
  lemma DefaultChain()
    ensures StepNodes(["登录", "验证短信", "进入主页"]) ==
      [Node("node-0", "登录", Position(0, 100), "custom"),
       Node("node-1", "验证短信", Position(250, 100), "custom"),
       Node("node-2", "进入主页", Position(500, 100), "custom")]
    ensures StepEdges(["登录", "验证短信", "进入主页"]) == [Edge("edge-0", "node-0", "node-1"), Edge("edge-1", "node-1", "node-2")]
  {
    var steps := ["登录", "验证短信", "进入主页"];
    assert NatToString(0) == "0" && NatToString(1) == "1" && NatToString(2) == "2";
    assert NodeId(0) == "node-0" && NodeId(1) == "node-1" && NodeId(2) == "node-2";
    assert EdgeId(0) == "edge-0" && EdgeId(1) == "edge-1";
    assert StepNodes(steps) == [StepNode(0, steps[0]), StepNode(1, steps[1]), StepNode(2, steps[2])];
    assert StepEdges(steps) == [StepEdge(0), StepEdge(1)];
  }

  /** Submitting the empty box parses the sample into three nodes in a row and the two edges between them. */
  lemma ParseDefault()
    ensures Parse(SubmittedText("")) == Graph(
      [Node("node-0", "登录", Position(0, 100), "custom"),
       Node("node-1", "验证短信", Position(250, 100), "custom"),
       Node("node-2", "进入主页", Position(500, 100), "custom")],
      [Edge("edge-0", "node-0", "node-1"),
       Edge("edge-1", "node-1", "node-2")])
  {
    DefaultSteps();
    DefaultChain();
  }

  class FlowApp {
    var nodes: seq<Node>
    var edges: seq<Edge>
    var inputText: string
    /** The id of the node last double-clicked, until a blur; the parser never resets it. */
    var editing: Option<string>

    ghost predicate Valid()
      reads this
    {
      WellFormed(nodes, edges)
    }

    /** The component's initial state: no nodes, no edges, an empty box, nothing in edit mode. */
    constructor ()
      ensures Valid()
      ensures nodes == [] && edges == [] && inputText == [] && editing == None
    {
      nodes, edges, inputText, editing := [], [], [], None;
    }

    /** Typing in the input box replaces its text and nothing else. */
    method TypeText(text: string)
      requires Valid()
      modifies this
      ensures Valid()
      ensures inputText == text
      ensures nodes == old(nodes) && edges == old(edges) && editing == old(editing)
    {
      inputText := text;
    }

    /**
     * `handleSubmit`: parses the box's text, or the sample when the box is empty
     * (writing the sample into the box), and installs the result in place of
     * the previous nodes and edges. The edit id is left as it was.
     */
    method Submit()
      modifies this
      ensures Valid()
      ensures inputText == SubmittedText(old(inputText))
      ensures nodes == Parse(inputText).nodes && edges == Parse(inputText).edges
      ensures |nodes| == Count(inputText, Arrow) + 1
      ensures editing == old(editing)
    {
      var merged := SubmittedText(inputText);
      if inputText == [] {
        inputText := merged;
      }
      var g := Parse(merged);
      ParseWellFormed(merged);
      nodes := g.nodes;
      edges := g.edges;
    }

    /** `onNodeDoubleClick`: the clicked node becomes the one in edit mode, whatever was before. */
    method DoubleClick(id: string)
      requires Valid()
      modifies this
      ensures Valid()
      ensures editing == Some(id)
      ensures IsEditingNode(editing, id) && forall other :: other != id ==> !IsEditingNode(editing, other)
      ensures nodes == old(nodes) && edges == old(edges) && inputText == old(inputText)
    {
      editing := Some(id);
    }

    /** `onNodeBlur`, also fired by Enter in the inline editor: no node is in edit mode. */
    method Blur()
      requires Valid()
      modifies this
      ensures Valid()
      ensures editing == None
      ensures forall id :: !IsEditingNode(editing, id)
      ensures nodes == old(nodes) && edges == old(edges) && inputText == old(inputText)
    {
      editing := None;
    }

    /** `onNodeChange`: the node with id `id` takes `caption` as its label; edges stay as they were. */
    method ChangeLabel(id: string, caption: string)
      requires Valid()
      modifies this
      ensures Valid()
      ensures nodes == PatchLabel(old(nodes), id, caption)
      ensures edges == old(edges) && inputText == old(inputText) && editing == old(editing)
    {
      PatchLabelKeepsWellFormed(nodes, edges, id, caption);
      nodes := PatchLabel(nodes, id, caption);
    }
  }

  /**
   * A re-parse keeps the edit id even when the new graph has no node with it:
   * edit node `k` of the flow of `first`, then submit `second`, which has at
   * most `k` steps; the stored id names no node any more.
   */
  method StaleEditIdAfterResubmit(first: string, second: string, k: nat) returns (editing: Option<string>, ids: seq<string>)
    requires first != [] && second != []
    requires k <= Count(first, Arrow) && Count(second, Arrow) < k
    ensures ids == NodeIds(Parse(second).nodes)
    ensures editing == Some(NodeId(k)) && NodeId(k) !in ids
  {
    var app := new FlowApp();
    app.TypeText(first);
    app.Submit();
    ParseNodeAt(first, k);
    app.DoubleClick(app.nodes[k].id);
    app.TypeText(second);
    app.Submit();
    editing, ids := app.editing, NodeIds(app.nodes);
    ParseHasNodeId(second, k);
  }

  /**
   * Because new ids reuse `node-0`, `node-1`, ..., a kept edit id selects a node
   * of the new graph: edit node `k` of the flow of `first`, then submit
   * `second`, which has more than `k` steps; node `k` of the new graph, a node
   * nobody double-clicked, is now in edit mode.
   */
  method StaleEditIdSelectsNewNode(first: string, second: string, k: nat) returns (editing: Option<string>, nodes: seq<Node>)
    requires first != [] && second != []
    requires k <= Count(first, Arrow) && k <= Count(second, Arrow)
    ensures nodes == Parse(second).nodes
    ensures IsEditingNode(editing, nodes[k].id)
    ensures forall j :: 0 <= j < |nodes| && j != k ==> !IsEditingNode(editing, nodes[j].id)
  {
    var app := new FlowApp();
    app.TypeText(first);
    app.Submit();
    ParseNodeAt(first, k);
    app.DoubleClick(app.nodes[k].id);
    app.TypeText(second);
    app.Submit();
    ParseNodeAt(second, k);
    editing, nodes := app.editing, app.nodes;
    forall j | 0 <= j < |nodes| && j != k ensures !IsEditingNode(editing, nodes[j].id) {
      ParseNodeAt(second, j);
      if nodes[j].id == NodeId(k) {
        NodeIdInjective(j, k);
      }
    }
  }
}
