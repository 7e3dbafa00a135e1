/** Task-list check boxes. Each `TaskMarker` node of the markdown syntax
    tree (`[ ]`, `[x]`, `[X]` after a list bullet) is shown as a check box
    unless the selection starts inside it; clicking the box replaces the
    marker by the opposite one. The syntax tree's nodes are given as their
    ranges, in the order the tree walk enters them. */
module Checklist {
  import opened TextLines

  /** The span `{from, to}` of a `TaskMarker` node. */
  datatype Node = Node(from: nat, to: nat)

  /** `new CheckboxWidget(checked, node.from, node.to, view)` */
  datatype Widget = Widget(checked: bool, from: nat, to: nat)

  /** `/\[x\]/i.test(text)`: somewhere in `text` an `[`, an `x` of either
      case and a `]` follow each other. */
  predicate IsChecked(text: string)
  {
    exists i :: 0 <= i && i + 3 <= |text| && IsCheckAt(text, i)
  }

  predicate IsCheckAt(text: string, i: nat)
    requires i + 3 <= |text|
  {
    text[i] == '[' && (text[i + 1] == 'x' || text[i + 1] == 'X') && text[i + 2] == ']'
  }

  /** The text the click handler inserts: `this.checked ? "[ ]" : "[x]"`. */
  function ToggleText(checked: bool): (r: string)
    ensures |r| == 3 && IsChecked(r) == !checked
  {
    var r := if checked then "[ ]" else "[x]";
    assert !checked ==> IsCheckAt(r, 0);
    r
  }

  /** The marker is skipped while `selection.from` lies in `[node.from, node.to]`. */
  predicate Skipped(selFrom: nat, n: Node)
  {
    n.from <= selFrom <= n.to
  }

  /** The widgets `buildDecorations` pushes for the nodes from `nodes[k]` on, in order. */
  function WidgetsFrom(doc: string, selFrom: nat, nodes: seq<Node>, k: nat): seq<Widget>
    requires k <= |nodes| && forall j :: 0 <= j < |nodes| ==> nodes[j].from <= nodes[j].to <= |doc|
    decreases |nodes| - k
  {
    if k == |nodes| then []
    else
      var n := nodes[k];
      var rest := WidgetsFrom(doc, selFrom, nodes, k + 1);
      if Skipped(selFrom, n) then rest
      else [Widget(IsChecked(Slice(doc, n.from, n.to)), n.from, n.to)] + rest
  }

  /** The widgets for all the nodes. */
  function Widgets(doc: string, selFrom: nat, nodes: seq<Node>): seq<Widget>
    requires forall j :: 0 <= j < |nodes| ==> nodes[j].from <= nodes[j].to <= |doc|
  {
    WidgetsFrom(doc, selFrom, nodes, 0)
  }

  /** `checklistPlugin.buildDecorations`: the callback the tree walk calls on
      every `TaskMarker` node, accumulating widgets. */
  method BuildDecorations(doc: string, selFrom: nat, nodes: seq<Node>) returns (widgets: seq<Widget>)
    requires forall j :: 0 <= j < |nodes| ==> nodes[j].from <= nodes[j].to <= |doc|
    ensures widgets == Widgets(doc, selFrom, nodes)
  {
    widgets := [];
    var k := 0;
    while k < |nodes|
      invariant k <= |nodes|
      invariant widgets + WidgetsFrom(doc, selFrom, nodes, k) == Widgets(doc, selFrom, nodes)
    {
      var node := nodes[k];
      ghost var rest := WidgetsFrom(doc, selFrom, nodes, k + 1);
      if !Skipped(selFrom, node) {
        var text := Slice(doc, node.from, node.to);
        var checked := IsChecked(text);
        var w := Widget(checked, node.from, node.to);
        assert widgets + [w] + rest == widgets + ([w] + rest);
        widgets := widgets + [w];
      }
      k := k + 1;
    }
  }

  /** A widget is made exactly for every node from `nodes[k]` on that the
      selection does not start in, and it records whether that node's text
      is checked. */
  lemma WidgetsMembers(doc: string, selFrom: nat, nodes: seq<Node>, k: nat, w: Widget)
    requires k <= |nodes| && forall j :: 0 <= j < |nodes| ==> nodes[j].from <= nodes[j].to <= |doc|
    ensures w in WidgetsFrom(doc, selFrom, nodes, k) <==>
            exists j :: k <= j < |nodes| && !Skipped(selFrom, nodes[j])
                        && w == Widget(IsChecked(Slice(doc, nodes[j].from, nodes[j].to)), nodes[j].from, nodes[j].to)
  {
    if w in WidgetsFrom(doc, selFrom, nodes, k) {
      var j := WidgetSource(doc, selFrom, nodes, k, w);
    }
    if exists j :: k <= j < |nodes| && !Skipped(selFrom, nodes[j])
                   && w == Widget(IsChecked(Slice(doc, nodes[j].from, nodes[j].to)), nodes[j].from, nodes[j].to) {
      var j :| k <= j < |nodes| && !Skipped(selFrom, nodes[j])
               && w == Widget(IsChecked(Slice(doc, nodes[j].from, nodes[j].to)), nodes[j].from, nodes[j].to);
      WidgetPresent(doc, selFrom, nodes, k, j);
    }
  }

  /** The node a widget was made for. */
  lemma {:induction false} WidgetSource(doc: string, selFrom: nat, nodes: seq<Node>, k: nat, w: Widget) returns (j: nat)
    requires k <= |nodes| && forall j :: 0 <= j < |nodes| ==> nodes[j].from <= nodes[j].to <= |doc|
    requires w in WidgetsFrom(doc, selFrom, nodes, k)
    ensures k <= j < |nodes| && !Skipped(selFrom, nodes[j])
            && w == Widget(IsChecked(Slice(doc, nodes[j].from, nodes[j].to)), nodes[j].from, nodes[j].to)
    decreases |nodes| - k
  {
    var n := nodes[k];
    if !Skipped(selFrom, n) && w == Widget(IsChecked(Slice(doc, n.from, n.to)), n.from, n.to) {
      j := k;
    } else {
      j := WidgetSource(doc, selFrom, nodes, k + 1, w);
    }
  }

  /** A node the selection does not start in has its widget. */
  lemma {:induction false} WidgetPresent(doc: string, selFrom: nat, nodes: seq<Node>, k: nat, j: nat)
    requires k <= j < |nodes| && forall j :: 0 <= j < |nodes| ==> nodes[j].from <= nodes[j].to <= |doc|
    requires !Skipped(selFrom, nodes[j])
    ensures Widget(IsChecked(Slice(doc, nodes[j].from, nodes[j].to)), nodes[j].from, nodes[j].to)
            in WidgetsFrom(doc, selFrom, nodes, k)
    decreases j - k
  {
    if k < j {
      WidgetPresent(doc, selFrom, nodes, k + 1, j);
    }
  }

  /** The change a click on the widget `w` dispatches, as the new document. */
  function Click(doc: string, w: Widget): string
    requires w.from <= w.to <= |doc|
  {
    ApplyChange(doc, w.from, w.to, ToggleText(w.checked))
  }

  /** Clicking a widget made from a marker puts there a marker whose checked
      state is the opposite of the old marker's. */
  lemma ClickFlips(doc: string, w: Widget)
    requires w.from <= w.to <= |doc| && w.checked == IsChecked(Slice(doc, w.from, w.to))
    ensures var d := Click(doc, w);
            w.from + 3 <= |d| && IsChecked(Slice(d, w.from, w.from + 3)) == !IsChecked(Slice(doc, w.from, w.to))
  {
    var d := Click(doc, w);
    SliceIs(d, w.from, w.from + 3);
  }
}
