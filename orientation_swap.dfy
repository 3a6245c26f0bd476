/**
 * The plugin's message handler: it classifies the selected sticky notes into
 * column headers and content, moves the headers onto one line, groups the
 * content under each header's original y, and stacks each group below its
 * header. Node objects are updated in place, as the host's nodes are.
 */
module OrientationSwap {
  import opened Layout

  /** A selected canvas node. The handler writes only its position. */
  class Node {
    const nodeType: string
    const width: int
    const height: int
    var x: int
    var y: int

    constructor (nodeType: string, x: int, y: int, width: int, height: int)
      ensures this.nodeType == nodeType && this.width == width && this.height == height
      ensures this.x == x && this.y == y
    {
      this.nodeType := nodeType;
      this.width := width;
      this.height := height;
      this.x := x;
      this.y := y;
    }

    predicate IsSticky() {
      nodeType == "STICKY"
    }

    function View(): NodeView
      reads this
    {
      NodeView(IsSticky(), x, y, width, height)
    }

    function Pos(): Position
      reads this
    {
      Position(x, y)
    }
  }

  /** The message the plugin's window posts; `kind` is the message's `type`. */
  datatype Message = Message(kind: string, orientation: string)

  /** No node occurs twice. */
  predicate Distinct(nodes: seq<Node>) {
    forall a, b :: 0 <= a < |nodes| && 0 <= b < |nodes| && a != b ==> nodes[a] != nodes[b]
  }

  /** A snapshot of what the handler reads of each node. */
  function Views(nodes: seq<Node>): seq<NodeView>
    reads nodes
  {
    seq(|nodes|, k requires 0 <= k < |nodes| reads nodes => nodes[k].View())
  }

  function Positions(nodes: seq<Node>): seq<Position>
    reads nodes
  {
    seq(|nodes|, k requires 0 <= k < |nodes| reads nodes => nodes[k].Pos())
  }

  /** The nodes at indices `ks` of the selection, in that order. */
  function Pick(selection: seq<Node>, ks: seq<nat>): seq<Node>
    requires forall i :: 0 <= i < |ks| ==> ks[i] < |selection|
  {
    seq(|ks|, i requires 0 <= i < |ks| => selection[ks[i]])
  }

  /**
   * Where node `k` stands once the members of the first `n` columns have been
   * placed, starting from positions `start`, with header `g` at `anchors[g]`.
   */
  ghost function PlacedThrough(selection: seq<Node>, columns: seq<seq<nat>>, start: seq<Position>,
                               anchors: seq<Position>, k: nat, n: nat): Position
    requires k < |selection| == |start| && n <= |columns| <= |anchors|
  {
    match LastWith(columns, k, n)
    case None => start[k]
    case Some(g) =>
      Position(anchors[g].x, anchors[g].y + (selection[k].height + Gap) * (IndexOf(columns[g], k) + 1))
  }

  /**
   * First pass: sticky notes whose x is within 10 of the origin's x become
   * column headers, with a snapshot of their position; the other sticky notes
   * are content; anything else is skipped.
   */
  method Classify(selection: seq<Node>, origin: Position)
    returns (columnHeaders: seq<Node>, otherNodes: seq<Node>, colHeadersOriginalPosition: seq<Position>)
    ensures var s := Views(selection);
            var hs := Headers(s, origin);
            columnHeaders == Pick(selection, hs) &&
            otherNodes == Pick(selection, Contents(s, origin)) &&
            |colHeadersOriginalPosition| == |hs| &&
            forall i :: 0 <= i < |hs| ==> colHeadersOriginalPosition[i] == Position(s[hs[i]].x, s[hs[i]].y)
  {
    ghost var s := Views(selection);
    var rowNodeXLow := origin.x - Tolerance;
    var rowNodeXHigh := origin.x + Tolerance;
    columnHeaders, otherNodes, colHeadersOriginalPosition := [], [], [];
    for i := 0 to |selection|
      invariant columnHeaders == Pick(selection, Headers(s[..i], origin))
      invariant otherNodes == Pick(selection, Contents(s[..i], origin))
      invariant |colHeadersOriginalPosition| == |Headers(s[..i], origin)|
      invariant forall h :: 0 <= h < |colHeadersOriginalPosition| ==>
                  var k := Headers(s[..i], origin)[h];
                  colHeadersOriginalPosition[h] == Position(s[k].x, s[k].y)
    {
      assert s[..i + 1][..i] == s[..i];
      var node := selection[i];
      if node.nodeType == "STICKY" {
        if node.x <= rowNodeXHigh && node.x >= rowNodeXLow {
          columnHeaders := columnHeaders + [node];
          colHeadersOriginalPosition := colHeadersOriginalPosition + [Position(node.x, node.y)];
        } else {
          otherNodes := otherNodes + [node];
        }
      }
    }
    assert s[..|selection|] == s;
  }

  /**
   * Second pass: header `index` goes to the origin's y and to the origin's x
   * plus `index` times its own width plus the gap.
   */
  method PlaceHeaders(columnHeaders: seq<Node>, origin: Position)
    requires Distinct(columnHeaders)
    modifies columnHeaders
    ensures forall i :: 0 <= i < |columnHeaders| ==>
              columnHeaders[i].y == origin.y &&
              columnHeaders[i].x == origin.x + (columnHeaders[i].width + Gap) * i
  {
    for index := 0 to |columnHeaders|
      invariant forall i :: 0 <= i < index ==>
                  columnHeaders[i].y == origin.y &&
                  columnHeaders[i].x == origin.x + (columnHeaders[i].width + Gap) * i
    {
      var header := columnHeaders[index];
      header.y := origin.y;
      header.x := origin.x + (header.width + Gap) * index;
    }
  }

  /**
   * Third pass: for each header's ORIGINAL position, the content nodes, in
   * order, whose y is within 10 of that original y. The content nodes are
   * `otherNodes`, at indices `contents` of the selection, and have not moved
   * since the snapshot `s` was taken.
   */
  method GroupByHeader(colHeadersOriginalPosition: seq<Position>, otherNodes: seq<Node>,
                       ghost selection: seq<Node>, ghost s: seq<NodeView>, ghost contents: seq<nat>)
    returns (nodesInEachColumn: seq<seq<Node>>)
    requires |s| == |selection|
    requires forall j :: 0 <= j < |contents| ==> contents[j] < |s|
    requires otherNodes == Pick(selection, contents)
    requires forall j :: 0 <= j < |contents| ==> selection[contents[j]].y == s[contents[j]].y
    ensures |nodesInEachColumn| == |colHeadersOriginalPosition|
    ensures forall i :: 0 <= i < |colHeadersOriginalPosition| ==>
              nodesInEachColumn[i] == Pick(selection, InRow(s, contents, colHeadersOriginalPosition[i].y))
  {
    nodesInEachColumn := [];
    for i := 0 to |colHeadersOriginalPosition|
      invariant |nodesInEachColumn| == i
      invariant forall i' :: 0 <= i' < i ==>
                  nodesInEachColumn[i'] == Pick(selection, InRow(s, contents, colHeadersOriginalPosition[i'].y))
    {
      var nodesInHeader := NodesInBand(colHeadersOriginalPosition[i], otherNodes, selection, s, contents);
      nodesInEachColumn := nodesInEachColumn + [nodesInHeader];
    }
  }

  /**
   * The inner loop of the third pass, for one header's original position:
   * the content nodes, in order, whose y is within 10 of the header's y.
   */
  method NodesInBand(header: Position, otherNodes: seq<Node>,
                     ghost selection: seq<Node>, ghost s: seq<NodeView>, ghost contents: seq<nat>)
    returns (nodesInHeader: seq<Node>)
    requires |s| == |selection|
    requires forall j :: 0 <= j < |contents| ==> contents[j] < |s|
    requires otherNodes == Pick(selection, contents)
    requires forall j :: 0 <= j < |contents| ==> selection[contents[j]].y == s[contents[j]].y
    ensures nodesInHeader == Pick(selection, InRow(s, contents, header.y))
  {
    var headerYLow := header.y - Tolerance;
    var headerYHigh := header.y + Tolerance;
    nodesInHeader := [];
    for j := 0 to |otherNodes|
      invariant nodesInHeader == Pick(selection, InRow(s, contents[..j], header.y))
    {
      assert contents[..j + 1][..j] == contents[..j];
      var otherNode := otherNodes[j];
      if otherNode.y <= headerYHigh && otherNode.y >= headerYLow {
        nodesInHeader := nodesInHeader + [otherNode];
      }
    }
    assert contents[..|otherNodes|] == contents;
  }

  /**
   * Fourth pass: member `nodeIndex` of column `index` goes to header `index`'s
   * (already moved) x, and `nodeIndex + 1` steps of its own height plus the
   * gap below the header's y; a node in several columns keeps what the last
   * of them wrote. `columns` gives the selection indices of each column.
   */
  method PlaceContent(columnHeaders: seq<Node>, nodesInEachColumn: seq<seq<Node>>,
                      ghost selection: seq<Node>, ghost columns: seq<seq<nat>>)
    requires Distinct(selection)
    requires |nodesInEachColumn| == |columns| == |columnHeaders|
    requires forall g :: 0 <= g < |columns| ==>
               Ascending(columns[g], |selection|) && nodesInEachColumn[g] == Pick(selection, columns[g])
    requires forall g, i :: 0 <= g < |nodesInEachColumn| && 0 <= i < |columnHeaders| ==>
               columnHeaders[i] !in nodesInEachColumn[g]
    modifies selection
    ensures forall k :: 0 <= k < |selection| ==>
              selection[k].Pos() ==
                PlacedThrough(selection, columns, old(Positions(selection)), old(Positions(columnHeaders)), k, |columns|)
  {
    ghost var start := Positions(selection);
    ghost var anchors := Positions(columnHeaders);
    for index := 0 to |nodesInEachColumn|
      invariant forall i :: 0 <= i < |columnHeaders| ==> columnHeaders[i].Pos() == anchors[i]
      invariant forall k :: 0 <= k < |selection| ==>
                  selection[k].Pos() == PlacedThrough(selection, columns, start, anchors, k, index)
    {
      PlaceColumnAt(columnHeaders, nodesInEachColumn, selection, columns, start, anchors, index);
    }
  }

  /**
   * One iteration of the fourth pass's outer loop: place column `index`
   * below its header. The headers do not move, and afterwards every node is
   * where placing the first `index + 1` columns puts it.
   */
  method PlaceColumnAt(columnHeaders: seq<Node>, nodesInEachColumn: seq<seq<Node>>, ghost selection: seq<Node>,
                       ghost columns: seq<seq<nat>>, ghost start: seq<Position>, ghost anchors: seq<Position>,
                       index: nat)
    requires Distinct(selection) && |start| == |selection|
    requires |nodesInEachColumn| == |columns| == |columnHeaders| == |anchors| && index < |columns|
    requires forall g :: 0 <= g < |columns| ==>
               Ascending(columns[g], |selection|) && nodesInEachColumn[g] == Pick(selection, columns[g])
    requires forall g, i :: 0 <= g < |nodesInEachColumn| && 0 <= i < |columnHeaders| ==>
               columnHeaders[i] !in nodesInEachColumn[g]
    requires forall i :: 0 <= i < |columnHeaders| ==> columnHeaders[i].Pos() == anchors[i]
    requires forall k :: 0 <= k < |selection| ==>
               selection[k].Pos() == PlacedThrough(selection, columns, start, anchors, k, index)
    modifies selection
    ensures forall i :: 0 <= i < |columnHeaders| ==> columnHeaders[i].Pos() == anchors[i]
    ensures forall k :: 0 <= k < |selection| ==>
              selection[k].Pos() == PlacedThrough(selection, columns, start, anchors, k, index + 1)
  {
    PlaceColumn(columnHeaders[index], nodesInEachColumn[index], selection, columns[index]);
    forall k | 0 <= k < |selection|
      ensures selection[k].Pos() == PlacedThrough(selection, columns, start, anchors, k, index + 1)
    {
      PlacedThroughStep(selection, columns, start, anchors, k, index);
    }
  }

  /** Placing column `n` moves exactly its members, to their slots below header `n`. */
  lemma PlacedThroughStep(selection: seq<Node>, columns: seq<seq<nat>>, start: seq<Position>,
                          anchors: seq<Position>, k: nat, n: nat)
    requires k < |selection| == |start| && n < |columns| <= |anchors|
    ensures PlacedThrough(selection, columns, start, anchors, k, n + 1) ==
              if k in columns[n]
              then Position(anchors[n].x, anchors[n].y + (selection[k].height + Gap) * (IndexOf(columns[n], k) + 1))
              else PlacedThrough(selection, columns, start, anchors, k, n)
  {
  }

  /**
   * The inner loop of the fourth pass, for one column below `header`:
   * member `nodeIndex` goes to the header's x and `nodeIndex + 1` steps of its
   * own height plus the gap below the header's y; nothing else moves.
   */
  method PlaceColumn(header: Node, nodesInColumn: seq<Node>, ghost selection: seq<Node>, ghost column: seq<nat>)
    requires Distinct(selection)
    requires Ascending(column, |selection|) && nodesInColumn == Pick(selection, column)
    requires header !in nodesInColumn
    modifies nodesInColumn
    ensures forall k :: 0 <= k < |selection| ==>
              selection[k].Pos() ==
                if k in column
                then Position(header.x, header.y + (selection[k].height + Gap) * (IndexOf(column, k) + 1))
                else old(selection[k].Pos())
  {
    for nodeIndex := 0 to |nodesInColumn|
      invariant forall k :: 0 <= k < |selection| ==>
                  selection[k].Pos() ==
                    if k in column[..nodeIndex]
                    then Position(header.x, header.y + (selection[k].height + Gap) * (IndexOf(column, k) + 1))
                    else old(selection[k].Pos())
    {
      var nodeInColumn := nodesInColumn[nodeIndex];
      ghost var c := column[nodeIndex];
      assert nodeInColumn == selection[c];
      IndexOfAscending(column, |selection|, nodeIndex);
      assert column[..nodeIndex + 1] == column[..nodeIndex] + [c];
      nodeInColumn.x := header.x;
      nodeInColumn.y := header.y + (nodeInColumn.height + Gap) * (nodeIndex + 1);
    }
    assert column[..|nodesInColumn|] == column;
  }

  /**
   * The handler. Only an "orientation-swap" message asking for "columns",
   * with a reference box present, moves anything; then every selected node
   * ends where FinalPosition puts it, computed from the selection as it was.
   */
  method OnMessage(msg: Message, selection: seq<Node>, viewport: Option<Position>)
    requires Distinct(selection)
    modifies selection
    ensures forall k :: 0 <= k < |selection| ==>
              selection[k].Pos() ==
                if msg.kind == "orientation-swap" && msg.orientation == "columns" && viewport.Some?
                then FinalPosition(old(Views(selection)), viewport.value, k)
                else old(selection[k].Pos())
  {
    if msg.kind == "orientation-swap" {
      if msg.orientation == "columns" && viewport.Some? {
        SwapToColumns(selection, viewport.value);
      }
    }
  }

  /**
   * The "columns" branch, with the reference box's origin as
   * `currentViewPort`: the header half, then the content half.
   */
  method SwapToColumns(selection: seq<Node>, currentViewPort: Position)
    requires Distinct(selection)
    modifies selection
    ensures forall k :: 0 <= k < |selection| ==>
              selection[k].Pos() == FinalPosition(old(Views(selection)), currentViewPort, k)
  {
    ghost var s := Views(selection);
    var columnHeaders, otherNodes, colHeadersOriginalPosition := ArrangeHeaders(selection, currentViewPort);
    ArrangeContent(columnHeaders, otherNodes, colHeadersOriginalPosition, selection, s, currentViewPort);
  }

  /**
   * The first two passes: classify the selection, then move the headers.
   * Afterwards every header is in its slot and every other node is where it
   * was.
   */
  method ArrangeHeaders(selection: seq<Node>, currentViewPort: Position)
    returns (columnHeaders: seq<Node>, otherNodes: seq<Node>, colHeadersOriginalPosition: seq<Position>)
    requires Distinct(selection)
    modifies selection
    ensures var s := old(Views(selection));
            var hs := Headers(s, currentViewPort);
            columnHeaders == Pick(selection, hs) &&
            otherNodes == Pick(selection, Contents(s, currentViewPort)) &&
            |colHeadersOriginalPosition| == |hs| &&
            (forall i :: 0 <= i < |hs| ==> colHeadersOriginalPosition[i] == Position(s[hs[i]].x, s[hs[i]].y)) &&
            (forall i :: 0 <= i < |hs| ==> columnHeaders[i].Pos() == HeaderPosition(s, currentViewPort, i)) &&
            (forall k :: 0 <= k < |selection| && k !in hs ==> selection[k].Pos() == Position(s[k].x, s[k].y))
  {
    ghost var s := Views(selection);
    ghost var hs := Headers(s, currentViewPort);
    columnHeaders, otherNodes, colHeadersOriginalPosition := Classify(selection, currentViewPort);
    PickDistinct(selection, hs);
    HeadersAndContentsDisjoint(selection, s, currentViewPort);
    PlaceHeaders(columnHeaders, currentViewPort);
    forall i | 0 <= i < |hs|
      ensures columnHeaders[i].Pos() == HeaderPosition(s, currentViewPort, i)
    {
      assert columnHeaders[i] == selection[hs[i]];
    }
    forall k | 0 <= k < |selection| && k !in hs
      ensures selection[k].Pos() == Position(s[k].x, s[k].y)
    {
      assert selection[k] !in columnHeaders;
    }
  }

  /**
   * The last two passes, started from the state ArrangeHeaders leaves for the
   * snapshot `s`: group the content under the headers' original y, then move
   * it. Afterwards every node is at FinalPosition.
   */
  method ArrangeContent(columnHeaders: seq<Node>, otherNodes: seq<Node>, colHeadersOriginalPosition: seq<Position>,
                        ghost selection: seq<Node>, ghost s: seq<NodeView>, currentViewPort: Position)
    requires Distinct(selection) && |s| == |selection|
    requires forall k :: 0 <= k < |selection| ==> selection[k].height == s[k].height
    requires var hs := Headers(s, currentViewPort);
             columnHeaders == Pick(selection, hs) &&
             otherNodes == Pick(selection, Contents(s, currentViewPort)) &&
             |colHeadersOriginalPosition| == |hs| &&
             (forall i :: 0 <= i < |hs| ==> colHeadersOriginalPosition[i] == Position(s[hs[i]].x, s[hs[i]].y)) &&
             (forall i :: 0 <= i < |hs| ==> columnHeaders[i].Pos() == HeaderPosition(s, currentViewPort, i)) &&
             (forall k :: 0 <= k < |selection| && k !in hs ==> selection[k].Pos() == Position(s[k].x, s[k].y))
    modifies selection
    ensures forall k :: 0 <= k < |selection| ==> selection[k].Pos() == FinalPosition(s, currentViewPort, k)
  {
    ghost var hs := Headers(s, currentViewPort);
    ghost var cs := Contents(s, currentViewPort);
    ghost var cols := Columns(s, currentViewPort);
    ghost var start := Positions(selection);
    ghost var anchors := Positions(columnHeaders);
    forall i | 0 <= i < |hs|
      ensures start[hs[i]] == anchors[i]
    {
      assert columnHeaders[i] == selection[hs[i]];
    }
    forall j | 0 <= j < |cs|
      ensures selection[cs[j]].y == s[cs[j]].y
    {
      Partition(s, currentViewPort, cs[j]);
    }
    PlacedThroughIsFinal(selection, s, currentViewPort, start, anchors);

    var nodesInEachColumn := GroupByHeader(colHeadersOriginalPosition, otherNodes, selection, s, cs);
    assert forall g :: 0 <= g < |cols| ==> nodesInEachColumn[g] == Pick(selection, cols[g]);
    ColumnsWellFormed(selection, s, currentViewPort);
    assert Positions(selection) == start && Positions(columnHeaders) == anchors;
    PlaceContent(columnHeaders, nodesInEachColumn, selection, cols);
    forall k | 0 <= k < |selection|
      ensures selection[k].Pos() == FinalPosition(s, currentViewPort, k)
    {
      assert selection[k].Pos() == PlacedThrough(selection, cols, start, anchors, k, |cols|);
    }
  }

  /**
   * Content placement, started from the positions the header pass leaves
   * and anchored at the moved headers, ends at FinalPosition.
   */
  lemma PlacedThroughIsFinal(selection: seq<Node>, s: seq<NodeView>, origin: Position,
                             start: seq<Position>, anchors: seq<Position>)
    requires |s| == |selection| == |start|
    requires forall k :: 0 <= k < |s| ==> selection[k].height == s[k].height
    requires |anchors| == |Headers(s, origin)|
    requires forall i :: 0 <= i < |anchors| ==>
               anchors[i] == HeaderPosition(s, origin, i) && start[Headers(s, origin)[i]] == anchors[i]
    requires forall k :: 0 <= k < |s| && k !in Headers(s, origin) ==> start[k] == Position(s[k].x, s[k].y)
    ensures forall k :: 0 <= k < |s| ==>
              PlacedThrough(selection, Columns(s, origin), start, anchors, k, |anchors|) == FinalPosition(s, origin, k)
  {
    forall k | 0 <= k < |s|
      ensures PlacedThrough(selection, Columns(s, origin), start, anchors, k, |anchors|) == FinalPosition(s, origin, k)
    {
      PlacedThroughIsFinalAt(selection, s, origin, start, anchors, k);
    }
  }

  lemma PlacedThroughIsFinalAt(selection: seq<Node>, s: seq<NodeView>, origin: Position,
                               start: seq<Position>, anchors: seq<Position>, k: nat)
    requires |s| == |selection| == |start| && k < |s|
    requires selection[k].height == s[k].height
    requires |anchors| == |Headers(s, origin)|
    requires forall i :: 0 <= i < |anchors| ==>
               anchors[i] == HeaderPosition(s, origin, i) && start[Headers(s, origin)[i]] == anchors[i]
    requires k !in Headers(s, origin) ==> start[k] == Position(s[k].x, s[k].y)
    ensures PlacedThrough(selection, Columns(s, origin), start, anchors, k, |anchors|) == FinalPosition(s, origin, k)
  {
    var hs := Headers(s, origin);
    var cols := Columns(s, origin);
    Partition(s, origin, k);
    if k in hs {
      forall g | 0 <= g < |cols|
        ensures k !in cols[g]
      {
        ColumnMembers(s, origin, g, k);
      }
      var i := IndexOf(hs, k);
      assert LastWith(cols, k, |cols|) == None;
      assert FinalPosition(s, origin, k) == HeaderPosition(s, origin, i) == anchors[i] == start[k];
    } else {
      match LastWith(cols, k, |cols|)
      case None =>
      case Some(g) =>
        assert FinalPosition(s, origin, k) == ContentPosition(s, origin, g, IndexOf(cols[g], k));
    }
  }

  lemma PickDistinct(selection: seq<Node>, ks: seq<nat>)
    requires Distinct(selection) && Ascending(ks, |selection|)
    ensures Distinct(Pick(selection, ks))
  {
  }

  /** No header node is a content node. */
  lemma HeadersAndContentsDisjoint(selection: seq<Node>, s: seq<NodeView>, origin: Position)
    requires Distinct(selection) && |s| == |selection|
    ensures forall k :: 0 <= k < |selection| && k !in Headers(s, origin) ==>
              selection[k] !in Pick(selection, Headers(s, origin))
  {
  }

  /** Each column is in selection order and holds no header node. */
  lemma ColumnsWellFormed(selection: seq<Node>, s: seq<NodeView>, origin: Position)
    requires Distinct(selection) && |s| == |selection|
    ensures var cols := Columns(s, origin);
            forall g :: 0 <= g < |cols| ==> Ascending(cols[g], |selection|)
    ensures var cols := Columns(s, origin);
            var hs := Headers(s, origin);
            forall g, i :: 0 <= g < |cols| && 0 <= i < |hs| ==>
              Pick(selection, hs)[i] !in Pick(selection, cols[g])
  {
    forall g | 0 <= g < |Columns(s, origin)|
      ensures Ascending(Columns(s, origin)[g], |selection|)
    {
      ColumnMembers(s, origin, g, 0);
    }
    var cols := Columns(s, origin);
    var hs := Headers(s, origin);
    forall g, i | 0 <= g < |cols| && 0 <= i < |hs|
      ensures Pick(selection, hs)[i] !in Pick(selection, cols[g])
    {
      if Pick(selection, hs)[i] in Pick(selection, cols[g]) {
        var j :| 0 <= j < |cols[g]| && Pick(selection, cols[g])[j] == selection[hs[i]];
        var k := cols[g][j];
        ColumnMembers(s, origin, g, k);
        Partition(s, origin, k);
        assert false;
      }
    }
  }
}
