# Orientation swap for sticky notes

This is a model of the message handler in the Figma plugin's `code.ts`. When the
plugin's window posts `{ type: "orientation-swap", orientation: "columns" }`,
the handler re-lays out the selected sticky notes as columns:

1. **Classify.** A sticky note becomes a *column header* when its x lies in the
   closed band `[origin.x - 10, origin.x + 10]`. Here `origin` is the bounding
   box of the first selected node. Every other sticky note becomes *content*.
   Nodes that are not sticky notes are skipped. Each header's position is
   recorded before anything moves.
2. **Place headers.** Header `i` moves to
   `(origin.x + (width_i + 45) * i, origin.y)`.
3. **Group.** For each header's *original* position, the content notes whose
   y lies within 10 of that y are collected, in selection order. A note can
   fall in several groups.
4. **Place content.** Member `j` of group `g` moves to header `g`'s new x.
   Its y becomes the header's new y plus `(height + 45) * (j + 1)`. When a note
   is in several groups, the last group's write wins.

The project has two modules:

- `Layout` (`layout.dfy`) is the reference definition. It works on a
  snapshot (`NodeView`) of what the handler reads from each node, and defines
  - which indices are headers (`Headers`) and which are content (`Contents`),
  - the groups (`Columns`),
  - where every node ends up (`FinalPosition`).

  Its lemmas state the placement rules in closed form.
- `OrientationSwap` (`orientation_swap.dfy`) is the handler itself. Nodes are
  objects (`class Node`) whose `x` and `y` are updated in place. Each
  `forEach` pass is a method with a loop.
  - Each method's postcondition ties its results, or the new node positions,
    to the `Layout` definitions.
  - `OnMessage` ends with every selected node at `FinalPosition` of the
    selection as it was, or unmoved when the message does not ask for columns.

Coordinates are unbounded integers. The message's `type` field is called
`kind`, because `type` is a keyword in Dafny.

## Model

| member | source | states |
|---|---|---|
| Layout.Classified | code.ts:32-42 | header and content indices are collected in selection order, with no index twice |
| Layout.ClassifiedMembers | code.ts:32-41 | an index is collected exactly when it is a sticky note whose x is inside (headers) or outside (content) the band around the origin's x |
| Layout.Partition | code.ts:27-41 | every sticky note is a header or content and never both; a header is exactly a sticky note with `origin.x - 10 <= x <= origin.x + 10`, both ends inclusive; a non-sticky node is neither |
| Layout.InRow | code.ts:52-59 | a group holds only candidates whose y is within 10 of the header's y, and is no longer than the candidate list |
| Layout.InRowMembers | code.ts:52-59 | a node is in the group exactly when it is a candidate and its y is within 10 of the header's y, both ends inclusive |
| Layout.InRowAscending | code.ts:55-59 | a group keeps the candidates' selection order |
| Layout.Columns | code.ts:49-61 | there is one group per header |
| Layout.ColumnMembers | code.ts:49-61 | group `g` is exactly the content notes, in selection order, whose y is within 10 of header `g`'s original y; membership is not exclusive |
| Layout.LastWith | code.ts:63-69 | picks the last group that holds a node, or reports that no group does; this is the group whose write survives |
| Layout.IndexOf | code.ts:64 | the index of a node within its group |
| Layout.HeaderPlacement | code.ts:44-47 | header `i` ends at `y == origin.y` and `x == origin.x + (width_i + 45) * i` |
| Layout.HeaderSpacing | code.ts:46 | consecutive headers share a y; the space between them is `45 + (i + 1) * (width_{i+1} - width_i)`, so it is 45 only when their widths agree |
| Layout.ContentPlacement | code.ts:63-69 | member `j` of group `g`, when no later header's band holds it, ends at header `g`'s new x and `(height + 45) * (j + 1)` below the headers' new y |
| Layout.UnplacedNodeStays | code.ts:32-69 | a node that is not a sticky note, or a content note within no header's band, keeps its position |
| OrientationSwap.Classify | code.ts:27-42 | the header list, the content list and the saved header positions are the selection's headers and content in order, with positions read before any move |
| OrientationSwap.PlaceHeaders | code.ts:44-47 | every header is at the origin's y, and header `i` at `origin.x + (width_i + 45) * i` |
| OrientationSwap.NodesInBand | code.ts:51-59 | the collected group is the content nodes, in order, whose y is within 10 of the given original header y |
| OrientationSwap.GroupByHeader | code.ts:49-61 | one group per saved header position; group `i` is the content within the band of header `i`'s original y, not its moved y |
| OrientationSwap.PlaceColumn | code.ts:64-69 | after one group is placed, each of its members is at the header's x and `(height + 45) * (index + 1)` below the header's y; no other node moves |
| OrientationSwap.PlaceColumnAt | code.ts:63-70 | placing group `index` leaves the headers where they are and every node where the first `index + 1` groups put it |
| OrientationSwap.PlaceContent | code.ts:63-70 | after all groups are placed, each node holds the slot of the last group containing it, or its earlier position when no group contains it |
| OrientationSwap.PlacedThroughIsFinal | code.ts:44-70 | placing the content from the positions the header pass leaves gives exactly `FinalPosition` for every node |
| OrientationSwap.HeadersAndContentsDisjoint | code.ts:33-40 | a node that is not a header is not in the header list |
| OrientationSwap.ColumnsWellFormed | code.ts:49-61 | every group is in selection order and holds no header, so content placement never moves a header |
| OrientationSwap.ArrangeHeaders | code.ts:27-47 | after classification and header placement, every header is in its slot, every other node is unmoved, and the saved positions are the headers' original ones |
| OrientationSwap.ArrangeContent | code.ts:49-70 | after grouping and content placement, every node is at `FinalPosition` of the original snapshot |
| OrientationSwap.SwapToColumns | code.ts:27-70 | the "columns" branch leaves every selected node at `FinalPosition` of the selection as it was |
| OrientationSwap.OnMessage | code.ts:20-72 | an "orientation-swap" message asking for "columns", with a reference box present, leaves every node at `FinalPosition`; any other type, any other orientation (including "rows") or a missing box moves nothing |

## Left out

- Showing the plugin's window, registering the handler and closing the plugin
  (code.ts:10, 20, 76) are host session glue and are not modelled.
- The `console.log` calls and the read of `node.text.characters`
  (code.ts:25, 34) are logging only.
- The reference box is `figma.currentPage.selection[0].absoluteBoundingBox`
  (code.ts:24). The model passes it in as an optional origin. It does not
  model how the host computes that box, nor the runtime error that reading
  the first element of an empty selection raises.
- Coordinates are TypeScript numbers (IEEE-754 doubles). The model uses
  unbounded integers, so it does not capture rounding.
- OnMessage: requires that no node occurs twice in the selection. The host's
  selection never repeats a node, and the handler's effect on a repeated node
  is not modelled.
- There is no "rows" layout in the handler, so none is modelled. A "rows"
  message falls through and moves nothing.
- Header x is `(own width + 45) * index`, as the code computes it (code.ts:46).
  It is not a running sum of the preceding headers' widths. HeaderSpacing
  states the consequence: headers of different widths are not evenly spaced
  and can overlap.
