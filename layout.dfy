/**
 * The orientation-swap re-layout as a pure function of what the handler reads
 * of the selection before it moves anything: which sticky notes are column
 * headers, which content nodes belong to which header, and where every node
 * ends up. The imperative model in OrientationSwap is proved to produce
 * exactly FinalPosition for every selected node.
 */
module Layout {

  /** Half-width of the band within which two coordinates count as aligned. */
  const Tolerance: int := 10

  /** Gap added to a node's own extent when stepping to the next slot. */
  const Gap: int := 45

  datatype Option<T> = None | Some(value: T)

  /** A canvas point, used for the header snapshots and for final positions. */
  datatype Position = Position(x: int, y: int)

  /** What the handler reads of one selected node before it moves anything. */
  datatype NodeView = NodeView(sticky: bool, x: int, y: int, width: int, height: int)

  /** `v` lies in the closed band `[center - 10, center + 10]`. */
  predicate InBand(v: int, center: int) {
    center - Tolerance <= v <= center + Tolerance
  }

  /** A sticky note whose x lies within the band around the origin's x. */
  predicate IsHeader(n: NodeView, origin: Position) {
    n.sticky && InBand(n.x, origin.x)
  }

  /** Any other sticky note. */
  predicate IsContent(n: NodeView, origin: Position) {
    n.sticky && !InBand(n.x, origin.x)
  }

  /** Strictly increasing indices, all below `bound`. */
  predicate Ascending(ks: seq<nat>, bound: int) {
    (forall i :: 0 <= i < |ks| ==> ks[i] < bound) &&
    (forall i, j :: 0 <= i < j < |ks| ==> ks[i] < ks[j])
  }

  /**
   * Indices, in selection order, of the sticky notes that are headers
   * (`header` true) or content (`header` false).
   */
  function Classified(s: seq<NodeView>, origin: Position, header: bool): (r: seq<nat>)
    ensures Ascending(r, |s|)
    decreases |s|
  {
    if s == [] then []
    else
      var last := |s| - 1;
      Classified(s[..last], origin, header) +
        (if s[last].sticky && InBand(s[last].x, origin.x) == header then [last] else [])
  }

  function Headers(s: seq<NodeView>, origin: Position): seq<nat> {
    Classified(s, origin, true)
  }

  function Contents(s: seq<NodeView>, origin: Position): seq<nat> {
    Classified(s, origin, false)
  }

  /** The members of `ks`, in order, whose y lies in the band around `centerY`. */
  function InRow(s: seq<NodeView>, ks: seq<nat>, centerY: int): (r: seq<nat>)
    requires forall i :: 0 <= i < |ks| ==> ks[i] < |s|
    ensures |r| <= |ks|
    ensures forall i :: 0 <= i < |r| ==> r[i] in ks && InBand(s[r[i]].y, centerY)
  {
    if ks == [] then []
    else
      var last := |ks| - 1;
      InRow(s, ks[..last], centerY) +
        (if InBand(s[ks[last]].y, centerY) then [ks[last]] else [])
  }

  /**
   * One column per header: the content nodes whose y is within the band of
   * that header's ORIGINAL y.
   */
  function Columns(s: seq<NodeView>, origin: Position): (r: seq<seq<nat>>)
    ensures |r| == |Headers(s, origin)|
  {
    var hs := Headers(s, origin);
    var cs := Contents(s, origin);
    seq(|hs|, g requires 0 <= g < |hs| => InRow(s, cs, s[hs[g]].y))
  }

  /** Where header number `i` is moved to. */
  function HeaderPosition(s: seq<NodeView>, origin: Position, i: nat): Position
    requires i < |Headers(s, origin)|
  {
    Position(origin.x + (s[Headers(s, origin)[i]].width + Gap) * i, origin.y)
  }

  /** Where member number `j` of column `g` is moved to. */
  function ContentPosition(s: seq<NodeView>, origin: Position, g: nat, j: nat): Position
    requires g < |Columns(s, origin)| && j < |Columns(s, origin)[g]|
  {
    var header := HeaderPosition(s, origin, g);
    var k := Columns(s, origin)[g][j];
    Position(header.x, header.y + (s[k].height + Gap) * (j + 1))
  }

  /** The last of the first `n` groups that holds `k`, if any. */
  function LastWith(groups: seq<seq<nat>>, k: nat, n: nat): (r: Option<nat>)
    requires n <= |groups|
    ensures r.Some? ==> r.value < n && k in groups[r.value]
    ensures r.Some? ==> forall g :: r.value < g < n ==> k !in groups[g]
    ensures r.None? <==> forall g :: 0 <= g < n ==> k !in groups[g]
  {
    if n == 0 then None
    else if k in groups[n - 1] then Some(n - 1)
    else LastWith(groups, k, n - 1)
  }

  /** The position of the first occurrence of `k` in `ks`. */
  function IndexOf(ks: seq<nat>, k: nat): (j: nat)
    requires k in ks
    ensures j < |ks| && ks[j] == k
    ensures forall i :: 0 <= i < j ==> ks[i] != k
  {
    if ks[0] == k then 0 else 1 + IndexOf(ks[1..], k)
  }

  /**
   * The position of selected node `k` after the swap: a header goes to its
   * header slot; a content node goes to its slot in the LAST column holding
   * it (each column overwrites the previous one); anything else stays.
   */
  function FinalPosition(s: seq<NodeView>, origin: Position, k: nat): Position
    requires k < |s|
  {
    var hs := Headers(s, origin);
    var cols := Columns(s, origin);
    if k in hs then HeaderPosition(s, origin, IndexOf(hs, k))
    else match LastWith(cols, k, |cols|)
      case None => Position(s[k].x, s[k].y)
      case Some(g) => ContentPosition(s, origin, g, IndexOf(cols[g], k))
  }

  // ---------------------------------------------------------------------
  // Classification

  lemma {:induction false} ClassifiedMembers(s: seq<NodeView>, origin: Position, header: bool, k: int)
    ensures k in Classified(s, origin, header) <==>
            0 <= k < |s| && s[k].sticky && InBand(s[k].x, origin.x) == header
    decreases |s|
  {
    if s != [] {
      var last := |s| - 1;
      ClassifiedMembers(s[..last], origin, header, k);
      if 0 <= k < last {
        assert s[..last][k] == s[k];
      }
    }
  }

  /**
   * Every sticky note is a header or content and never both; a node that is
   * not sticky is neither.
   */
  lemma Partition(s: seq<NodeView>, origin: Position, k: nat)
    requires k < |s|
    ensures k in Headers(s, origin) <==> IsHeader(s[k], origin)
    ensures k in Contents(s, origin) <==> IsContent(s[k], origin)
    ensures !(k in Headers(s, origin) && k in Contents(s, origin))
    ensures s[k].sticky <==> k in Headers(s, origin) || k in Contents(s, origin)
  {
    ClassifiedMembers(s, origin, true, k);
    ClassifiedMembers(s, origin, false, k);
  }

  // ---------------------------------------------------------------------
  // Grouping

  lemma {:induction false} InRowMembers(s: seq<NodeView>, ks: seq<nat>, centerY: int, k: nat)
    requires forall i :: 0 <= i < |ks| ==> ks[i] < |s|
    ensures k in InRow(s, ks, centerY) <==> k in ks && k < |s| && InBand(s[k].y, centerY)
  {
    if ks != [] {
      var last := |ks| - 1;
      InRowMembers(s, ks[..last], centerY, k);
      assert ks == ks[..last] + [ks[last]];
    }
  }

  lemma {:induction false} InRowAscending(s: seq<NodeView>, ks: seq<nat>, centerY: int)
    requires Ascending(ks, |s|)
    ensures Ascending(InRow(s, ks, centerY), |s|)
  {
    if ks != [] {
      var last := |ks| - 1;
      var front := ks[..last];
      AscendingFront(ks, |s|);
      InRowAscending(s, front, centerY);
      var prefix := InRow(s, front, centerY);
      AllBelow(prefix, front, ks[last]);
      if InBand(s[ks[last]].y, centerY) {
        AscendingAppend(prefix, ks[last], |s|);
      } else {
        assert InRow(s, ks, centerY) == prefix + [];
      }
    }
  }

  lemma AscendingFront(ks: seq<nat>, bound: int)
    requires Ascending(ks, bound) && ks != []
    ensures Ascending(ks[..|ks| - 1], bound)
    ensures forall i :: 0 <= i < |ks| - 1 ==> ks[i] < ks[|ks| - 1]
  {
  }

  lemma AllBelow(xs: seq<nat>, ys: seq<nat>, k: nat)
    requires forall i :: 0 <= i < |xs| ==> xs[i] in ys
    requires forall j :: 0 <= j < |ys| ==> ys[j] < k
    ensures forall i :: 0 <= i < |xs| ==> xs[i] < k
  {
  }

  lemma AscendingAppend(ks: seq<nat>, k: nat, bound: int)
    requires Ascending(ks, bound) && k < bound
    requires forall i :: 0 <= i < |ks| ==> ks[i] < k
    ensures Ascending(ks + [k], bound)
  {
  }

  /**
   * Column `g` holds exactly the content nodes whose y lies within the band
   * around header `g`'s original y, in selection order. Membership is not
   * exclusive: a content node within the bands of several headers is in each
   * of their columns.
   */
  lemma ColumnMembers(s: seq<NodeView>, origin: Position, g: nat, k: nat)
    requires g < |Headers(s, origin)|
    ensures Ascending(Columns(s, origin)[g], |s|)
    ensures k in Columns(s, origin)[g] <==>
            k < |s| && IsContent(s[k], origin) &&
            InBand(s[k].y, s[Headers(s, origin)[g]].y)
  {
    var hs := Headers(s, origin);
    var cs := Contents(s, origin);
    InRowAscending(s, cs, s[hs[g]].y);
    InRowMembers(s, cs, s[hs[g]].y, k);
    ClassifiedMembers(s, origin, false, k);
  }

  // ---------------------------------------------------------------------
  // Placement

  lemma IndexOfAscending(ks: seq<nat>, bound: int, j: nat)
    requires Ascending(ks, bound) && j < |ks|
    ensures IndexOf(ks, ks[j]) == j
  {
  }

  /**
   * Header `i` ends on the origin's y, at the origin's x plus `i` steps of
   * its own width plus the gap.
   */
  lemma HeaderPlacement(s: seq<NodeView>, origin: Position, i: nat)
    requires i < |Headers(s, origin)|
    ensures var h := Headers(s, origin)[i];
            FinalPosition(s, origin, h) == Position(origin.x + (s[h].width + Gap) * i, origin.y)
  {
    IndexOfAscending(Headers(s, origin), |s|, i);
  }

  /**
   * The distance from the right edge of header `i` to the left edge of header
   * `i + 1` is the gap plus `(i + 1)` times the difference of their widths:
   * exactly the gap when the widths agree, an overlap when header `i` is wide
   * enough.
   */
  lemma HeaderSpacing(s: seq<NodeView>, origin: Position, i: nat)
    requires i + 1 < |Headers(s, origin)|
    ensures var a := Headers(s, origin)[i];
            var b := Headers(s, origin)[i + 1];
            FinalPosition(s, origin, a).y == FinalPosition(s, origin, b).y == origin.y &&
            FinalPosition(s, origin, b).x - (FinalPosition(s, origin, a).x + s[a].width)
              == (s[b].width - s[a].width) * (i + 1) + Gap
  {
    var hs := Headers(s, origin);
    HeaderPlacement(s, origin, i);
    HeaderPlacement(s, origin, i + 1);
    var wa, wb := s[hs[i]].width, s[hs[i + 1]].width;
    assert (wb + Gap) * (i + 1) - (wa + Gap) * i - wa == (wb - wa) * (i + 1) + Gap;
  }

  /**
   * Member `j` of column `g`, when no later header's band holds its y, ends
   * at header `g`'s new x, `j + 1` steps of its own height plus the gap below
   * the headers' line.
   */
  lemma ContentPlacement(s: seq<NodeView>, origin: Position, g: nat, j: nat)
    requires g < |Columns(s, origin)| && j < |Columns(s, origin)[g]|
    requires forall g' :: g < g' < |Headers(s, origin)| ==>
               !InBand(s[Columns(s, origin)[g][j]].y, s[Headers(s, origin)[g']].y)
    ensures var k := Columns(s, origin)[g][j];
            var header := s[Headers(s, origin)[g]];
            FinalPosition(s, origin, k) ==
              Position(origin.x + (header.width + Gap) * g, origin.y + (s[k].height + Gap) * (j + 1))
  {
    var hs := Headers(s, origin);
    var cols := Columns(s, origin);
    var k := cols[g][j];
    ColumnMembers(s, origin, g, k);
    Partition(s, origin, k);
    forall g' | g < g' < |cols|
      ensures k !in cols[g']
    {
      ColumnMembers(s, origin, g', k);
    }
    assert LastWith(cols, k, |cols|) == Some(g);
    IndexOfAscending(cols[g], |s|, j);
  }

  /**
   * A node keeps its position when it is not a sticky note, or when it is a
   * content node whose y lies in no header's band.
   */
  lemma UnplacedNodeStays(s: seq<NodeView>, origin: Position, k: nat)
    requires k < |s|
    requires !s[k].sticky ||
             (IsContent(s[k], origin) &&
              forall g :: 0 <= g < |Headers(s, origin)| ==> !InBand(s[k].y, s[Headers(s, origin)[g]].y))
    ensures FinalPosition(s, origin, k) == Position(s[k].x, s[k].y)
  {
    var cols := Columns(s, origin);
    Partition(s, origin, k);
    forall g | 0 <= g < |cols|
      ensures k !in cols[g]
    {
      ColumnMembers(s, origin, g, k);
    }
  }
}
