/** Combining the brush-mask fragments of one group into a single 8-bit mask
    (`generate_composite_mask_png` in magicwand-coco-brush-to-png-masks/script.py).
    Loading a fragment file and saving the PNG are I/O: the loaded fragments are
    the input, and the array handed to the PNG writer is the result. */
module BrushComposite {
  import opened Text

  /** A two-dimensional integer array: its shape and its rows. */
  datatype Grid = Grid(height: nat, width: nat, cells: seq<seq<int>>) {
    predicate WellFormed() {
      |cells| == height && forall r :: 0 <= r < |cells| ==> |cells[r]| == width
    }
  }

  /** Arrays as numpy stores them: every row has the same width. */
  type Matrix = g: Grid | g.WellFormed() witness Grid(0, 0, [])

  /** What loading one fragment file produced. */
  datatype Fragment =
    | Unreadable          // the load raised
    | NotTwoDimensional   // ndim != 2
    | Plane(grid: Matrix)

  /** What one call produces: the array that would be written as the PNG, or
      why nothing is written. */
  datatype CompositeOutcome =
    | NoPaths             // the path list is empty
    | NoValidFragment     // no fragment was loaded as a 2-D array
    | ZeroSizeError       // np.max of an empty array raises ValueError
    | Saved(mask: Matrix)

  predicate SameShape(a: Grid, b: Grid) {
    a.height == b.height && a.width == b.width
  }

  function Max(a: int, b: int): int {
    if a < b then b else a
  }

  /** `np.maximum(a, b)` on arrays of one shape. */
  function ElementMax(a: Matrix, b: Matrix): (m: Matrix)
    requires SameShape(a, b)
    ensures SameShape(m, a)
    ensures forall r, c :: 0 <= r < a.height && 0 <= c < a.width ==>
              m.cells[r][c] == Max(a.cells[r][c], b.cells[r][c])
  {
    Grid(a.height, a.width,
         seq(a.height, r requires 0 <= r < a.height =>
           seq(a.width, c requires 0 <= c < a.width => Max(a.cells[r][c], b.cells[r][c]))))
  }

  /** One step of the combining loop: the first 2-D fragment becomes the master
      mask, a later one of the same shape is folded in by element-wise maximum,
      and everything else is skipped. */
  function Absorb(master: Option<Matrix>, f: Fragment): Option<Matrix> {
    match f
    case Plane(g) =>
      if master.None? then Some(g)
      else if SameShape(master.value, g) then Some(ElementMax(master.value, g))
      else master
    case _ => master
  }

  /** The master mask after the loop has seen every fragment. */
  function Combine(frags: seq<Fragment>): Option<Matrix>
    decreases |frags|
  {
    if frags == [] then None
    else Absorb(Combine(frags[..|frags| - 1]), frags[|frags| - 1])
  }

  /** `astype(np.uint8)`: integers wrap modulo 256. */
  function ToUint8(v: int): (b: int)
    ensures 0 <= b < 256
    ensures 0 <= v < 256 ==> b == v
    ensures (v - b) % 256 == 0
  {
    v % 256
  }

  function CastToUint8(m: Matrix): (u: Matrix)
    ensures SameShape(u, m)
    ensures forall r, c :: 0 <= r < m.height && 0 <= c < m.width ==> u.cells[r][c] == ToUint8(m.cells[r][c])
  {
    Grid(m.height, m.width,
         seq(m.height, r requires 0 <= r < m.height =>
           seq(m.width, c requires 0 <= c < m.width => ToUint8(m.cells[r][c]))))
  }

  /** `np.max(m) <= 1` for a non-empty array. */
  predicate AtMostOne(m: Matrix) {
    forall r, c :: 0 <= r < m.height && 0 <= c < m.width ==> m.cells[r][c] <= 1
  }

  /** The visibility scaling of an 8-bit mask: a 0/1 mask becomes 0/255, any
      other mask is written as it is. */
  function Scale(u: Matrix): (s: Matrix)
    requires forall r, c :: 0 <= r < u.height && 0 <= c < u.width ==> 0 <= u.cells[r][c] < 256
    ensures SameShape(s, u)
    ensures AtMostOne(u) ==> forall r, c :: 0 <= r < u.height && 0 <= c < u.width ==>
              (s.cells[r][c] == 255 <==> u.cells[r][c] == 1) &&
              (s.cells[r][c] == 0 <==> u.cells[r][c] == 0) &&
              s.cells[r][c] in {0, 255}
    ensures !AtMostOne(u) ==> s == u
  {
    if AtMostOne(u) then
      Grid(u.height, u.width,
           seq(u.height, r requires 0 <= r < u.height =>
             seq(u.width, c requires 0 <= c < u.width => u.cells[r][c] * 255)))
    else u
  }

  /** The tail of the function once a master mask exists. */
  function Finish(m: Matrix): (o: CompositeOutcome)
    ensures o.ZeroSizeError? <==> m.height == 0 || m.width == 0
    ensures o.Saved? ==> SameShape(o.mask, m)
    ensures o.Saved? ==> forall r, c :: 0 <= r < m.height && 0 <= c < m.width ==> 0 <= o.mask.cells[r][c] < 256
  {
    if m.height == 0 || m.width == 0 then ZeroSizeError
    else Saved(Scale(CastToUint8(m)))
  }

  /** Index of the first fragment loaded as a 2-D array (|frags| if none). */
  function FirstPlane(frags: seq<Fragment>): (j: nat)
    ensures j <= |frags|
    ensures j < |frags| ==> frags[j].Plane?
    ensures forall k :: 0 <= k < j ==> !frags[k].Plane?
  {
    FirstPlaneFrom(frags, 0)
  }

  function FirstPlaneFrom(frags: seq<Fragment>, from: nat): (j: nat)
    requires from <= |frags|
    requires forall k :: 0 <= k < from ==> !frags[k].Plane?
    ensures from <= j <= |frags|
    ensures j < |frags| ==> frags[j].Plane?
    ensures forall k :: 0 <= k < j ==> !frags[k].Plane?
    decreases |frags| - from
  {
    if from == |frags| then from
    else if frags[from].Plane? then from
    else FirstPlaneFrom(frags, from + 1)
  }

  /** Fragment i takes part: it is 2-D and has the shape of the first 2-D fragment. */
  ghost predicate Accepted(frags: seq<Fragment>, i: int) {
    && 0 <= i < |frags|
    && frags[i].Plane?
    && SameShape(frags[i].grid, frags[FirstPlane(frags)].grid)
  }

  /** m has the first accepted fragment's shape and each of its cells is the
      maximum of that cell over the accepted fragments. */
  ghost predicate IsElementwiseMax(m: Matrix, frags: seq<Fragment>) {
    && FirstPlane(frags) < |frags|
    && SameShape(m, frags[FirstPlane(frags)].grid)
    && (forall i, r, c :: Accepted(frags, i) && 0 <= r < m.height && 0 <= c < m.width ==>
          frags[i].grid.cells[r][c] <= m.cells[r][c])
    && (forall r, c :: 0 <= r < m.height && 0 <= c < m.width ==>
          exists i :: Accepted(frags, i) && frags[i].grid.cells[r][c] == m.cells[r][c])
  }

  /** The result of `generate_composite_mask_png` for the loaded fragments, in order. */
  function CompositeMask(frags: seq<Fragment>): (o: CompositeOutcome)
    ensures o.NoPaths? <==> frags == []
    ensures o.NoValidFragment? <==> frags != [] && forall i :: 0 <= i < |frags| ==> !frags[i].Plane?
    ensures o.ZeroSizeError? ==> exists i :: 0 <= i < |frags| && frags[i].Plane?
    ensures o.Saved? ==> FirstPlane(frags) < |frags| && SameShape(o.mask, frags[FirstPlane(frags)].grid)
  {
    if frags == [] then NoPaths
    else
      CombineIsElementwiseMax(frags);
      match Combine(frags)
      case None => NoValidFragment
      case Some(m) => Finish(m)
  }

  /** `generate_composite_mask_png`, with the PNG save left out: the loop reassigns
      the master mask exactly as the source does. */
  method GenerateCompositeMask(frags: seq<Fragment>) returns (o: CompositeOutcome)
    ensures o == CompositeMask(frags)
  {
    if |frags| == 0 {
      return NoPaths;
    }
    var master: Option<Matrix> := None;
    var i := 0;
    while i < |frags|
      invariant 0 <= i <= |frags|
      invariant master == Combine(frags[..i])
    {
      assert frags[..i + 1][..i] == frags[..i];
      match frags[i] {
        case Plane(current) =>
          if master.None? {
            master := Some(current);
          } else if SameShape(master.value, current) {
            master := Some(ElementMax(master.value, current));
          }
        case _ =>
      }
      i := i + 1;
    }
    assert frags[..|frags|] == frags;
    if master.None? {
      return NoValidFragment;
    }
    var m := master.value;
    if m.height == 0 || m.width == 0 {
      return ZeroSizeError;
    }
    o := Saved(Scale(CastToUint8(m)));
  }

  // ---------------------------------------------------------------------
  // Properties

  /** Any j with the defining properties of the first 2-D fragment is it. */
  lemma FirstPlaneUnique(frags: seq<Fragment>, j: nat)
    requires j <= |frags|
    requires j < |frags| ==> frags[j].Plane?
    requires forall k :: 0 <= k < j ==> !frags[k].Plane?
    ensures FirstPlane(frags) == j
  {
  }

  /** When the fragments before the last already contain a 2-D one, the first
      2-D fragment and acceptance of the earlier fragments do not change. */
  lemma PrefixKeepsFirst(frags: seq<Fragment>)
    requires |frags| > 0 && FirstPlane(frags[..|frags| - 1]) < |frags| - 1
    ensures FirstPlane(frags) == FirstPlane(frags[..|frags| - 1])
    ensures forall i :: 0 <= i < |frags| - 1 ==> (Accepted(frags, i) <==> Accepted(frags[..|frags| - 1], i))
  {
    var s := frags[..|frags| - 1];
    assert forall k :: 0 <= k < |s| ==> s[k] == frags[k];
    FirstPlaneUnique(frags, FirstPlane(s));
  }

  /** A last fragment of the master's shape is folded in by maximum. */
  lemma FoldStep(frags: seq<Fragment>, m: Matrix)
    requires |frags| > 0 && FirstPlane(frags[..|frags| - 1]) < |frags| - 1
    requires IsElementwiseMax(m, frags[..|frags| - 1])
    requires frags[|frags| - 1].Plane? && SameShape(m, frags[|frags| - 1].grid)
    ensures IsElementwiseMax(ElementMax(m, frags[|frags| - 1].grid), frags)
  {
    var n := |frags|;
    var s := frags[..n - 1];
    PrefixKeepsFirst(frags);
    var g := frags[n - 1].grid;
    var mm := ElementMax(m, g);
    assert Accepted(frags, n - 1);
    forall i, r, c | Accepted(frags, i) && 0 <= r < mm.height && 0 <= c < mm.width
      ensures frags[i].grid.cells[r][c] <= mm.cells[r][c]
    {
      if i < n - 1 {
        assert Accepted(s, i) && s[i] == frags[i];
      }
    }
    forall r, c | 0 <= r < mm.height && 0 <= c < mm.width
      ensures exists i :: Accepted(frags, i) && frags[i].grid.cells[r][c] == mm.cells[r][c]
    {
      if m.cells[r][c] < g.cells[r][c] {
        assert frags[n - 1].grid.cells[r][c] == mm.cells[r][c];
      } else {
        var i :| Accepted(s, i) && s[i].grid.cells[r][c] == m.cells[r][c];
        assert s[i] == frags[i];
        assert Accepted(frags, i) && frags[i].grid.cells[r][c] == mm.cells[r][c];
      }
    }
  }

  /** A last fragment that is not 2-D, or of another shape, leaves the master as it is. */
  lemma SkipStep(frags: seq<Fragment>, m: Matrix)
    requires |frags| > 0 && FirstPlane(frags[..|frags| - 1]) < |frags| - 1
    requires IsElementwiseMax(m, frags[..|frags| - 1])
    requires !(frags[|frags| - 1].Plane? && SameShape(m, frags[|frags| - 1].grid))
    ensures IsElementwiseMax(m, frags)
  {
    var n := |frags|;
    var s := frags[..n - 1];
    PrefixKeepsFirst(frags);
    assert !Accepted(frags, n - 1);
    forall i, r, c | Accepted(frags, i) && 0 <= r < m.height && 0 <= c < m.width
      ensures frags[i].grid.cells[r][c] <= m.cells[r][c]
    {
      assert Accepted(s, i) && s[i] == frags[i];
    }
    forall r, c | 0 <= r < m.height && 0 <= c < m.width
      ensures exists i :: Accepted(frags, i) && frags[i].grid.cells[r][c] == m.cells[r][c]
    {
      var i :| Accepted(s, i) && s[i].grid.cells[r][c] == m.cells[r][c];
      assert s[i] == frags[i];
      assert Accepted(frags, i);
    }
  }

  /** The first 2-D fragment becomes the master on its own. */
  lemma FirstStep(frags: seq<Fragment>)
    requires |frags| > 0 && FirstPlane(frags[..|frags| - 1]) == |frags| - 1
    requires frags[|frags| - 1].Plane?
    ensures IsElementwiseMax(frags[|frags| - 1].grid, frags)
  {
    var n := |frags|;
    var s := frags[..n - 1];
    assert forall k :: 0 <= k < n - 1 ==> s[k] == frags[k];
    FirstPlaneUnique(frags, n - 1);
    var g := frags[n - 1].grid;
    assert Accepted(frags, n - 1);
    forall r, c | 0 <= r < g.height && 0 <= c < g.width
      ensures exists i :: Accepted(frags, i) && frags[i].grid.cells[r][c] == g.cells[r][c]
    {
      assert Accepted(frags, n - 1);
    }
  }

  /** Folding the fragments yields nothing exactly when none is 2-D, and otherwise
      the element-wise maximum of the accepted fragments, in the first one's shape. */
  lemma {:induction false} CombineIsElementwiseMax(frags: seq<Fragment>)
    ensures Combine(frags).None? <==> FirstPlane(frags) == |frags|
    ensures Combine(frags).Some? ==> IsElementwiseMax(Combine(frags).value, frags)
    decreases |frags|
  {
    if frags == [] {
      return;
    }
    var n := |frags|;
    var s := frags[..n - 1];
    var f := frags[n - 1];
    CombineIsElementwiseMax(s);
    if FirstPlane(s) < n - 1 {
      PrefixKeepsFirst(frags);
      var m := Combine(s).value;
      if f.Plane? && SameShape(m, f.grid) {
        FoldStep(frags, m);
      } else {
        SkipStep(frags, m);
      }
    } else if f.Plane? {
      FirstStep(frags);
    } else {
      assert forall k :: 0 <= k < n - 1 ==> s[k] == frags[k];
      FirstPlaneUnique(frags, n);
    }
  }

  /** Every accepted fragment holds only 0 and 1. */
  ghost predicate BinaryAccepted(frags: seq<Fragment>) {
    forall i, r, c :: Accepted(frags, i) && 0 <= r < frags[i].grid.height && 0 <= c < frags[i].grid.width ==>
      frags[i].grid.cells[r][c] in {0, 1}
  }

  /** Some accepted fragment has a 1 at row r, column c. */
  ghost predicate SomeAcceptedIsOne(frags: seq<Fragment>, r: int, c: int) {
    exists i :: Accepted(frags, i) && 0 <= r < frags[i].grid.height && 0 <= c < frags[i].grid.width &&
                frags[i].grid.cells[r][c] == 1
  }

  /** For 0/1 fragments the written mask is the logical OR of the accepted
      fragments, drawn as 255 on 0. */
  lemma BinaryFragmentsGiveOr(frags: seq<Fragment>)
    requires FirstPlane(frags) < |frags|
    requires frags[FirstPlane(frags)].grid.height > 0 && frags[FirstPlane(frags)].grid.width > 0
    requires BinaryAccepted(frags)
    ensures CompositeMask(frags).Saved?
    ensures var m := CompositeMask(frags).mask;
            forall r, c :: 0 <= r < m.height && 0 <= c < m.width ==>
              m.cells[r][c] == if SomeAcceptedIsOne(frags, r, c) then 255 else 0
  {
    CombineIsElementwiseMax(frags);
    var m := Combine(frags).value;
    var u := CastToUint8(m);
    forall r, c | 0 <= r < m.height && 0 <= c < m.width
      ensures u.cells[r][c] == m.cells[r][c]
      ensures m.cells[r][c] == if SomeAcceptedIsOne(frags, r, c) then 1 else 0
    {
      BinaryCell(frags, m, r, c);
    }
    assert AtMostOne(u);
    var t := Scale(u);
    assert Combine(frags) == Some(m);
    assert CompositeMask(frags) == Saved(t);
    forall r, c | 0 <= r < t.height && 0 <= c < t.width
      ensures t.cells[r][c] == if SomeAcceptedIsOne(frags, r, c) then 255 else 0
    {
      assert u.cells[r][c] == m.cells[r][c];
    }
  }

  lemma BinaryCell(frags: seq<Fragment>, m: Matrix, r: nat, c: nat)
    requires IsElementwiseMax(m, frags) && BinaryAccepted(frags)
    requires r < m.height && c < m.width
    ensures m.cells[r][c] == if SomeAcceptedIsOne(frags, r, c) then 1 else 0
  {
    var i :| Accepted(frags, i) && frags[i].grid.cells[r][c] == m.cells[r][c];
    assert m.cells[r][c] in {0, 1};
    if SomeAcceptedIsOne(frags, r, c) {
      var k :| Accepted(frags, k) && frags[k].grid.cells[r][c] == 1;
      assert frags[k].grid.cells[r][c] <= m.cells[r][c];
    }
  }

  /** The example of a composite: [[1,0],[0,0]] and [[0,0],[0,1]] give [[255,0],[0,255]]. */
  lemma TwoFragmentExample()
    ensures CompositeMask([Plane(Grid(2, 2, [[1, 0], [0, 0]])), Plane(Grid(2, 2, [[0, 0], [0, 1]]))])
            == Saved(Grid(2, 2, [[255, 0], [0, 255]]))
  {
    var a: Matrix := Grid(2, 2, [[1, 0], [0, 0]]);
    var b: Matrix := Grid(2, 2, [[0, 0], [0, 1]]);
    CombineTwo(a, b);
    var m: Matrix := Grid(2, 2, [[1, 0], [0, 1]]);
    ExampleMax(a, b, m);
    ExampleFinish(m);
  }

  /** Two 2-D fragments of one shape combine to their element-wise maximum. */
  lemma CombineTwo(a: Matrix, b: Matrix)
    requires SameShape(a, b)
    ensures Combine([Plane(a), Plane(b)]) == Some(ElementMax(a, b))
  {
    var frags := [Plane(a), Plane(b)];
    assert frags[..1] == [Plane(a)];
    assert [Plane(a)][..0] == [];
    assert Combine([Plane(a)]) == Some(a);
  }

  lemma ExampleMax(a: Matrix, b: Matrix, m: Matrix)
    requires a == Grid(2, 2, [[1, 0], [0, 0]]) && b == Grid(2, 2, [[0, 0], [0, 1]]) && m == Grid(2, 2, [[1, 0], [0, 1]])
    ensures ElementMax(a, b) == m
  {
    var e := ElementMax(a, b);
    assert e.cells[0] == [1, 0] && e.cells[1] == [0, 1];
  }

  lemma ExampleFinish(m: Matrix)
    requires m == Grid(2, 2, [[1, 0], [0, 1]])
    ensures Finish(m) == Saved(Grid(2, 2, [[255, 0], [0, 255]]))
  {
    var u := CastToUint8(m);
    assert u.cells[0] == [1, 0] && u.cells[1] == [0, 1];
    assert AtMostOne(u);
    var t := Scale(u);
    assert t.cells[0] == [255, 0] && t.cells[1] == [0, 255];
    assert t.cells == [[255, 0], [0, 255]];
  }
}
