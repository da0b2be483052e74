/** Piece shapes: the fixed pattern table and the quarter-turn rotation (`BlockShape`). */
module Shapes {
  import opened Common

  /** An occupancy pattern indexed `[row][column]`; true where the piece has a square. */
  type Pattern = seq<seq<bool>>

  /** The shape names the spawner draws from. */
  datatype ShapeKind = I | L | T | S | O

  function KindName(k: ShapeKind): string
  {
    match k
    case I => "I"
    case L => "L"
    case T => "T"
    case S => "S"
    case O => "O"
  }

  /** Square (i, j) exists in the pattern and is occupied. */
  predicate At(p: Pattern, i: int, j: int)
  {
    0 <= i < |p| && 0 <= j < |p[i]| && p[i][j]
  }

  /** The occupied squares of a pattern, as (row, column) pairs. */
  function Squares(p: Pattern): set<(int, int)>
  {
    set i, j | 0 <= i < |p| && 0 <= j < |p[i]| && p[i][j] :: (i, j)
  }

  /** At least one row, and every row has the same, non-zero, length. */
  predicate Rectangular(p: Pattern)
  {
    |p| >= 1 && |p[0]| >= 1 && forall i :: 0 <= i < |p| ==> |p[i]| == |p[0]|
  }

  /** What a falling piece carries: a rectangle with at least one occupied square. */
  predicate Solid(p: Pattern)
  {
    Rectangular(p) && exists i, j | 0 <= i < |p| && 0 <= j < |p[i]| :: At(p, i, j)
  }

  /**
   * The shape table with its fallback: the five named patterns, and a single
   * square for any other name.
   */
  function ShapeBlocks(shapeType: string): (p: Pattern)
    ensures Solid(p)
    ensures shapeType !in {"I", "L", "T", "S", "O"} ==> p == [[true]]
  {
    var p :=
      if shapeType == "I" then [[true], [true], [true], [true]]
      else if shapeType == "L" then [[true, false], [true, false], [true, true]]
      else if shapeType == "T" then [[true, true, true], [false, true, false]]
      else if shapeType == "S" then [[false, true, true], [true, true, false]]
      else if shapeType == "O" then [[true, true], [true, true]]
      else [[true]];
    assert At(p, 0, 0) || At(p, 1, 0);
    p
  }

  /** Length of the shortest row: the number of tuples `zip` yields over the rows. */
  function ShortestRow(p: Pattern): (n: nat)
    ensures forall i :: 0 <= i < |p| ==> n <= |p[i]|
    ensures |p| > 0 ==> exists i :: 0 <= i < |p| && n == |p[i]|
    ensures |p| == 0 ==> n == 0
  {
    if |p| == 0 then 0
    else if |p| == 1 then |p[0]|
    else
      var m := ShortestRow(p[1..]);
      assert forall i :: 1 <= i < |p| ==> p[i] == p[1..][i - 1];
      if |p[0]| <= m then |p[0]| else m
  }

  /**
   * `zip(*blocks[::-1])`: reverse the row order, then transpose. Row j of the
   * result is column j of the pattern read from the bottom row up; a ragged
   * pattern is cut to its shortest row, as `zip` does.
   */
  function RotatePattern(p: Pattern): Pattern
  {
    seq(ShortestRow(p), j requires 0 <= j < ShortestRow(p) =>
      seq(|p|, i requires 0 <= i < |p| => p[|p| - 1 - i][j]))
  }

  /** Rotating the pattern twice turns it upside down and mirrors it. */
  function HalfTurn(p: Pattern): Pattern
    requires Rectangular(p)
  {
    seq(|p|, a requires 0 <= a < |p| =>
      seq(|p[0]|, b requires 0 <= b < |p[0]| => p[|p| - 1 - a][|p[0]| - 1 - b]))
  }

  /** An r-by-c rectangle rotates to a c-by-r rectangle whose square (j, i) is square (r-1-i, j). */
  lemma RotateShape(p: Pattern)
    requires Rectangular(p)
    ensures Rectangular(RotatePattern(p))
    ensures |RotatePattern(p)| == |p[0]| && |RotatePattern(p)[0]| == |p|
    ensures forall j, i :: 0 <= j < |p[0]| && 0 <= i < |p| ==>
      RotatePattern(p)[j][i] == p[|p| - 1 - i][j]
  {
    var n := ShortestRow(p);
    var k :| 0 <= k < |p| && n == |p[k]|;
    assert n == |p[0]|;
  }

  lemma SquaresMember(p: Pattern, i: int, j: int)
    ensures (i, j) in Squares(p) <==> At(p, i, j)
  {
  }

  ghost function Image<A, B>(s: set<A>, f: A -> B): set<B>
  {
    set a | a in s :: f(a)
  }

  /** An injective function maps a set onto a set of the same size. */
  lemma {:induction false} ImageSize<A, B>(s: set<A>, f: A -> B)
    requires forall a, b :: a in s && b in s && f(a) == f(b) ==> a == b
    ensures |Image(s, f)| == |s|
    decreases s
  {
    if s != {} {
      var a :| a in s;
      var rest := s - {a};
      ImageSize(rest, f);
      assert Image(s, f) == Image(rest, f) + {f(a)};
      assert f(a) !in Image(rest, f);
    }
  }

  /** Rotation moves every square to a distinct square: the number of occupied squares is kept. */
  lemma RotateSquares(p: Pattern)
    requires Rectangular(p)
    ensures |Squares(RotatePattern(p))| == |Squares(p)|
  {
    var r := |p|;
    var q := RotatePattern(p);
    RotateShape(p);
    var f := (sq: (int, int)) => (sq.1, r - 1 - sq.0);
    var image := Image(Squares(p), f);
    forall sq | sq in Squares(q)
      ensures sq in image
    {
      var a, b := sq.0, sq.1;
      SquaresMember(q, a, b);
      SquaresMember(p, r - 1 - b, a);
      assert f((r - 1 - b, a)) == sq;
    }
    forall sq | sq in image
      ensures sq in Squares(q)
    {
      var pre :| pre in Squares(p) && f(pre) == sq;
      SquaresMember(p, pre.0, pre.1);
      SquaresMember(q, pre.1, r - 1 - pre.0);
    }
    assert Squares(q) == image;
    ImageSize(Squares(p), f);
  }

  lemma RotateTwice(p: Pattern)
    requires Rectangular(p)
    ensures RotatePattern(RotatePattern(p)) == HalfTurn(p)
  {
    var q := RotatePattern(p);
    RotateShape(p);
    RotateShape(q);
    var q2 := RotatePattern(q);
    var h := HalfTurn(p);
    assert |q2| == |h|;
    forall a | 0 <= a < |h|
      ensures q2[a] == h[a]
    {
      assert |q2[a]| == |h[a]|;
      forall b | 0 <= b < |h[a]|
        ensures q2[a][b] == h[a][b]
      {
        assert q2[a][b] == q[|q| - 1 - b][a];
      }
    }
  }

  lemma HalfTurnTwice(p: Pattern)
    requires Rectangular(p)
    ensures Rectangular(HalfTurn(p)) && HalfTurn(HalfTurn(p)) == p
  {
    var h := HalfTurn(p);
    assert Rectangular(h);
    var hh := HalfTurn(h);
    assert |hh| == |p|;
    forall a | 0 <= a < |p|
      ensures hh[a] == p[a]
    {
      assert |hh[a]| == |p[a]|;
    }
  }

  /** Four quarter turns bring a rectangular pattern back to itself. */
  lemma RotateFourTimes(p: Pattern)
    requires Rectangular(p)
    ensures RotatePattern(RotatePattern(RotatePattern(RotatePattern(p)))) == p
  {
    RotateTwice(p);
    HalfTurnTwice(p);
    RotateShape(p);
    RotateShape(RotatePattern(p));
    RotateTwice(RotatePattern(RotatePattern(p)));
  }

  /** A piece pattern stays a piece pattern under rotation, with as many squares. */
  lemma RotateSolid(p: Pattern)
    requires Solid(p)
    ensures Solid(RotatePattern(p))
    ensures |Squares(RotatePattern(p))| == |Squares(p)|
  {
    RotateShape(p);
    var i, j :| 0 <= i < |p| && 0 <= j < |p[i]| && At(p, i, j);
    assert |p[i]| == |p[0]|;
    assert RotatePattern(p)[j][|p| - 1 - i] == p[i][j];
    assert At(RotatePattern(p), j, |p| - 1 - i);
    RotateSquares(p);
  }

  /** `BlockShape`: the shape's colour, its name, its rotation counter in degrees and its pattern. */
  datatype BlockShape = BlockShape(color: Color, shapeType: string, rotation: int, blocks: Pattern)

  /** A freshly created shape: rotation 0 and the table pattern for its name. */
  function NewShape(color: Color, shapeType: string): (s: BlockShape)
    ensures Solid(s.blocks) && s.rotation == 0
  {
    BlockShape(color, shapeType, 0, ShapeBlocks(shapeType))
  }

  /** `BlockShape.rotate`: advance the counter by 90 degrees modulo 360 and turn the pattern. */
  function Rotate(s: BlockShape): (r: BlockShape)
    ensures 0 <= r.rotation < 360
    ensures r.color == s.color && r.shapeType == s.shapeType
    ensures Solid(s.blocks) ==> Solid(r.blocks) && |Squares(r.blocks)| == |Squares(s.blocks)|
  {
    assert Solid(s.blocks) ==>
      (Solid(RotatePattern(s.blocks)) && |Squares(RotatePattern(s.blocks))| == |Squares(s.blocks)|) by {
      if Solid(s.blocks) {
        RotateSolid(s.blocks);
      }
    }
    s.(rotation := (s.rotation + 90) % 360, blocks := RotatePattern(s.blocks))
  }

  /** Four rotations restore a shape, counter included, when the counter is a reachable angle. */
  lemma RotateCycle(s: BlockShape)
    requires Rectangular(s.blocks)
    requires 0 <= s.rotation < 360
    ensures Rotate(Rotate(Rotate(Rotate(s)))) == s
  {
    RotateFourTimes(s.blocks);
  }
}
