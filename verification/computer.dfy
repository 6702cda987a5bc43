/**
 The pure input-synthesis helpers of the tool server's computer tool: the
 waypoints of a mouse drag and the splitting of text into fixed-size pieces.
 */
module Computer {
  import opened Wrappers

  /** Pixels covered by one drag waypoint. */
  const DragStep: int := 30

  function Abs(x: int): nat {
    if x < 0 then -x else x
  }

  function Max(a: nat, b: nat): nat {
    if a < b then b else a
  }

  function Min(a: int, b: int): int {
    if a < b then a else b
  }

  // ---------------------------------------------------------------------
  // Integer arithmetic helpers
  // ---------------------------------------------------------------------

  /** Euclidean division of naturals, bracketed by multiples of the divisor. */
  lemma DivBracket(a: nat, b: int)
    requires b > 0
    ensures (a / b) * b <= a < (a / b) * b + b
  {
  }

  /** Multiplying by `d` keeps (d >= 0) or reverses (d < 0) an order. */
  lemma MulOrder(d: int, i: int, j: int)
    ensures i <= j && d >= 0 ==> d * i <= d * j
    ensures i <= j && d < 0 ==> d * j <= d * i
  {
  }

  /** Division of naturals by a positive divisor is monotone. */
  lemma DivMonotone(a: nat, b: nat, n: int)
    requires a <= b && n > 0
    ensures a / n <= b / n
  {
    DivBracket(a, n);
    DivBracket(b, n);
    MulOrder(n, b / n + 1, a / n);
  }

  lemma DivOfMultiple(d: nat, n: int)
    requires n > 0
    ensures (d * n) / n == d
  {
    DivBracket(d * n, n);
    var q := (d * n) / n;
    MulOrder(n, q + 1, d);
    MulOrder(n, d + 1, q);
  }

  // ---------------------------------------------------------------------
  // Truncating division
  // ---------------------------------------------------------------------

  /** Python's `int(a / b)`: the quotient rounded toward zero. Dafny's `/` is
      Euclidean, which differs for negative operands. */
  function TruncDiv(a: int, b: int): (q: int)
    requires b != 0
    ensures Abs(q) * Abs(b) <= Abs(a) < Abs(q) * Abs(b) + Abs(b)
    ensures (a >= 0) == (b > 0) ==> q >= 0
    ensures (a >= 0) != (b > 0) ==> q <= 0
  {
    var q0 := Abs(a) / Abs(b);
    DivBracket(Abs(a), Abs(b));
    if (a >= 0) == (b > 0) then q0 else -q0
  }

  /** Truncation is symmetric about zero: negating the dividend negates the
      quotient, unlike Euclidean division. */
  lemma TruncDivNegate(a: int, b: int)
    requires b > 0
    ensures TruncDiv(-a, b) == -TruncDiv(a, b)
  {
  }

  /** The two divisions agree on naturals and disagree on -7 / 2. */
  lemma TruncDivAgainstEuclidean(a: nat, b: int)
    requires b > 0
    ensures TruncDiv(a, b) == a / b
    ensures TruncDiv(-7, 2) == -3 && -7 / 2 == -4
  {
  }

  /** Truncating division by a positive divisor is monotone in the dividend. */
  lemma TruncDivMonotone(a: int, b: int, n: int)
    requires n > 0 && a <= b
    ensures TruncDiv(a, n) <= TruncDiv(b, n)
  {
    if a >= 0 {
      DivMonotone(a, b, n);
    } else if b < 0 {
      DivMonotone(-b, -a, n);
    }
  }

  lemma TruncDivOfMultiple(d: int, n: int)
    requires n > 0
    ensures TruncDiv(d * n, n) == d
  {
    if d >= 0 {
      MulOrder(d, 0, n);
      DivOfMultiple(d, n);
    } else {
      assert d * n == -((-d) * n);
      MulOrder(-d, 0, n);
      DivOfMultiple(-d, n);
    }
  }

  // ---------------------------------------------------------------------
  // gen_path
  // ---------------------------------------------------------------------

  datatype Point = Point(x: int, y: int)

  /** The number of intermediate waypoints of a drag by (dx, dy): the larger
      of the two axis distances divided by the step, truncated. */
  function DragSteps(dx: int, dy: int): nat {
    Max(Abs(TruncDiv(dx, DragStep)), Abs(TruncDiv(dy, DragStep)))
  }

  /** Offset of intermediate waypoint `i` of `steps` along an axis of length `d`. */
  function Offset(d: int, i: int, steps: int): int
    requires steps > 0
  {
    TruncDiv(d * i, steps)
  }

  /** The waypoints of a drag from the source to the target: the source,
      `steps` intermediate points of which the i-th is offset by
      `trunc(d * i / steps)` on each axis, then the target. */
  function GenPath(sourceX: int, sourceY: int, targetX: int, targetY: int): (path: seq<Point>)
    ensures |path| == DragSteps(targetX - sourceX, targetY - sourceY) + 2
    ensures path[0] == Point(sourceX, sourceY)
    ensures path[|path| - 1] == Point(targetX, targetY)
    ensures |path| > 2 ==> path[1] == path[0]
  {
    var dx := targetX - sourceX;
    var dy := targetY - sourceY;
    var steps := DragSteps(dx, dy);
    [Point(sourceX, sourceY)]
      + seq(steps, i requires 0 <= i < steps =>
              Point(sourceX + Offset(dx, i, steps), sourceY + Offset(dy, i, steps)))
      + [Point(targetX, targetY)]
  }

  /** The step count is the longer axis distance measured in whole steps. */
  lemma DragStepsMeasure(dx: int, dy: int)
    ensures DragSteps(dx, dy) * DragStep <= Max(Abs(dx), Abs(dy))
    ensures Max(Abs(dx), Abs(dy)) < (DragSteps(dx, dy) + 1) * DragStep
  {
    var qx := Abs(TruncDiv(dx, DragStep));
    var qy := Abs(TruncDiv(dy, DragStep));
    assert qx * DragStep <= Abs(dx) < (qx + 1) * DragStep;
    assert qy * DragStep <= Abs(dy) < (qy + 1) * DragStep;
  }

  /** A drag shorter than one step on both axes has no intermediate waypoint:
      the path is exactly the source then the target. */
  lemma GenPathShortDrag(sourceX: int, sourceY: int, targetX: int, targetY: int)
    requires Abs(targetX - sourceX) < DragStep && Abs(targetY - sourceY) < DragStep
    ensures GenPath(sourceX, sourceY, targetX, targetY)
            == [Point(sourceX, sourceY), Point(targetX, targetY)]
  {
    DragStepsMeasure(targetX - sourceX, targetY - sourceY);
  }

  /** Which multiple of `d / steps` path point `k` is offset by: the source is
      the 0th, intermediate point `k` the (k-1)th, the target the steps-th. */
  function Weight(k: int, steps: nat): int {
    if k == 0 then 0 else if k <= steps then k - 1 else steps
  }

  /** With at least one step, every point of the path, endpoints included,
      is the source offset by `trunc(d * Weight(k) / steps)` on each axis. */
  lemma GenPathPoint(sourceX: int, sourceY: int, targetX: int, targetY: int, k: int)
    requires DragSteps(targetX - sourceX, targetY - sourceY) > 0
    requires 0 <= k < |GenPath(sourceX, sourceY, targetX, targetY)|
    ensures var dx, dy := targetX - sourceX, targetY - sourceY;
            var steps := DragSteps(dx, dy);
            GenPath(sourceX, sourceY, targetX, targetY)[k]
              == Point(sourceX + TruncDiv(dx * Weight(k, steps), steps),
                       sourceY + TruncDiv(dy * Weight(k, steps), steps))
  {
    var dx, dy := targetX - sourceX, targetY - sourceY;
    var steps := DragSteps(dx, dy);
    if k == 0 {
      assert dx * 0 == 0 && dy * 0 == 0;
    } else if k == steps + 1 {
      TruncDivOfMultiple(dx, steps);
      TruncDivOfMultiple(dy, steps);
    }
  }

  /** One coordinate moves from `from` to `to` passing `a` then `b`. */
  ghost predicate Toward(from: int, a: int, b: int, to: int) {
    if from <= to then from <= a <= b <= to else from >= a >= b >= to
  }

  /** Along an axis of length `d`, the offsets at weights i <= j lie in order
      between 0 and d. */
  lemma OffsetsInOrder(d: int, i: int, j: int, steps: int)
    requires 0 <= i <= j <= steps && steps > 0
    ensures Toward(0, TruncDiv(d * i, steps), TruncDiv(d * j, steps), d)
  {
    MulOrder(d, 0, i);
    MulOrder(d, i, j);
    MulOrder(d, j, steps);
    assert d * 0 == 0;
    if d >= 0 {
      TruncDivMonotone(d * 0, d * i, steps);
      TruncDivMonotone(d * i, d * j, steps);
      TruncDivMonotone(d * j, d * steps, steps);
    } else {
      TruncDivMonotone(d * i, d * 0, steps);
      TruncDivMonotone(d * j, d * i, steps);
      TruncDivMonotone(d * steps, d * j, steps);
    }
    TruncDivOfMultiple(d, steps);
  }

  /** Every coordinate moves monotonically from the source to the target along
      the path, so every waypoint lies in the box spanned by the endpoints. */
  lemma GenPathMonotone(sourceX: int, sourceY: int, targetX: int, targetY: int, a: int, b: int)
    requires 0 <= a <= b < |GenPath(sourceX, sourceY, targetX, targetY)|
    ensures var path := GenPath(sourceX, sourceY, targetX, targetY);
            && Toward(sourceX, path[a].x, path[b].x, targetX)
            && Toward(sourceY, path[a].y, path[b].y, targetY)
  {
    var dx, dy := targetX - sourceX, targetY - sourceY;
    var steps := DragSteps(dx, dy);
    if steps > 0 {
      GenPathPoint(sourceX, sourceY, targetX, targetY, a);
      GenPathPoint(sourceX, sourceY, targetX, targetY, b);
      OffsetsInOrder(dx, Weight(a, steps), Weight(b, steps), steps);
      OffsetsInOrder(dy, Weight(a, steps), Weight(b, steps), steps);
    }
  }

  // ---------------------------------------------------------------------
  // chunks
  // ---------------------------------------------------------------------

  /** Python's `s[lo:hi]` for 0 <= lo <= hi: the bounds are clamped to the
      string. */
  function Slice(s: string, lo: nat, hi: nat): string
    requires lo <= hi
  {
    s[Min(lo, |s|)..Min(hi, |s|)]
  }

  /** `len(range(0, n, size))` for a positive size. */
  function RangeLength(n: nat, size: int): nat
    requires size > 0
  {
    (n + size - 1) / size
  }

  /** `[s[i: i + size] for i in range(0, len(s), size)]`. A zero size makes
      `range` raise (None); a negative size gives an empty range. */
  function Chunks(s: string, size: int): (r: Option<seq<string>>)
    ensures r.None? <==> size == 0
    ensures size < 0 ==> r == Some([])
    ensures size > 0 ==> |r.value| == RangeLength(|s|, size)
  {
    if size == 0 then None
    else if size < 0 then Some([])
    else
      var count := RangeLength(|s|, size);
      Some(seq(count, k requires 0 <= k < count => Slice(s, k * size, k * size + size)))
  }

  /** The number of chunks is the length divided by the size, rounded up. */
  lemma ChunkCount(n: nat, size: int)
    requires size > 0
    ensures n == 0 <==> RangeLength(n, size) == 0
    ensures RangeLength(n, size) > 0 ==>
              (RangeLength(n, size) - 1) * size < n <= RangeLength(n, size) * size
  {
    var c := RangeLength(n, size);
    DivBracket(n + size - 1, size);
    assert (c + 1) * size == c * size + size;
    assert (c - 1) * size == c * size - size;
    MulOrder(size, 1, c);
  }

  /** Where chunk `k` starts: inside the string, a full size before the end
      for all but the last chunk, and within one size of the end for the last. */
  lemma ChunkStart(n: nat, size: int, k: int)
    requires size > 0
    requires 0 <= k < RangeLength(n, size)
    ensures 0 <= k * size < n
    ensures k < RangeLength(n, size) - 1 ==> k * size + size <= n
    ensures k == RangeLength(n, size) - 1 ==> n <= k * size + size
  {
    var c := RangeLength(n, size);
    ChunkCount(n, size);
    MulOrder(size, 0, k);
    MulOrder(size, k, c - 1);
    MulOrder(size, k + 1, c - 1);
    assert (k + 1) * size == k * size + size;
    assert c * size == (c - 1) * size + size;
  }

  /** There are ceil(|s| / size) chunks: none for the empty string, else as
      many as it takes to cover the string with the last one non-empty. */
  lemma ChunksCount(s: string, size: int)
    requires size > 0
    ensures var r := Chunks(s, size).value;
            && (r == [] <==> s == [])
            && (r != [] ==> (|r| - 1) * size < |s| <= |r| * size)
  {
    ChunkCount(|s|, size);
  }

  /** Every chunk but the last has exactly `size` characters; the last has
      between 1 and `size`. */
  lemma ChunksSizes(s: string, size: int)
    requires size > 0
    ensures var r := Chunks(s, size).value;
            && (forall k :: 0 <= k < |r| - 1 ==> |r[k]| == size)
            && (r != [] ==> 1 <= |r[|r| - 1]| <= size)
  {
    var r := Chunks(s, size).value;
    forall k | 0 <= k < |r|
      ensures k < |r| - 1 ==> |r[k]| == size
      ensures k == |r| - 1 ==> 1 <= |r[k]| <= size
    {
      ChunkStart(|s|, size, k);
    }
  }

  /** The concatenation of a sequence of strings. */
  function Concat(parts: seq<string>): string {
    if |parts| == 0 then [] else Concat(parts[..|parts| - 1]) + parts[|parts| - 1]
  }

  /** Chunk `k` is the slice of `size` characters starting at `k * size`,
      cut short by the end of the string. */
  lemma ChunkContents(s: string, size: int, k: int)
    requires size > 0
    requires 0 <= k < |Chunks(s, size).value|
    ensures k * size < |s|
    ensures Chunks(s, size).value[k] == s[k * size..Min(k * size + size, |s|)]
  {
    ChunkStart(|s|, size, k);
  }

  /** The first k chunks concatenate to the first k * size characters. */
  lemma {:induction false} ChunksPrefix(s: string, size: int, k: nat)
    requires size > 0
    requires k <= |Chunks(s, size).value|
    ensures Concat(Chunks(s, size).value[..k]) == s[..Min(k * size, |s|)]
  {
    var r := Chunks(s, size).value;
    if k == 0 {
      assert k * size == 0;
    } else {
      ChunksPrefix(s, size, k - 1);
      ChunkContents(s, size, k - 1);
      var lo := (k - 1) * size;
      var hi := Min(lo + size, |s|);
      assert k * size == lo + size;
      var p := r[..k];
      assert Concat(p) == Concat(p[..k - 1]) + p[k - 1];
      assert p[..k - 1] == r[..k - 1] && p[k - 1] == r[k - 1];
      assert Concat(p) == s[..lo] + s[lo..hi];
      assert s[..lo] + s[lo..hi] == s[..hi];
    }
  }

  /** Concatenating the chunks gives back the string. */
  lemma ChunksConcat(s: string, size: int)
    requires size > 0
    ensures Concat(Chunks(s, size).value) == s
  {
    var r := Chunks(s, size).value;
    ChunksPrefix(s, size, |r|);
    assert r[..|r|] == r;
    ChunkCount(|s|, size);
  }
}
