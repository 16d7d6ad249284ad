/** The support-vertex search over a polygon's cyclic vertex list.  The
    vertex list itself is abstracted to the score of each vertex (its
    projection on the search direction): `score[k]` is the value the search
    computes for vertex `k`.  From a seed vertex the search walks forward
    while the score strictly drops, then backward while it strictly drops,
    and reports the vertex where it stops together with its score.
 */
module Support {

  datatype Option<T> = None | Some(value: T)

  /** `initial || 0`: a missing seed starts the search at vertex 0. */
  function Seed(initial: Option<nat>): nat {
    match initial
    case None => 0
    case Some(k) => k
  }

  /** A usable score list and seed: the seed names one of the vertices,
      so the list is not empty. */
  predicate ValidSearch(score: seq<real>, initial: Option<nat>) {
    Seed(initial) < |score|
  }

  /** The cyclic successor and predecessor of vertex `i`. */
  function Next(n: nat, i: nat): nat
    requires i < n
  {
    if i + 1 == n then 0 else i + 1
  }

  function Prev(n: nat, i: nat): nat
    requires i < n
  {
    if i == 0 then n - 1 else i - 1
  }

  /** The vertex that index `i` stands for between the two walks, where
      the decrement can leave -1 for the last vertex. */
  function Vertex(n: nat, i: int): nat
    requires 1 <= n && -1 <= i < n
  {
    if i == -1 then n - 1 else i
  }

  /** The index steps of the two walks, `(i + 1) % n` and
      `(i - 1 + n) % n`.  The backward step also accepts the -1 that the
      decrement between the walks can leave, which stands for the last
      vertex.  The operands are never negative except for that -1 on a
      single-vertex list, where the source's truncating remainder gives
      negative zero and the Euclidean one gives zero: the same index. */
  method StepForward(i: int, n: nat) returns (j: int)
    requires 0 <= i < n
    ensures j == Next(n, i)
  {
    j := (i + 1) % n;
  }

  method StepBackward(i: int, n: nat) returns (j: int)
    requires 1 <= n && -1 <= i < n
    ensures j == Prev(n, Vertex(n, i))
  {
    if 1 <= i {
      assert i - 1 + n == n * 1 + (i - 1);
    }
    j := (i - 1 + n) % n;
  }

  /** The reported index `Prev(n, b) + 1` names vertex `b`. */
  lemma ReportedIndex(b: nat, n: nat)
    requires b < n
    ensures 1 <= Prev(n, b) + 1 <= n
    ensures (Prev(n, b) + 1) % n == b
  {
  }

  // ---------------------------------------------------------------------
  // Termination measure: how many scores lie strictly below a value

  function CountBelow(score: seq<real>, x: real): (c: nat)
    ensures c <= |score|
  {
    if score == [] then 0
    else (if score[0] < x then 1 else 0) + CountBelow(score[1..], x)
  }

  /** No score lies strictly below itself, so a vertex's own score leaves
      at least that vertex out of the count. */
  lemma {:induction false} CountBelowOwnScore(score: seq<real>, k: nat)
    requires k < |score|
    ensures CountBelow(score, score[k]) < |score|
  {
    if k > 0 {
      CountBelowOwnScore(score[1..], k - 1);
    }
  }

  /** Lowering the threshold from `x` to the score of some vertex below
      `x` removes that vertex from the count. */
  lemma {:induction false} CountBelowDrops(score: seq<real>, k: nat, x: real)
    requires k < |score| && score[k] < x
    ensures CountBelow(score, score[k]) < CountBelow(score, x)
  {
    if k == 0 {
      CountBelowMonotone(score[1..], score[0], x);
    } else {
      CountBelowDrops(score[1..], k - 1, x);
    }
  }

  lemma {:induction false} CountBelowMonotone(score: seq<real>, y: real, x: real)
    requires y <= x
    ensures CountBelow(score, y) <= CountBelow(score, x)
  {
    if score != [] {
      CountBelowMonotone(score[1..], y, x);
    }
  }

  // ---------------------------------------------------------------------
  // The two walks as functions of the scores

  /** Where the forward walk from vertex `i` stops: the first vertex,
      stepping forward, whose successor does not score strictly lower. */
  function ForwardStop(score: seq<real>, i: nat): (j: nat)
    requires i < |score|
    ensures j < |score|
    ensures score[j] <= score[i]
    ensures score[j] <= score[Next(|score|, j)]
    decreases CountBelow(score, score[i])
  {
    var k := Next(|score|, i);
    if score[i] > score[k] then
      CountBelowDrops(score, k, score[i]);
      ForwardStop(score, k)
    else
      i
  }

  /** Where the backward walk from vertex `c` stops: the first vertex,
      stepping backward, whose predecessor does not score strictly lower.
      Unless the walk stops at once, its last step was a strict descent. */
  function BackwardStop(score: seq<real>, c: nat): (b: nat)
    requires c < |score|
    ensures b < |score|
    ensures score[b] <= score[c]
    ensures score[b] <= score[Prev(|score|, b)]
    ensures b == c || score[b] < score[Next(|score|, b)]
    decreases CountBelow(score, score[c])
  {
    var k := Prev(|score|, c);
    if score[c] > score[k] then
      CountBelowDrops(score, k, score[c]);
      BackwardStop(score, k)
    else
      c
  }

  /** The vertex the search settles on: the backward walk from where the
      forward walk stopped. */
  function SupportIndex(score: seq<real>, s: nat): nat
    requires s < |score|
  {
    BackwardStop(score, ForwardStop(score, s))
  }

  /** One iteration of the forward walk from `from`: either it continues
      to the successor, which stops where `from` stops and lowers the
      measure, or `from` is where it stops. */
  lemma ForwardIteration(score: seq<real>, from: nat)
    requires from < |score|
    ensures var k := Next(|score|, from);
            if score[from] > score[k] then
              ForwardStop(score, k) == ForwardStop(score, from) &&
              CountBelow(score, score[k]) < CountBelow(score, score[from])
            else
              ForwardStop(score, from) == from
  {
    var k := Next(|score|, from);
    if score[from] > score[k] {
      CountBelowDrops(score, k, score[from]);
    }
  }

  /** One iteration of the backward walk, in the same shape. */
  lemma BackwardIteration(score: seq<real>, from: nat)
    requires from < |score|
    ensures var k := Prev(|score|, from);
            if score[from] > score[k] then
              BackwardStop(score, k) == BackwardStop(score, from) &&
              CountBelow(score, score[k]) < CountBelow(score, score[from])
            else
              BackwardStop(score, from) == from
  {
    var k := Prev(|score|, from);
    if score[from] > score[k] {
      CountBelowDrops(score, k, score[from]);
    }
  }

  /** The vertex the search settles on is a cyclic local minimum that scores
      no higher than the seed. */
  lemma SupportIndexLocalMinimum(score: seq<real>, s: nat)
    requires s < |score|
    ensures SupportIndex(score, s) < |score|
    ensures score[SupportIndex(score, s)] <= score[s]
    ensures score[SupportIndex(score, s)] <= score[Next(|score|, SupportIndex(score, s))]
    ensures score[SupportIndex(score, s)] <= score[Prev(|score|, SupportIndex(score, s))]
  {
  }

  /** Seeding the search with the vertex it found finds that vertex again
      at once: the cached index from a previous search is a fixed point. */
  lemma SupportIndexIdempotent(score: seq<real>, s: nat)
    requires s < |score|
    ensures SupportIndex(score, SupportIndex(score, s)) == SupportIndex(score, s)
  {
  }

  /** Every vertex that is a cyclic local minimum is found from itself, so
      every local minimum is reachable. */
  lemma LocalMinimumIsFixedPoint(score: seq<real>, m: nat)
    requires m < |score|
    requires score[m] <= score[Next(|score|, m)] && score[m] <= score[Prev(|score|, m)]
    ensures SupportIndex(score, m) == m
  {
  }

  // ---------------------------------------------------------------------
  // The search as the repository writes it

  /** The first walk: `next = score[i]; do { v = next; i = (i + 1) % n;
      next = score[i]; } while (v > next)`.  It ends one vertex past the
      vertex where the forward walk stops, with `v` the score of that
      vertex; `steps` counts the iterations. */
  method ForwardWalk(score: seq<real>, start: nat) returns (i: int, v: real, ghost steps: nat)
    requires start < |score|
    ensures 0 <= ForwardStop(score, start) < |score|
    ensures i == Next(|score|, ForwardStop(score, start))
    ensures v == score[ForwardStop(score, start)]
    ensures 1 <= steps && steps + CountBelow(score, v) <= |score|
  {
    var n := |score|;
    i := start;
    var next := score[i];
    CountBelowOwnScore(score, i);
    ghost var c: nat := 0;
    steps := 0;
    while true
      invariant 0 <= i < n && next == score[i]
      invariant ForwardStop(score, i) == ForwardStop(score, start)
      invariant steps + CountBelow(score, next) < n
      decreases CountBelow(score, next)
    {
      v := next;
      ghost var from: nat := i;
      i := StepForward(i, n);
      next := score[i];
      steps := steps + 1;
      ForwardIteration(score, from);
      if !(v > next) {
        c := from;
        break;
      }
    }
    assert c == ForwardStop(score, start);
  }

  /** The second walk: `next = v; do { v = next; i = (i - 1 + n) % n;
      next = score[i]; } while (v > next)`, entered with `v` the score of
      the vertex `i` stands for.  It ends one vertex before the vertex where
      the backward walk stops, with `v` the score of that vertex; every
      iteration but the last lowers the score. */
  method BackwardWalk(score: seq<real>, start: int, entry: real)
    returns (i: int, v: real, ghost steps: nat)
    requires 1 <= |score| && -1 <= start < |score|
    requires entry == score[Vertex(|score|, start)]
    ensures 0 <= BackwardStop(score, Vertex(|score|, start)) < |score|
    ensures i == Prev(|score|, BackwardStop(score, Vertex(|score|, start)))
    ensures v == score[BackwardStop(score, Vertex(|score|, start))]
    ensures 1 <= steps && steps + CountBelow(score, v) <= CountBelow(score, entry) + 1
  {
    var n := |score|;
    ghost var c := Vertex(n, start);
    i := start;
    ghost var pos: nat := c;
    ghost var b: nat := 0;
    var next := entry;
    steps := 0;
    while true
      invariant -1 <= i < n && pos == Vertex(n, i)
      invariant next == score[pos]
      invariant BackwardStop(score, pos) == BackwardStop(score, c)
      invariant steps + CountBelow(score, next) <= CountBelow(score, entry)
      decreases CountBelow(score, next)
    {
      v := next;
      ghost var from := pos;
      i := StepBackward(i, n);
      pos := i;
      next := score[i];
      steps := steps + 1;
      BackwardIteration(score, from);
      if !(v > next) {
        b := from;
        break;
      }
    }
    assert b == BackwardStop(score, c);
  }

  /** The search as written.  `i` is kept as the source keeps it: after the
      forward walk it is decremented (and is -1 when that walk stopped on the
      last vertex), and after the backward walk it is incremented without
      reduction, so vertex 0 is reported as `|score|`.  The ghost results
      count the iterations of each walk. */
  method MinDot2AsWritten(score: seq<real>, initial: Option<nat>)
    returns (i: int, v: real, ghost forwardSteps: nat, ghost backwardSteps: nat)
    requires ValidSearch(score, initial)
    ensures 1 <= i <= |score| && i % |score| == SupportIndex(score, Seed(initial))
    ensures v == score[SupportIndex(score, Seed(initial))]
    ensures v <= score[Seed(initial)]
    ensures v <= score[Next(|score|, SupportIndex(score, Seed(initial)))]
    ensures v <= score[Prev(|score|, SupportIndex(score, Seed(initial)))]
    ensures 1 <= forwardSteps && 1 <= backwardSteps
    ensures forwardSteps + backwardSteps <= |score| + 1
  {
    var n := |score|;
    ghost var s := Seed(initial);
    i := Seed(initial);
    i, v, forwardSteps := ForwardWalk(score, i);
    ghost var c := ForwardStop(score, s);
    i := i - 1;
    assert Vertex(n, i) == c;
    i, v, backwardSteps := BackwardWalk(score, i, v);
    ghost var b := BackwardStop(score, c);
    ReportedIndex(b, n);
    i := i + 1;
    SupportIndexLocalMinimum(score, s);
  }

  /** The search with the reported index reduced to a vertex of the list,
      so that it can seed the next search. */
  method MinDot2(score: seq<real>, initial: Option<nat>) returns (i: nat, v: real)
    requires ValidSearch(score, initial)
    ensures i < |score| && v == score[i]
    ensures i == SupportIndex(score, Seed(initial))
    ensures v <= score[Seed(initial)]
    ensures v <= score[Next(|score|, i)] && v <= score[Prev(|score|, i)]
  {
    var reported: int;
    ghost var fwd: nat, bwd: nat;
    reported, v, fwd, bwd := MinDot2AsWritten(score, initial);
    i := reported % |score|;
    SupportIndexLocalMinimum(score, Seed(initial));
  }

  /** The search as written can report an index that names no vertex: with
      scores [0, 1] and no seed, vertex 0 is the minimum and is reported as
      2, the length of the list, so the result cannot seed the next search. */
  method AsWrittenReportsLengthForVertexZero() returns (i: int)
    ensures i == 2 && !ValidSearch([0.0, 1.0], Some(i))
  {
    var v: real;
    ghost var fwd: nat, bwd: nat;
    i, v, fwd, bwd := MinDot2AsWritten([0.0, 1.0], None);
  }

  /** The corrected search's result is always a valid seed, and seeding
      with it gives back the same vertex and score. */
  lemma CorrectedResultReseeds(score: seq<real>, initial: Option<nat>, i: nat)
    requires ValidSearch(score, initial)
    requires i == SupportIndex(score, Seed(initial))
    ensures ValidSearch(score, Some(i))
    ensures SupportIndex(score, Seed(Some(i))) == i
  {
  }
}
