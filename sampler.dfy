/** Rejection sampling of node positions (generate_coordinates).

    The random source is an infinite stream of candidate triples: the n-th
    iteration of the retry loop draws `draws(n)`.  Coordinates are
    mathematical reals, not floating-point numbers.
 */
module Sampler {

  datatype Coord = Coord(x: real, y: real, z: real)

  /** The defaults the read loop relies on: generate_coordinates(existing_coords). */
  const DefaultMaxDistance: real := 300.0
  const DefaultMinDistance: real := 1.0

  function Abs(a: real): real {
    if a < 0.0 then -a else a
  }

  /** The acceptance test of the retry loop: the candidate lies inside the
      ellipsoid 2x^2 + 2y^2 + z^2 <= maxDistance^2. */
  predicate Accepts(c: Coord, maxDistance: real) {
    2.0 * c.x * c.x + 2.0 * c.y * c.y + c.z * c.z <= maxDistance * maxDistance
  }

  /** Every component lies in [-bound, bound]. */
  predicate WithinCube(c: Coord, bound: real) {
    -bound <= c.x <= bound && -bound <= c.y <= bound && -bound <= c.z <= bound
  }

  /** Some candidate at position `from` or later is accepted, so a retry loop
      started at `from` returns. */
  ghost predicate AcceptedFrom(draws: nat -> Coord, from: nat, maxDistance: real) {
    exists k: nat :: from <= k && Accepts(draws(k), maxDistance)
  }

  /** However far the loops have read, an accepted candidate still comes:
      every retry loop with the default maxDistance returns. */
  ghost predicate Endless(draws: nat -> Coord) {
    forall p: nat :: AcceptedFrom(draws, p, DefaultMaxDistance)
  }

  /** Every candidate from position `from` up to, not including, `to` is
      rejected. */
  ghost predicate RejectedBetween(draws: nat -> Coord, from: nat, to: nat, maxDistance: real) {
    forall j :: from <= j < to ==> !Accepts(draws(j), maxDistance)
  }

  /** A scan from `start` that meets an accepted candidate at `w` meets a
      first accepted one, at `w` or before it. */
  lemma {:induction false} FirstAcceptedExists(draws: nat -> Coord, start: nat, w: nat, maxDistance: real)
    requires start <= w && Accepts(draws(w), maxDistance)
    ensures exists k: nat :: start <= k <= w && Accepts(draws(k), maxDistance) && RejectedBetween(draws, start, k, maxDistance)
    decreases w - start
  {
    if start < w && !Accepts(draws(start), maxDistance) {
      FirstAcceptedExists(draws, start + 1, w, maxDistance);
      var k: nat :| start + 1 <= k <= w && Accepts(draws(k), maxDistance) && RejectedBetween(draws, start + 1, k, maxDistance);
      assert RejectedBetween(draws, start, k, maxDistance);
    } else {
      assert RejectedBetween(draws, start, start, maxDistance);
    }
  }

  /** The position of the first accepted candidate at or after `start`:
      where a retry loop started at `start` stops. */
  ghost function FirstAccepted(draws: nat -> Coord, start: nat, maxDistance: real): (k: nat)
    requires AcceptedFrom(draws, start, maxDistance)
    ensures start <= k && Accepts(draws(k), maxDistance)
  {
    var w: nat :| start <= w && Accepts(draws(w), maxDistance);
    FirstAcceptedExists(draws, start, w, maxDistance);
    var k: nat :| start <= k <= w && Accepts(draws(k), maxDistance) && RejectedBetween(draws, start, k, maxDistance);
    k
  }

  /** Every candidate before that position is rejected. */
  lemma FirstAcceptedFirst(draws: nat -> Coord, start: nat, maxDistance: real)
    requires AcceptedFrom(draws, start, maxDistance)
    ensures forall j :: start <= j < FirstAccepted(draws, start, maxDistance) ==> !Accepts(draws(j), maxDistance)
  {
  }

  /** Where the cursor stands after `n` calls of the sampler with the
      default maxDistance, the first starting at candidate 0. */
  ghost function CursorAfter(draws: nat -> Coord, n: nat): nat
    requires Endless(draws)
  {
    if n == 0 then 0 else FirstAccepted(draws, CursorAfter(draws, n - 1), DefaultMaxDistance) + 1
  }

  /** The results of the first `n` calls of the sampler, in call order. */
  ghost function Samples(draws: nat -> Coord, n: nat): (r: seq<Coord>)
    requires Endless(draws)
    ensures |r| == n
  {
    if n == 0 then [] else Samples(draws, n - 1) + [draws(CursorAfter(draws, n) - 1)]
  }

  /** One more call: it starts where the previous calls left the cursor and
      appends the candidate it stops at. */
  lemma SamplesStep(draws: nat -> Coord, n: nat)
    requires Endless(draws)
    ensures CursorAfter(draws, n + 1) == FirstAccepted(draws, CursorAfter(draws, n), DefaultMaxDistance) + 1
    ensures Samples(draws, n + 1) == Samples(draws, n) + [draws(CursorAfter(draws, n + 1) - 1)]
  {
  }

  /** A call that starts where the first `n` calls left the cursor and
      stops at the first accepted candidate is the (n+1)-th call. */
  lemma SamplesAppend(draws: nat -> Coord, cursor: nat, coords: seq<Coord>, next: nat)
    requires Endless(draws)
    requires cursor == CursorAfter(draws, |coords|) && coords == Samples(draws, |coords|)
    requires next == FirstAccepted(draws, cursor, DefaultMaxDistance) + 1
    ensures next == CursorAfter(draws, |coords| + 1)
    ensures coords + [draws(next - 1)] == Samples(draws, |coords| + 1)
  {
    SamplesStep(draws, |coords|);
  }

  /** Each call returns an accepted candidate, later calls only append, and
      each call starts after the candidate the previous one returned. */
  lemma {:induction false} SamplesInOrder(draws: nat -> Coord, m: nat, n: nat)
    requires Endless(draws)
    requires m <= n
    ensures Samples(draws, m) <= Samples(draws, n)
    ensures CursorAfter(draws, m) <= CursorAfter(draws, n)
    ensures forall i :: 0 <= i < n ==> Accepts(Samples(draws, n)[i], DefaultMaxDistance)
    decreases n
  {
    if m < n {
      SamplesInOrder(draws, m, n - 1);
      assert Samples(draws, n) == Samples(draws, n - 1) + [draws(CursorAfter(draws, n) - 1)];
    } else if 0 < n {
      SamplesInOrder(draws, n - 1, n - 1);
    }
  }

  /** The i-th call (0-based) returns the candidate just before the cursor
      it leaves. */
  lemma {:induction false} SamplesAt(draws: nat -> Coord, n: nat, i: nat)
    requires Endless(draws) && i < n
    ensures Samples(draws, n)[i] == draws(CursorAfter(draws, i + 1) - 1)
    decreases n
  {
    if i < n - 1 {
      SamplesAt(draws, n - 1, i);
    }
  }

  /** A stream that only ever yields the origin always has an accepted
      candidate, and every call of the sampler returns the origin. */
  lemma OriginStreamSamples(draws: nat -> Coord, n: nat)
    requires forall k :: draws(k) == Coord(0.0, 0.0, 0.0)
    ensures Endless(draws)
    ensures forall i :: 0 <= i < n ==> Samples(draws, n)[i] == Coord(0.0, 0.0, 0.0)
  {
    forall p: nat ensures AcceptedFrom(draws, p, DefaultMaxDistance) {
      assert Accepts(draws(p), DefaultMaxDistance);
    }
    forall i | 0 <= i < n ensures Samples(draws, n)[i] == Coord(0.0, 0.0, 0.0) {
      SamplesAt(draws, n, i);
    }
  }

  /** The retry loop: scans the candidates from `start` and returns the first
      accepted one together with the position after it.  The result depends
      only on the candidates and on maxDistance; `existingCoords` and
      `minDistance` are taken and ignored, as in the script's
      generate_coordinates. */
  method GenerateCoordinates(draws: nat -> Coord, start: nat, existingCoords: seq<Coord>,
                             maxDistance: real, minDistance: real)
    returns (c: Coord, next: nat)
    requires AcceptedFrom(draws, start, maxDistance)
    ensures start < next
    ensures c == draws(next - 1) && Accepts(c, maxDistance)
    ensures forall j :: start <= j < next - 1 ==> !Accepts(draws(j), maxDistance)
    ensures next == FirstAccepted(draws, start, maxDistance) + 1
  {
    ghost var k: nat :| start <= k && Accepts(draws(k), maxDistance);
    next := start;
    while true
      invariant start <= next <= k
      invariant forall j :: start <= j < next ==> !Accepts(draws(j), maxDistance)
      decreases k - next
    {
      c := draws(next);
      next := next + 1;
      if Accepts(c, maxDistance) {
        FirstAcceptedFirst(draws, start, maxDistance);
        FirstAcceptedUnique(draws, start, maxDistance, next - 1, FirstAccepted(draws, start, maxDistance));
        return;
      }
    }
  }

  lemma MulPositive(a: real, b: real)
    requires 0.0 < a && 0.0 < b
    ensures 0.0 < a * b
  {
  }

  /** Squaring is strictly monotone on the non-negative reals. */
  lemma SquareStrict(p: real, q: real)
    requires 0.0 <= q
    ensures q < p ==> q * q < p * p
  {
    if q < p {
      MulPositive(p - q, p + q);
      assert p * p - q * q == (p - q) * (p + q);
    }
  }

  lemma SquareBound(a: real, b: real)
    requires a * a <= b * b
    ensures -Abs(b) <= a <= Abs(b)
  {
    assert Abs(a) * Abs(a) == a * a && Abs(b) * Abs(b) == b * b;
    SquareStrict(Abs(a), Abs(b));
  }

  /** An accepted candidate lies in the cube [-|m|, |m|]^3, whatever cube it
      was drawn from; for the default positive maxDistance that is
      [-maxDistance, maxDistance]^3. */
  lemma AcceptedWithinBounds(c: Coord, maxDistance: real)
    requires Accepts(c, maxDistance)
    ensures WithinCube(c, Abs(maxDistance))
    ensures 0.0 <= maxDistance ==> WithinCube(c, maxDistance)
  {
    assert c.x * c.x >= 0.0 && c.y * c.y >= 0.0 && c.z * c.z >= 0.0;
    SquareBound(c.x, maxDistance);
    SquareBound(c.y, maxDistance);
    SquareBound(c.z, maxDistance);
  }

  /** The outcome of the retry loop is fixed by the candidates, the start
      and maxDistance: the accepted position is the first accepted one at
      or after the start, so neither `existingCoords` nor `minDistance` can
      change it. */
  lemma FirstAcceptedUnique(draws: nat -> Coord, start: nat, maxDistance: real, last1: nat, last2: nat)
    requires start <= last1 && Accepts(draws(last1), maxDistance)
    requires forall j :: start <= j < last1 ==> !Accepts(draws(j), maxDistance)
    requires start <= last2 && Accepts(draws(last2), maxDistance)
    requires forall j :: start <= j < last2 ==> !Accepts(draws(j), maxDistance)
    ensures last1 == last2
  {
  }
}
