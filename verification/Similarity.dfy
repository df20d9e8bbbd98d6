/** The score of two vectors, and what it says about their distance. */
module Similarity {

  function Dot(a: seq<real>, b: seq<real>): real
    requires |a| == |b|
  {
    if a == [] then 0.0 else a[0] * b[0] + Dot(a[1..], b[1..])
  }

  function Cosine(a: seq<real>, b: seq<real>): real {
    if a == [] || b == [] || |a| != |b| then 0.0 else Dot(a, b)
  }

  ghost function SquaredNorm(a: seq<real>): real { if a == [] then 0.0 else a[0] * a[0] + SquaredNorm(a[1..]) }

  ghost function SquaredDistance(a: seq<real>, b: seq<real>): real
    requires |a| == |b|
  {
    if a == [] then 0.0 else (a[0] - b[0]) * (a[0] - b[0]) + SquaredDistance(a[1..], b[1..])
  }

  /** The score by the components: of vectors of one dimension, how far their squared norms exceed their squared
      distance, halved; 0 if the dimensions differ or are 0. */
  ghost function PlainScore(a: seq<real>, b: seq<real>): real {
    if |a| == |b| && |a| > 0 then (SquaredNorm(a) + SquaredNorm(b) - SquaredDistance(a, b)) / 2.0 else 0.0
  }

  lemma Square(x: real, y: real)
    ensures (x - y) * (x - y) == x * x + y * y - 2.0 * (x * y)
  {
  }

  lemma {:induction false} DotIsDistance(a: seq<real>, b: seq<real>)
    requires |a| == |b|
    ensures 2.0 * Dot(a, b) == SquaredNorm(a) + SquaredNorm(b) - SquaredDistance(a, b)
  {
    if a != [] {
      DotIsDistance(a[1..], b[1..]);
      Square(a[0], b[0]);
    }
  }

  /** What the score means: twice the score of two vectors of one non-zero dimension is what their squared norms exceed
      their squared distance by, and a mismatched or empty vector scores 0. */
  lemma ScoreIsDistance(a: seq<real>, b: seq<real>)
    ensures |a| == |b| && |a| > 0 ==> 2.0 * Cosine(a, b) == SquaredNorm(a) + SquaredNorm(b) - SquaredDistance(a, b)
    ensures |a| != |b| || |a| == 0 ==> Cosine(a, b) == 0.0
    ensures Cosine(a, b) == PlainScore(a, b)
  {
    if |a| == |b| { DotIsDistance(a, b); }
  }

  /** Among vectors of equal norm the nearer one scores higher. */
  lemma NearerScoresHigher(q: seq<real>, a: seq<real>, b: seq<real>)
    requires |q| == |a| == |b| && |q| > 0 && SquaredNorm(a) == SquaredNorm(b)
    ensures PlainScore(q, a) >= PlainScore(q, b) <==> SquaredDistance(q, a) <= SquaredDistance(q, b)
  {
  }
}
