/** The expected Brier scores of a language model that draws two tokens, and
    their BrierLM rescaling (brier_score.py and brierlm_score.py). A draw
    scores `I(x1 = y) + I(x2 = y) - I(x1 = x2)`; `p` is the probability the
    model gives the correct token `y`. */
module Brier {

  function Indicator(b: bool): int
  {
    if b then 1 else 0
  }

  /** The score of one pair of draws `x1`, `x2` against the answer `y`. */
  function DrawScore<T(==)>(x1: T, x2: T, y: T): int
  {
    Indicator(x1 == y) + Indicator(x2 == y) - Indicator(x1 == x2)
  }

  /** The four rows of the scenario table: both correct, one correct, two
      different wrong tokens, and the same wrong token twice. */
  lemma ScenarioTable<T>(y: T, w1: T, w2: T)
    requires w1 != y && w2 != y && w1 != w2
    ensures DrawScore(y, y, y) == 1
    ensures DrawScore(y, w1, y) == 1
    ensures DrawScore(w1, w2, y) == 0
    ensures DrawScore(w1, w1, y) == -1
  {
  }

  /** A draw scores in `[-1, 1]`: 1 exactly when some draw is correct, -1
      exactly when both draws are the same wrong token. */
  lemma DrawScoreCases<T>(x1: T, x2: T, y: T)
    ensures -1 <= DrawScore(x1, x2, y) <= 1
    ensures DrawScore(x1, x2, y) == 1 <==> (x1 == y || x2 == y)
    ensures DrawScore(x1, x2, y) == -1 <==> (x1 != y && x1 == x2)
  {
  }

  /** Diverse errors: wrong draws never coincide, `2p - p^2`. */
  function Diverse(p: real): real
  {
    2.0 * p - p * p
  }

  /** Concentrated errors: all wrong mass on one token, `2p - (p^2 + (1-p)^2)`. */
  function Concentrated(p: real): real
  {
    2.0 * p - (p * p + (1.0 - p) * (1.0 - p))
  }

  /** The expected score of two independent draws, each correct (token 0)
      with probability `p` and otherwise the wrong token `w1` (first draw) or
      `w2` (second draw). */
  function ExpectedScore(p: real, w1: int, w2: int): real
  {
    p * p * DrawScore(0, 0, 0) as real
    + p * (1.0 - p) * DrawScore(0, w2, 0) as real
    + (1.0 - p) * p * DrawScore(w1, 0, 0) as real
    + (1.0 - p) * (1.0 - p) * DrawScore(w1, w2, 0) as real
  }

  /** The two formulas are the expected draw score under their error models:
      distinct wrong tokens give the diverse score, one shared wrong token the
      concentrated score. */
  lemma FormulasAreExpectations(p: real, w1: int, w2: int)
    requires w1 != 0 && w2 != 0
    ensures w1 != w2 ==> ExpectedScore(p, w1, w2) == Diverse(p)
    ensures w1 == w2 ==> ExpectedScore(p, w1, w2) == Concentrated(p)
  {
    assert DrawScore(0, 0, 0) == 1;
    assert DrawScore(0, w2, 0) == 1;
    assert DrawScore(w1, 0, 0) == 1;
  }

  /** A square of a number in `[0, 1]` stays in `[0, 1]`. */
  lemma SquareInUnit(q: real)
    requires 0.0 <= q <= 1.0
    ensures 0.0 <= q * q <= q <= 1.0
  {
  }

  /** For `p` in `[0, 1]`, the diverse score is in `[0, 1]`. */
  lemma DiverseRange(p: real)
    requires 0.0 <= p <= 1.0
    ensures 0.0 <= Diverse(p) <= 1.0
  {
    SquareInUnit(1.0 - p);
    assert Diverse(p) == 1.0 - (1.0 - p) * (1.0 - p);
  }

  /** The diverse score never decreases on `[0, 1]`. */
  lemma DiverseMonotone(p: real, q: real)
    requires 0.0 <= p <= q <= 1.0
    ensures Diverse(p) <= Diverse(q)
  {
    assert Diverse(q) - Diverse(p) == (q - p) * (2.0 - p - q);
    assert 0.0 <= (q - p) * (2.0 - p - q);
  }

  /** For `p` in `[0, 1]`, the concentrated score is in `[-1, 1]`, with -1 at
      `p = 0` and 1 at `p = 1`. */
  lemma ConcentratedRange(p: real)
    requires 0.0 <= p <= 1.0
    ensures -1.0 <= Concentrated(p) <= 1.0
    ensures p == 0.0 ==> Concentrated(p) == -1.0
    ensures p == 1.0 ==> Concentrated(p) == 1.0
  {
    SquareInUnit(1.0 - p);
    assert Concentrated(p) == 1.0 - 2.0 * ((1.0 - p) * (1.0 - p));
  }

  function Square(d: real): real
  {
    d * d
  }

  /** The square of a non-zero number is positive. */
  lemma SquarePositive(d: real)
    requires d != 0.0
    ensures Square(d) > 0.0
  {
    calc {
      Square(d);
      d * d;
    > { assert d * d > 0.0 * d; }
      0.0;
    }
  }

  /** A square is never negative, and zero only for zero. */
  lemma SquareSign(d: real)
    ensures Square(d) >= 0.0
    ensures Square(d) == 0.0 <==> d == 0.0
  {
    if d != 0.0 {
      SquarePositive(d);
    }
  }

  /** The overconfidence penalty, diverse minus concentrated, is `(1-p)^2`:
      never negative, and zero exactly at `p = 1`. */
  lemma PenaltyIsSquare(p: real)
    ensures Diverse(p) - Concentrated(p) == Square(1.0 - p)
    ensures Diverse(p) >= Concentrated(p)
    ensures Diverse(p) == Concentrated(p) <==> p == 1.0
  {
    SquareSign(1.0 - p);
  }

  /** `(B + 1) * 50`: the per-token score in `[-1, 1]` rescaled to `[0, 100]`. */
  function BrierLM(b: real): (s: real)
    ensures b == -1.0 ==> s == 0.0
    ensures b == 0.0 ==> s == 50.0
    ensures b == 1.0 ==> s == 100.0
  {
    (b + 1.0) * 50.0
  }

  /** The inverse of the rescaling. */
  function FromBrierLM(s: real): real
  {
    s / 50.0 - 1.0
  }

  /** The rescaling and its inverse undo each other. */
  lemma BrierLMRoundTrip(b: real, s: real)
    ensures FromBrierLM(BrierLM(b)) == b
    ensures BrierLM(FromBrierLM(s)) == s
  {
  }

  /** The rescaling is strictly increasing and maps `[-1, 1]` exactly onto
      `[0, 100]`. */
  lemma BrierLMOrder(a: real, b: real)
    ensures a < b <==> BrierLM(a) < BrierLM(b)
    ensures -1.0 <= b <= 1.0 <==> 0.0 <= BrierLM(b) <= 100.0
  {
  }

  /** For `p` in `[0, 1]`, the diverse BrierLM is in `[50, 100]`. */
  lemma DiverseBrierLMRange(p: real)
    requires 0.0 <= p <= 1.0
    ensures 50.0 <= BrierLM(Diverse(p)) <= 100.0
  {
    DiverseRange(p);
  }

  /** For `p` in `[0, 1]`, the concentrated BrierLM is in `[0, 100]`, and 0
      when every draw is the same wrong token (`p = 0`). */
  lemma ConcentratedBrierLMRange(p: real)
    requires 0.0 <= p <= 1.0
    ensures 0.0 <= BrierLM(Concentrated(p)) <= 100.0
    ensures p == 0.0 ==> BrierLM(Concentrated(p)) == 0.0
  {
    ConcentratedRange(p);
  }

  /** The BrierLM gap between the two curves is `50 (1-p)^2`, so the diverse
      curve is never below the concentrated one. */
  lemma BrierLMGap(p: real)
    ensures BrierLM(Diverse(p)) - BrierLM(Concentrated(p)) == 50.0 * Square(1.0 - p)
    ensures BrierLM(Diverse(p)) >= BrierLM(Concentrated(p))
  {
    PenaltyIsSquare(p);
  }
}
