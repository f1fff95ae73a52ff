/** Arithmetic on the reel's cyclic coordinate.

    The editor's nudge is written with JavaScript's `%`, whose remainder
    takes the sign of the dividend (truncated division), followed by a fix
    for negative results. This module defines that operator, the Euclidean
    residue that the fix is meant to produce, and the facts that connect
    the two. The residue is defined by what it is, the value in `[0, m)`
    that differs from `x` by whole periods, and the other facts follow
    from its uniqueness. */
module Cyclic {

  /** The integer part of `y`, rounded toward zero. */
  function Trunc(y: real): (q: int)
    ensures y >= 0.0 ==> 0.0 <= q as real <= y < q as real + 1.0
    ensures y < 0.0 ==> q as real - 1.0 < y <= q as real <= 0.0
  {
    if y >= 0.0 then y.Floor else -((-y).Floor)
  }

  /** JavaScript's `x % m` for a positive divisor `m`: `x` less the whole
      periods of its quotient truncated toward zero, written here as the
      fractional part of the quotient scaled back by `m`. */
  function TruncRem(x: real, m: real): (r: real)
    requires m > 0.0
    ensures x == r + Trunc(x / m) as real * m
    ensures -m < r < m
    ensures x >= 0.0 ==> r >= 0.0
    ensures x <= 0.0 ==> r <= 0.0
  {
    var y := x / m;
    var f := y - Trunc(y) as real;
    Sign(1.0 - f, m);
    Sign(1.0 + f, m);
    Sign(y, m);
    Sign(f, m);
    f * m
  }

  /** `k` whole periods of length `m`. */
  function Periods(k: int, m: real): real
  {
    k as real * m
  }

  /** `x` lies `r` into a period of length `m`, past `k` whole periods. */
  predicate Splits(x: real, m: real, r: real, k: int)
  {
    0.0 <= r < m && x == r + Periods(k, m)
  }

  /** Every `x` splits into whole periods and a residue. */
  lemma ResidueExists(x: real, m: real)
    requires m > 0.0
    ensures exists r: real, k: int :: Splits(x, m, r, k)
  {
    var y := x / m;
    var k := y.Floor;
    var f := y - k as real;
    assert (1.0 - f) * m > 0.0;
    assert f * m >= 0.0;
    assert Splits(x, m, f * m, k);
  }

  /** The canonical representative of `x` modulo `m`: the value in
      `[0, m)` that differs from `x` by a whole number of periods. */
  ghost function Mod(x: real, m: real): (r: real)
    requires m > 0.0
    ensures 0.0 <= r < m
    ensures exists k: int :: x == r + Periods(k, m)
  {
    ResidueExists(x, m);
    var r: real, k: int :| Splits(x, m, r, k);
    r
  }

  /** A value in `[0, m)` that differs from `x` by `k` periods is `x`'s residue. */
  lemma ModUnique(x: real, m: real, r: real, k: int)
    requires m > 0.0
    requires 0.0 <= r < m
    requires x == r + k as real * m
    ensures Mod(x, m) == r
  {
    var r' := Mod(x, m);
    var k' :| x == r' + Periods(k', m);
    assert r - r' == (k' - k) as real * m by {
      Distribute(k' as real, -(k as real), m);
    }
    NoWholeTurn(r - r', m, k' - k);
  }

  /** Two values in `[0, m)` differ by less than one period, so not by a
      non-zero whole number of them. */
  lemma NoWholeTurn(gap: real, m: real, j: int)
    requires m > 0.0 && -m < gap < m
    requires gap == j as real * m
    ensures j == 0
  {
    if j >= 1 {
      Scale(1.0, j as real, m);
    } else if j <= -1 {
      Scale(j as real, -1.0, m);
    }
  }

  /** The remainder of JavaScript's `%`, with the period added back when it is
      negative, is the Euclidean residue. */
  lemma TruncRemFix(x: real, m: real)
    requires m > 0.0
    ensures TruncRem(x, m) < 0.0 ==> TruncRem(x, m) + m == Mod(x, m)
    ensures TruncRem(x, m) >= 0.0 ==> TruncRem(x, m) == Mod(x, m)
  {
    var q := Trunc(x / m);
    var r := TruncRem(x, m);
    if r < 0.0 {
      assert x == (r + m) + (q - 1) as real * m by {
        Distribute(q as real, -1.0, m);
      }
      ModUnique(x, m, r + m, q - 1);
    } else {
      ModUnique(x, m, r, q);
    }
  }

  /** Adding `y` to a residue and reducing again is the same as reducing `x + y`. */
  lemma ModAdd(x: real, y: real, m: real)
    requires m > 0.0
    ensures Mod(Mod(x, m) + y, m) == Mod(x + y, m)
  {
    var a, b := Mod(x, m), Mod(x + y, m);
    var q :| x == a + Periods(q, m);
    var q' :| x + y == b + Periods(q', m);
    assert a + y == b + (q' - q) as real * m by {
      Distribute(q' as real, -(q as real), m);
    }
    ModUnique(a + y, m, b, q' - q);
  }

  /** Equal values have equal residues (stated on its own so that the
      solver need not look inside `Mod`). */
  lemma Congruent(a: real, b: real, m: real)
    requires m > 0.0 && a == b
    ensures Mod(a, m) == Mod(b, m)
  {
  }

  /** A value already in `[0, m)` is its own residue. */
  lemma ModInRange(x: real, m: real)
    requires m > 0.0
    requires 0.0 <= x < m
    ensures Mod(x, m) == x
  {
    ModUnique(x, m, x, 0);
  }

  /** One whole period is residue 0. */
  lemma ModPeriod(m: real)
    requires m > 0.0
    ensures Mod(m, m) == 0.0
  {
    ModUnique(m, m, 0.0, 1);
  }

  /** A value already in `[0, m)` is unchanged by whole turns. */
  lemma ModTurns(x: real, m: real, k: int)
    requires m > 0.0
    requires 0.0 <= x < m
    ensures Mod(x + k as real * m, m) == x
  {
    ModUnique(x + k as real * m, m, x, k);
  }

  /** Whole frames of height `f`: the frame index of `n * f + s` with
      `0 <= s < f` is `n`. */
  lemma FloorOfFrame(n: int, s: real, f: real)
    requires f > 0.0
    requires 0.0 <= s < f
    ensures ((n as real * f + s) / f).Floor == n
  {
    assert (n as real * f + s) / f == n as real + s / f;
    Fraction(s, f);
  }

  /** Scaling by a positive factor keeps the sign. */
  lemma Sign(a: real, m: real)
    requires m > 0.0
    ensures a > 0.0 ==> a * m > 0.0
    ensures a >= 0.0 ==> a * m >= 0.0
    ensures a <= 0.0 ==> a * m <= 0.0
  {
  }

  /** `x` lies between `j` and `j + 1` periods `f`, for `j` the floor of `x / f`. */
  lemma FloorScaled(x: real, f: real)
    requires f > 0.0
    ensures var j := (x / f).Floor;
            j as real * f <= x < j as real * f + f
  {
    var u := x / f;
    var j := u.Floor as real;
    assert u * f == x;
    ScaleBetween(u, x, f, j, j + 1.0);
    Distribute(j, 1.0, f);
  }

  /** A row `x` of the first `count` frames that lies in frame `j` has `j`
      among those frames. */
  lemma IndexBounds(j: int, x: real, f: real, count: int)
    requires f > 0.0 && j as real * f <= x < j as real * f + f
    requires 0.0 <= x < count as real * f
    ensures 0 <= j < count
  {
    Scale(j as real, -1.0, f);
    Scale(count as real, j as real, f);
  }

  /** Bounds on `u` scale to bounds on `x = u * f`. */
  lemma ScaleBetween(u: real, x: real, f: real, lo: real, hi: real)
    requires f > 0.0 && u * f == x && lo <= u < hi
    ensures lo * f <= x < hi * f
  {
    Scale(lo, u, f);
    Scale(u, hi, f);
  }

  /** `n + 1` steps of `s` are `n` steps and one more. */
  lemma OneMore(n: int, s: real)
    ensures n as real * s + s == (n + 1) as real * s
  {
  }

  /** `(a + b) * m` spelled out. */
  lemma Distribute(a: real, b: real, m: real)
    ensures (a + b) * m == a * m + b * m
  {
  }

  /** Comparisons survive scaling by a positive factor. */
  lemma Scale(a: real, b: real, m: real)
    requires m > 0.0
    ensures a <= b <==> a * m <= b * m
    ensures a < b <==> a * m < b * m
  {
    assert b * m - a * m == (b - a) * m;
  }

  /** A proper fraction of a positive number lies in `[0, 1)`. */
  lemma Fraction(s: real, f: real)
    requires f > 0.0
    requires 0.0 <= s < f
    ensures 0.0 <= s / f < 1.0
  {
    assert (s / f) * f == s;
    Scale(s / f, 1.0, f);
    assert (s / f) * f < 1.0 * f;
    Scale(0.0, s / f, f);
  }
}
