/** Row-major numbering of a grid: the arithmetic that the mesh generators rely on. */
module Grid {

  /** Cell (i, j) of a grid with `n` columns. */
  function At(i: int, j: int, n: int): int {
    i * n + j
  }

  lemma AtInRange(i: int, j: int, m: int, n: int)
    requires 0 <= i < m && 0 <= j < n
    ensures 0 <= At(i, j, n) < m * n
  {
    assert i * n <= (m - 1) * n;
  }

  lemma MulBound(d: int, n: int)
    requires n > 0
    ensures d >= 1 ==> d * n >= n
    ensures d <= -1 ==> d * n <= -n
  {
  }

  lemma Decode(i: int, j: int, n: int)
    requires 0 <= i && 0 <= j < n
    ensures At(i, j, n) / n == i && At(i, j, n) % n == j
  {
    var q, r := At(i, j, n) / n, At(i, j, n) % n;
    assert q * n + r == i * n + j;
    assert (q - i) * n == j - r;
    MulBound(q - i, n);
  }

  lemma Encode(x: int, m: int, n: int)
    requires 0 <= x < m * n && n > 0
    ensures 0 <= x / n < m && 0 <= x % n < n && At(x / n, x % n, n) == x
  {
    var q := x / n;
    assert q * n + x % n == x;
    assert (q - m) * n == q * n - m * n;
    MulBound(q - m + 1, n);
    MulBound(q, n);
  }

  /** `(i + 1) % n` for an index of the range. */
  function Succ(i: int, n: int): int {
    if i + 1 == n then 0 else i + 1
  }

  function Pred(i: int, n: int): int {
    if i == 0 then n - 1 else i - 1
  }

  lemma ModSucc(i: int, n: int)
    requires 0 <= i < n
    ensures i % n == i && (i + 1) % n == Succ(i, n)
  {
    if i + 1 < n {
      SmallMod(i + 1, n);
    }
    SmallMod(i, n);
  }

  lemma SmallMod(i: int, n: int)
    requires 0 <= i < n
    ensures i % n == i
  {
  }

  /** Appends `m` rows of `n` vertices to `before` of them. */
  method AppendGrid(m: nat, n: nat, before: nat) returns (vertices: nat)
    ensures vertices == before + m * n
  {
    vertices := before;
    for i := 0 to m
      invariant vertices == before + i * n
    {
      for j := 0 to n
        invariant vertices == before + At(i, j, n)
      {
        vertices := vertices + 1;
      }
      assert At(i, n, n) == (i + 1) * n;
    }
  }
}
