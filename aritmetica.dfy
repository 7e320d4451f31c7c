/**
 Facts about Euclidean division that the grid generator needs to relate a node
 index `row * m + col` to its row and column.
 */
module Aritmetica {

  lemma MulMonotona(d: int, m: int)
    requires d >= 1 && m > 0
    ensures d * m >= m
  {
  }

  /** One row fewer: (q - 1) * m == q * m - m. */
  lemma MulPred(q: int, m: int)
    ensures (q - 1) * m == q * m - m
  {
  }

  /** Quotient and remainder are unique. */
  lemma DivModUnica(a: int, m: int, q: int, r: int)
    requires m > 0 && 0 <= r < m && a == q * m + r
    ensures a / m == q && a % m == r
  {
    var q', r' := a / m, a % m;
    assert a == q' * m + r';
    if q' > q {
      assert (q' - q) * m == q' * m - q * m;
      MulMonotona(q' - q, m);
    } else if q > q' {
      assert (q - q') * m == q * m - q' * m;
      MulMonotona(q - q', m);
    }
  }

  /** Index `q * m + c` is column `c` of row `q`. */
  lemma Fila(q: int, m: int, c: int)
    requires m > 0 && 0 <= c < m
    ensures (q * m + c) % m == c && (q * m + c) / m == q
  {
    DivModUnica(q * m + c, m, q, c);
  }

  /** Stepping left inside a row lowers the column by one. */
  lemma ModPred(a: int, m: int)
    requires m > 0 && a % m != 0
    ensures (a - 1) % m == a % m - 1 && (a - 1) / m == a / m
  {
    DivModUnica(a - 1, m, a / m, a % m - 1);
  }

  /** Stepping right inside a row raises the column by one. */
  lemma ModSucc(a: int, m: int)
    requires m > 0 && a % m != m - 1
    ensures (a + 1) % m == a % m + 1 && (a + 1) / m == a / m
  {
    DivModUnica(a + 1, m, a / m, a % m + 1);
  }

  /** Stepping a whole row keeps the column. */
  lemma ModFila(a: int, m: int)
    requires m > 0
    ensures (a + m) % m == a % m && (a + m) / m == a / m + 1
  {
    DivModUnica(a + m, m, a / m + 1, a % m);
  }
}
