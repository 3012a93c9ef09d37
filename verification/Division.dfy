/** Maximum and minimum, and quotients and remainders by their defining equation. */
module Division {

  function Max(a: int, b: int): (m: int) {
    if a < b then b else a
  }

  function Min(a: int, b: int): (m: int) {
    if a < b then a else b
  }

  lemma Decompose(x: int, m: int)
    requires m > 0
    ensures x == m * (x / m) + x % m && 0 <= x % m < m
  {
  }

  lemma RemainderIsUnique(x: int, m: int, q: int, r: int)
    requires 0 <= r < m && x == m * q + r
    ensures x / m == q && x % m == r
  {
    var q', r' := x / m, x % m;
    assert x == m * q' + r' && 0 <= r' < m;
    assert m * (q - q') == r' - r && m * (q' - q) == r - r';
    if q > q' {
      MulAtLeast(m, q - q');
    } else if q < q' {
      MulAtLeast(m, q' - q);
    }
  }

  lemma MulAtLeast(m: int, k: int)
    requires 0 < m && 1 <= k
    ensures m <= m * k
  {
  }

  lemma MulMono(m: int, a: int, b: int)
    requires 0 <= m && a <= b
    ensures m * a <= m * b
  {
  }

  lemma MulNext(m: int, a: int)
    ensures m * (a + 1) == m * a + m
  {
  }

  lemma WrapAround(i: nat, n: nat)
    requires i < n
    ensures (i + 1) % n == if i + 1 == n then 0 else i + 1
  {
    if i + 1 == n {
      RemainderIsUnique(n, n, 1, 0);
    } else {
      RemainderIsUnique(i + 1, n, 0, i + 1);
    }
  }

  /** Counting on in turn: the next number's remainder is the next remainder. */
  lemma NextInTurn(t: nat, n: nat)
    requires n > 0
    ensures (t + 1) % n == (t % n + 1) % n
  {
    Decompose(t, n);
    var q, r := t / n, t % n;
    WrapAround(r, n);
    if r + 1 < n {
      RemainderIsUnique(t + 1, n, q, r + 1);
    } else {
      MulNext(n, q);
      RemainderIsUnique(t + 1, n, q + 1, 0);
    }
  }

  /** Different numbers with the same remainder are a whole round apart. */
  lemma SameTurnApart(t: nat, u: nat, n: nat)
    requires n > 0 && t < u && t % n == u % n
    ensures t + n <= u
  {
    Decompose(t, n);
    Decompose(u, n);
    var d := u / n - t / n;
    assert n * d == u - t;
    if d <= 0 {
      MulMono(n, d, 0);
    } else {
      MulAtLeast(n, d);
    }
  }

  /** c rounds fit into T steps when the start of the last one does. */
  lemma RoundsFit(c: nat, T: nat, n: nat)
    requires n > 0 && (c > 0 ==> n * (c - 1) < T)
    ensures c <= (T + n - 1) / n
  {
    Decompose(T + n - 1, n);
    var q := (T + n - 1) / n;
    if q < c {
      MulMono(n, q, c - 1);
    }
  }
}
