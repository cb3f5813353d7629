/** Types shared by the network and the disk models. */
module Common {

  datatype Option<+T> = None | Some(value: T)

  /** A byte of memory. */
  type byte = x: int | 0 <= x < 256

  /** A 16-bit word. */
  type word = x: int | 0 <= x < 0x1_0000

  const U32: nat := 0x1_0000_0000
  const U64: nat := 0x1_0000_0000_0000_0000

  // ---- remainders ----

  lemma ModUnique(x: nat, q: nat, m: nat, n: nat)
    requires 0 <= m < n && x == n * q + m
    ensures x % n == m
  {
    var q' := x / n;
    if q < q' {
      Multiple(n, q, q');
    } else if q' < q {
      Multiple(n, q', q);
    }
  }

  lemma Multiple(n: nat, a: nat, b: nat)
    requires a < b
    ensures n * a + n <= n * b
  {
    var c: nat := b - a - 1;
    assert n * b == n * a + n + n * c by { assert b == a + (1 + c); }
  }

  lemma DivUnique(x: nat, q: nat, m: nat, n: nat)
    requires 0 <= m < n && x == n * q + m
    ensures x / n == q
  {
    var q' := x / n;
    if q < q' {
      Multiple(n, q, q');
    } else if q' < q {
      Multiple(n, q', q);
    }
  }

  /** A remainder of a remainder. */
  lemma ModOfMod(x: nat, n: nat, k: nat)
    requires n > 0 && k > 0
    ensures n * k > 0 && x % (n * k) % n == x % n
  {
    Multiple(n, 0, k);
    var m := n * k;
    var q, r := x / m, x % m;
    var p, s := r / n, r % n;
    Regrouped(n, k, q, p);
    ModUnique(x, k * q + p, s, n);
  }

  lemma Regrouped(n: nat, k: nat, q: nat, p: nat)
    ensures (n * k) * q + n * p == n * (k * q + p)
  {
    var kq := k * q;
    assert (n * k) * q == n * kq;
    assert n * (kq + p) == n * kq + n * p;
  }

  predicate MultipleOf(x: nat, n: nat)
    requires n > 0
  {
    x % n == 0
  }

  /** A remainder may be taken before something is added. */
  lemma ModAdd(x: nat, k: nat, n: nat)
    requires n > 0
    ensures (x + k) % n == (x % n + k) % n
  {
    var q, q' := x / n, (x % n + k) / n;
    assert x + k == n * (q + q') + (x % n + k) % n;
    ModUnique(x + k, q + q', (x % n + k) % n, n);
  }
}
