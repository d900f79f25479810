/** Definitions shared by the modules. */
module Common {

  datatype Option<+T> = None | Some(value: T)

  function Min(a: int, b: int): int { if a < b then a else b }

  function Positive(n: int): nat { if n < 0 then 0 else n }

  lemma ProductsInOrder(a: int, b: int, n: int)
    requires 0 <= n && a <= b
    ensures a * n <= b * n
  {
    assert 0 <= (b - a) * n;
  }
}
