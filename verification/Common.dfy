/** Two notions several of the models share. */
module Options {
  datatype Option<T> = None | Some(value: T)
}

module Powers {
  function Pow2(n: nat): (p: nat)
    ensures 0 < p
  {
    if n == 0 then 1 else 2 * Pow2(n - 1)
  }
}
