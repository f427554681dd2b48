/** Positions of a cyclic probe sequence, shared by the three open-addressing
    tables. All of them hold a power of two of slots, so `& (cap - 1)` is `% cap`,
    and stepping by one is `Next`. */
module Probing {
  function Next(h: nat, cap: nat): (r: nat)
    requires h < cap
    ensures r < cap
  {
    if h + 1 == cap then 0 else h + 1
  }

  /** How many steps a probe starting at `home` needs to reach slot `i`. */
  function Off(home: nat, i: nat, cap: nat): (d: nat)
    requires home < cap && i < cap
    ensures d < cap
  {
    if home <= i then i - home else i + cap - home
  }

  /** The home slot of a hash value. */
  function Home(h: nat, cap: nat): (r: nat)
    requires cap > 0
    ensures r < cap
  {
    h % cap
  }

  predicate PowerOfTwo(n: nat)
  {
    n == 1 || (n > 0 && n % 2 == 0 && PowerOfTwo(n / 2))
  }
}
