/** Positions in a descriptor ring of n slots. */
module FecRing {

  /** How many places slot s is after c. */
  function Off(n: nat, c: nat, s: nat): nat
    requires c < n && s < n
  {
    if c <= s then s - c else s - c + n
  }

  /** The slot i places after c, where i may go once round. */
  function Slot(n: nat, c: nat, i: nat): (s: nat)
    requires c < n && i <= n
    ensures s < n && (i < n ==> Off(n, c, s) == i)
  {
    if c + i < n then c + i else c + i - n
  }

  /** Advancing the consumer index brings every other slot one place closer. */
  lemma OffNext(n: nat, c: nat, s: nat)
    requires c < n && s < n
    ensures (c + 1) % n < n
    ensures Off(n, (c + 1) % n, s) == if s == c then n - 1 else Off(n, c, s) - 1
  {
    if c + 1 == n {
      assert (c + 1) % n == 0;
    } else {
      assert (c + 1) % n == c + 1;
    }
  }
}
