/** The byte comparison at the end of login, as a specification. */
module HashComparison {
  import opened Crypto

  /** How the loop over the computed hash ends: it runs to the end, returns at
      the first differing byte, or reads past the end of the stored hash. */
  datatype Comparison = Equal | Differs | OutOfRange

  /** Walks `computed` from the front against `stored`. Only the first
      `|computed|` bytes of `stored` take part; a shorter `stored` is read past
      its end unless a difference is found first. */
  function Compare(computed: Bytes, stored: Bytes): (r: Comparison)
    ensures r == Equal <==> |computed| <= |stored| && stored[..|computed|] == computed
    ensures r == OutOfRange <==> |stored| < |computed| && computed[..|stored|] == stored
    ensures r == Differs <==>
      exists i :: 0 <= i < |computed| && i < |stored| && computed[i] != stored[i]
  {
    if computed == [] then Equal
    else if stored == [] then OutOfRange
    else if computed[0] != stored[0] then Differs
    else Compare(computed[1..], stored[1..])
  }
}
