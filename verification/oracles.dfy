/** Stand-ins for the two impure calls of src/Board.java. */
module Oracles {

  /** `expired(t)`: does the clock read taken at tape position t satisfy
      `System.currentTimeMillis() - start >= limit`?  `shuffle(t, s)`: the order
      `Collections.shuffle` gives s when called at tape position t. Every clock read
      and every shuffle takes the next position on one shared tape. */
  datatype Oracle = Oracle(expired: nat -> bool, shuffle: (nat, seq<int>) -> seq<int>)

  /** Every order the shuffle produces is a permutation of its input. */
  ghost predicate Shuffles(o: Oracle) {
    forall t: nat, s: seq<int> :: multiset(o.shuffle(t, s)) == multiset(s)
  }

  /** Every entry of a shuffled list is an element of what was shuffled. */
  lemma ShuffledEntries(o: Oracle, t: nat, s: seq<int>)
    requires Shuffles(o)
    ensures forall k :: 0 <= k < |o.shuffle(t, s)| ==> o.shuffle(t, s)[k] in s
  {
    var u := o.shuffle(t, s);
    forall k | 0 <= k < |u|
      ensures u[k] in s
    {
      assert u[k] in multiset(u);
    }
  }
}
