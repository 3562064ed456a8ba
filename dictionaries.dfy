/**
 * Dictionaries filled by `dictionary[key] = value` in a loop: a later assignment to a key
 * replaces the earlier one.
 */
module Dictionaries {

  /** The dictionary left by assigning each pair in turn, starting from an empty one. */
  function Assigned<K, V>(pairs: seq<(K, V)>): map<K, V>
  {
    if pairs == [] then map[]
    else Assigned(pairs[..|pairs| - 1])[pairs[|pairs| - 1].0 := pairs[|pairs| - 1].1]
  }

  /** Assigning at most one more pair updates the dictionary under that pair's key. */
  lemma AssignedStep<K, V>(pairs: seq<(K, V)>, extra: seq<(K, V)>)
    requires |extra| <= 1
    ensures Assigned(pairs + extra) == if extra == [] then Assigned(pairs) else Assigned(pairs)[extra[0].0 := extra[0].1]
  {
    if extra == [] {
      assert pairs + extra == pairs;
    } else {
      assert (pairs + extra)[..|pairs + extra| - 1] == pairs;
    }
  }
}
