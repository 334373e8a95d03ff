/** Building a PHP array by assigning `$a[$k] = $v` for a list of pairs in
    order: every key that occurs is present, and a repeated key keeps the
    value of its last occurrence. */
module Assoc {

  /** The array obtained from an empty one by assigning each pair in turn. */
  function Collect<K(!new), V>(pairs: seq<(K, V)>): (m: map<K, V>)
    ensures forall k :: k in m <==> exists i :: 0 <= i < |pairs| && pairs[i].0 == k
  {
    if |pairs| == 0 then map[]
    else
      var init := pairs[..|pairs| - 1];
      var m := Collect(init)[pairs[|pairs| - 1].0 := pairs[|pairs| - 1].1];
      assert forall i :: 0 <= i < |init| ==> init[i] == pairs[i];
      m
  }

  /** Assigning one more pair extends the array by that pair. */
  lemma CollectSnoc<K(!new), V>(pairs: seq<(K, V)>, p: (K, V))
    ensures Collect(pairs + [p]) == Collect(pairs)[p.0 := p.1]
  {
    assert (pairs + [p])[..|pairs|] == pairs;
  }

  /** Assigning the pairs one prefix further extends the array by the next pair. */
  lemma CollectPrefix<K(!new), V>(pairs: seq<(K, V)>, i: nat)
    requires i < |pairs|
    ensures Collect(pairs[..i + 1]) == Collect(pairs[..i])[pairs[i].0 := pairs[i].1]
  {
    assert pairs[..i + 1] == pairs[..i] + [pairs[i]];
    CollectSnoc(pairs[..i], pairs[i]);
  }

  /** Pair `i` is the last assignment to its key. */
  predicate LastAssignment<K(==), V>(pairs: seq<(K, V)>, i: nat)
    requires i < |pairs|
  {
    forall j :: i < j < |pairs| ==> pairs[j].0 != pairs[i].0
  }

  /** Every key takes the value of its last assignment. */
  lemma CollectLastValues<K(!new), V>(pairs: seq<(K, V)>)
    ensures forall i: nat :: i < |pairs| && LastAssignment(pairs, i) ==>
              pairs[i].0 in Collect(pairs) && Collect(pairs)[pairs[i].0] == pairs[i].1
  {
    forall i: nat | i < |pairs| && LastAssignment(pairs, i)
      ensures pairs[i].0 in Collect(pairs) && Collect(pairs)[pairs[i].0] == pairs[i].1
    {
      LastWins(pairs, i);
    }
  }

  /** A pair whose key does not occur later decides the value of that key. */
  lemma {:induction false} LastWins<K(!new), V>(pairs: seq<(K, V)>, i: nat)
    requires i < |pairs|
    requires forall j :: i < j < |pairs| ==> pairs[j].0 != pairs[i].0
    ensures pairs[i].0 in Collect(pairs) && Collect(pairs)[pairs[i].0] == pairs[i].1
    decreases |pairs|
  {
    var n := |pairs| - 1;
    if i < n {
      var init := pairs[..n];
      assert forall j :: i < j < |init| ==> init[j] == pairs[j];
      LastWins(init, i);
      assert init[i] == pairs[i];
    }
  }
}
