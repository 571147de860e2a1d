/** Small facts about sequence concatenation shared by the text modules. */
module Sequences {

  /** Dropping a prefix of `a` from `a + b`. */
  lemma DropConcat<T>(a: seq<T>, b: seq<T>, n: nat)
    requires n <= |a|
    ensures (a + b)[n..] == a[n..] + b
  {
  }

  /** Re-bracketing a concatenation, stated over plain sequences. */
  lemma Glue<T>(h: seq<T>, t: seq<T>, u: seq<T>, whole: seq<T>, left: seq<T>, rest: seq<T>)
    requires whole == h + rest && rest == t + u && left == h + t
    ensures whole == left + u
  {
    assert h + (t + u) == (h + t) + u;
  }
}
