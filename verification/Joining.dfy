/** Facts about joining sequences, kept apart from what is joined. */
module Joining {
  lemma Joined<T>(a: seq<T>, b: seq<T>, c: seq<T>)
    ensures (a + b) + c == a + (b + c)
  {
  }

  lemma EmptyJoined<T>(a: seq<T>)
    ensures [] + a == a && a + [] == a
  {
  }
}
