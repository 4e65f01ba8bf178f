/** What several components use: optional values, and a few facts about sequences. */
module Common {

  datatype Option<T> = None | Some(value: T)

  lemma Associative<T>(a: seq<T>, b: seq<T>, c: seq<T>)
    ensures a + b + c == a + (b + c)
  {}

  function Without<T>(q: seq<T>, b: nat): seq<T>
    requires b < |q|
  {
    q[..b] + q[b + 1..]
  }
}
