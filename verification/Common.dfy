/** What several modules share. */
module Common {
  datatype Option<+V> = None | Some(value: V)

  function Take<A>(s: seq<A>, n: nat): seq<A> { if n <= |s| then s[..n] else s }
}
