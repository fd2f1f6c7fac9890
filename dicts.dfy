/** Python dictionaries as Dafny maps: iterating over one yields its keys in an order the model leaves open. */
module Dicts {

  /** The keys of `m` in the order the dict yields them; any enumeration will do. */
  method IterationOrder<V>(m: map<string, V>) returns (keys: seq<string>)
    ensures forall k :: k in keys <==> k in m
    ensures |keys| == |m.Keys|
  {
    keys := [];
    var remaining := m.Keys;
    while remaining != {}
      invariant remaining <= m.Keys
      invariant forall k :: k in keys <==> k in m.Keys - remaining
      invariant |keys| + |remaining| == |m.Keys|
      decreases remaining
    {
      var key :| key in remaining;
      keys := keys + [key];
      remaining := remaining - {key};
    }
  }
}
