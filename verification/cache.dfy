/** The `cache` decorator of ai.py: an insertion-ordered map (an OrderedDict) from call keys to
    results, holding at most `maxsize` entries. A hit returns the stored result and moves
    nothing, so the oldest entry is the first one inserted (FIFO, not LRU). A miss calls the
    function, drops the oldest entry when the map is full, and appends the new one. Loading the
    map from and storing it to the pickle file is not part of this model: the map is the
    object's state. */
module ResultCache {
  import opened Text

  /** The insertion order after storing a new key: the oldest key leaves when `maxsize` keys are
      already there, and the new key goes last. */
  function InsertOrder<K>(order: seq<K>, key: K, maxsize: nat): (r: seq<K>)
    requires |order| <= maxsize && maxsize > 0
    ensures |r| <= maxsize
    ensures r != [] && r[|r| - 1] == key
  {
    if |order| >= maxsize then order[1..] + [key] else order + [key]
  }

  /** A new key is stored, every key but the oldest of a full cache stays, and nothing else
      appears. */
  lemma InsertOrderMembers<K>(order: seq<K>, key: K, maxsize: nat, k: K)
    requires |order| <= maxsize && maxsize > 0
    ensures k in InsertOrder(order, key, maxsize) <==>
              k == key || (k in order && (|order| < maxsize || k in order[1..]))
  {
  }

  /** With distinct keys, a full cache loses exactly its oldest key, and the order of the others
      is kept. */
  lemma InsertOrderEvictsOldest<K>(order: seq<K>, key: K, maxsize: nat)
    requires |order| == maxsize && maxsize > 0
    requires Distinct(order) && key !in order
    ensures order[0] !in InsertOrder(order, key, maxsize)
    ensures InsertOrder(order, key, maxsize)[..maxsize - 1] == order[1..]
  {
    var r := InsertOrder(order, key, maxsize);
    forall j | 0 <= j < |r| ensures r[j] != order[0] {
      if j < |r| - 1 {
        assert r[j] == order[j + 1];
      }
    }
  }

  lemma InsertOrderDistinct<K>(order: seq<K>, key: K, maxsize: nat)
    requires |order| <= maxsize && maxsize > 0
    requires Distinct(order) && key !in order
    ensures Distinct(InsertOrder(order, key, maxsize))
  {
    var r := InsertOrder(order, key, maxsize);
    forall i, j | 0 <= i < j < |r| ensures r[i] != r[j] {
      if j == |r| - 1 {
        if |order| >= maxsize { assert r[i] == order[i + 1]; } else { assert r[i] == order[i]; }
      } else if |order| >= maxsize {
        assert r[i] == order[i + 1] && r[j] == order[j + 1];
      } else {
        assert r[i] == order[i] && r[j] == order[j];
      }
    }
  }

  /** The stored results after storing `value` under a new key. */
  function InsertValues<K, V>(values: map<K, V>, order: seq<K>, key: K, value: V, maxsize: nat): (m: map<K, V>)
    requires |order| <= maxsize && maxsize > 0
    ensures key in m && m[key] == value
    ensures forall k :: k in m && k != key ==> k in values && m[k] == values[k]
  {
    (if |order| >= maxsize then values - {order[0]} else values)[key := value]
  }

  class Cache<V> {
    /** The keys in insertion order, oldest first. */
    var order: seq<string>
    /** The stored results. */
    var values: map<string, V>
    const maxsize: nat

    ghost predicate Valid()
      reads this
    {
      && 0 < maxsize
      && |order| <= maxsize
      && Distinct(order)
      && (forall k :: k in values <==> k in order)
    }

    /** An empty cache; the decorator's default capacity is 128. A capacity of 0 would make the
        first miss pop from an empty map. */
    constructor(maxsize: nat)
      requires maxsize > 0
      ensures Valid()
      ensures this.maxsize == maxsize && order == [] && values == map[]
    {
      this.maxsize := maxsize;
      order := [];
      values := map[];
    }

    /** The wrapper: `key` is str(args) + str(kwargs), `func` the wrapped function as a function
        of that key, and `noCache` whether the NOCACHE environment variable is set; `called`
        tells whether `func` was run. */
    method Call(key: string, func: string -> V, noCache: bool) returns (r: V, called: bool)
      requires Valid()
      modifies this
      ensures Valid()
      ensures |order| <= maxsize
      ensures noCache ==> r == func(key) && called && order == old(order) && values == old(values)
      ensures !noCache && key in old(values) ==>
                r == old(values)[key] && !called && order == old(order) && values == old(values)
      ensures !noCache && key !in old(values) ==>
                && r == func(key) && called
                && order == InsertOrder(old(order), key, maxsize)
                && values == InsertValues(old(values), old(order), key, r, maxsize)
    {
      if noCache {
        r := func(key);
        called := true;
        return;
      }
      if key in values {
        r := values[key];
        called := false;
        return;
      }
      r := func(key);
      called := true;
      InsertOrderDistinct(order, key, maxsize);
      ghost var oldOrder := order;
      if |order| >= maxsize {
        values := values - {order[0]};
        order := order[1..];
      }
      values := values[key := r];
      order := order + [key];
      forall k ensures k in values <==> k in order {
        InsertOrderMembers(oldOrder, key, maxsize, k);
        if |oldOrder| >= maxsize && k in oldOrder && k != key && k != oldOrder[0] {
          var j :| 0 <= j < |oldOrder| && oldOrder[j] == k;
          assert oldOrder[1..][j - 1] == k;
        }
        if |oldOrder| >= maxsize && k in oldOrder[1..] {
          var j :| 0 <= j < |oldOrder[1..]| && oldOrder[1..][j] == k;
          assert oldOrder[j + 1] != oldOrder[0];
        }
      }
    }
  }

  /** Two calls with the same key and no NOCACHE in between: the second is a hit and returns what
      the first returned, whatever the wrapped function would now return. */
  method RepeatedCall<V>(c: Cache<V>, key: string, f: string -> V, g: string -> V) returns (first: V, second: V, calledAgain: bool)
    requires c.Valid()
    modifies c
    ensures c.Valid()
    ensures second == first && !calledAgain
  {
    var called;
    first, called := c.Call(key, f, false);
    second, calledAgain := c.Call(key, g, false);
  }
}
