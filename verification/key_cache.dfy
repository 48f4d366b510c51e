/** A cache of the keys of a table: it remembers hashes, and so can only answer with certainty
    that a key is not there. */
module KeyCache {
  import opened Wrappers

  function HashesOf(hash: string -> int, keys: set<string>): set<int> {
    set key | key in keys :: hash(key)
  }

  /** The lookup of a key, which does not reach the table if the cache is on and does not know
      the key. An empty cache knows nothing. */
  function Lookup<Row>(table: map<string, Row>, hashes: set<int>, hash: string -> int, useCache: bool, key: string): Option<Row> {
    if useCache && (hashes == {} || hash(key) !in hashes) then None
    else if key in table then Some(table[key])
    else None
  }

  /** The cache knows every key of the table. */
  ghost predicate Covers<Row>(table: map<string, Row>, hashes: set<int>, hash: string -> int) {
    forall key :: key in table ==> hash(key) in hashes
  }

  /** The cache never changes an answer exactly if it knows every key of the table, however many
      other keys it knows or takes for known. */
  lemma CacheIsTransparent<Row>(table: map<string, Row>, hashes: set<int>, hash: string -> int)
    ensures (forall key :: Lookup(table, hashes, hash, true, key) == Lookup(table, hashes, hash, false, key))
            <==> Covers(table, hashes, hash)
  {
    if forall key :: Lookup(table, hashes, hash, true, key) == Lookup(table, hashes, hash, false, key) {
      forall key | key in table ensures hash(key) in hashes {
        assert Lookup(table, hashes, hash, true, key) == Lookup(table, hashes, hash, false, key);
      }
    }
  }

  class Cache {
    const hash: string -> int
    var hashes: set<int>

    constructor (hash: string -> int)
      ensures this.hash == hash && hashes == {}
    {
      this.hash := hash;
      hashes := {};
    }

    method Add(key: string)
      modifies this
      ensures hashes == old(hashes) + {hash(key)}
    {
      hashes := hashes + {hash(key)};
    }

    predicate IsLoaded()
      reads this
    {
      hashes != {}
    }

    predicate Find(key: string)
      reads this
    {
      hash(key) in hashes
    }

    method Clear()
      modifies this
      ensures hashes == {}
    {
      hashes := {};
    }

    /** Adds every key that the table gives out. */
    method LoadAll(keys: set<string>)
      modifies this
      ensures hashes == old(hashes) + HashesOf(hash, keys)
    {
      var left := keys;
      while left != {}
        invariant left <= keys
        invariant hashes == old(hashes) + HashesOf(hash, keys - left)
      {
        var key :| key in left;
        assert keys - (left - {key}) == (keys - left) + {key};
        Add(key);
        left := left - {key};
      }
    }

    /** Adds those keys, among the ones that the table gives out as new, that are not known. */
    method Update(keys: set<string>)
      modifies this
      ensures hashes == old(hashes) + HashesOf(hash, keys)
    {
      var left := keys;
      while left != {}
        invariant left <= keys
        invariant hashes == old(hashes) + HashesOf(hash, keys - left)
      {
        var key :| key in left;
        assert keys - (left - {key}) == (keys - left) + {key};
        if !Find(key) {
          Add(key);
        }
        left := left - {key};
      }
    }

    method Reload(keys: set<string>)
      modifies this
      ensures hashes == HashesOf(hash, keys)
    {
      Clear();
      LoadAll(keys);
    }
  }
}
