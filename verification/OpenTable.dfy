/** The chained hash table: an array of chains, for any hash function. */
module OpenTable {
  import opened Options
  import opened Primes

  datatype Chain<K, E> = Nil | Bucket(key: K, element: E, next: Chain<K, E>)

  function Find<K(==), E>(c: Chain<K, E>, key: K): Option<E> {
    if c.Nil? then None else if c.key == key then Some(c.element) else Find(c.next, key)
  }

  ghost function Keys<K, E>(c: Chain<K, E>): set<K> {
    if c.Nil? then {} else {c.key} + Keys(c.next)
  }

  /** No key twice. */
  ghost predicate Distinct<K, E>(c: Chain<K, E>) {
    c.Bucket? ==> c.key !in Keys(c.next) && Distinct(c.next)
  }

  lemma {:induction false} FindIffKey<K, E>(c: Chain<K, E>, key: K)
    ensures Find(c, key).Some? <==> key in Keys(c)
  {
    if c.Bucket? { FindIffKey(c.next, key); }
  }

  /** `update` of a bucket: replaces the element where the key is found. */
  function Updated<K(==), E>(c: Chain<K, E>, key: K, element: E): Chain<K, E> {
    if c.Nil? then c
    else if c.key == key then c.(element := element)
    else c.(next := Updated(c.next, key, element))
  }

  /** `removeNextBucket` and the removal at the head. */
  function Removed<K(==), E>(c: Chain<K, E>, key: K): Chain<K, E> {
    if c.Nil? then c
    else if c.key == key then c.next
    else c.(next := Removed(c.next, key))
  }

  lemma {:induction false} UpdatedKeys<K, E>(c: Chain<K, E>, key: K, element: E)
    ensures Keys(Updated(c, key, element)) == Keys(c)
    ensures Distinct(c) ==> Distinct(Updated(c, key, element))
  {
    if c.Bucket? { UpdatedKeys(c.next, key, element); }
  }

  lemma {:induction false} UpdatedFind<K, E>(c: Chain<K, E>, key: K, element: E, other: K)
    requires key in Keys(c)
    ensures Find(Updated(c, key, element), other) == if other == key then Some(element) else Find(c, other)
  {
    if c.Bucket? && c.key != key { UpdatedFind(c.next, key, element, other); }
  }

  lemma {:induction false} RemovedKeys<K, E>(c: Chain<K, E>, key: K)
    requires Distinct(c)
    ensures Keys(Removed(c, key)) == Keys(c) - {key} && Distinct(Removed(c, key))
  {
    if c.Bucket? && c.key != key { RemovedKeys(c.next, key); }
  }

  lemma {:induction false} RemovedFind<K, E>(c: Chain<K, E>, key: K, other: K)
    requires Distinct(c)
    ensures Find(Removed(c, key), other) == if other == key then None else Find(c, other)
  {
    if c.Bucket? {
      if c.key == key {
        FindIffKey(c.next, key);
      } else {
        RemovedFind(c.next, key, other);
      }
    }
  }

  /** A chain belongs to bucket `i` of `n`. */
  ghost predicate Belongs<K, E>(c: Chain<K, E>, hash: K -> nat, i: nat, n: nat)
    requires n > 0
  {
    Distinct(c) && forall key | key in Keys(c) :: hash(key) % n == i
  }

  /** The chains as a finite map: every key is found in its own bucket, with its element, and only there. */
  ghost predicate Represents<K(!new), E>(chains: seq<Chain<K, E>>, hash: K -> nat, contents: map<K, E>) {
    && chains != []
    && (forall i | 0 <= i < |chains| :: Belongs(chains[i], hash, i, |chains|))
    && forall key :: Find(chains[hash(key) % |chains|], key) == if key in contents then Some(contents[key]) else None
  }

  /** The chain finds `value` under the key, and what the other chain finds under the other keys. */
  ghost predicate FindsInstead<K(!new), E>(c: Chain<K, E>, c0: Chain<K, E>, key: K, value: Option<E>) {
    forall other :: Find(c, other) == if other == key then value else Find(c0, other)
  }

  /** Replacing one bucket by one that differs in the given key only. */
  lemma BucketReplaced<K(!new), E>(chains: seq<Chain<K, E>>, hash: K -> nat, contents: map<K, E>, key: K, c: Chain<K, E>, contents': map<K, E>)
    requires Represents(chains, hash, contents)
    requires Belongs(c, hash, hash(key) % |chains|, |chains|)
    requires contents' - {key} == contents - {key}
    requires FindsInstead(c, chains[hash(key) % |chains|], key, if key in contents' then Some(contents'[key]) else None)
    ensures Represents(chains[hash(key) % |chains| := c], hash, contents')
  {
    hide Belongs, Find;
    var location, n := hash(key) % |chains|, |chains|;
    var chains' := chains[location := c];
    forall other ensures Find(chains'[hash(other) % n], other) == if other in contents' then Some(contents'[other]) else None {
      assert other != key ==> (other in contents' <==> other in contents' - {key}) && (other in contents <==> other in contents - {key});
      assert other != key && other in contents ==> contents[other] == (contents - {key})[other] == (contents' - {key})[other];
    }
  }

  class Table<K(==, !new), E> {
    const hash: K -> nat
    const buckets: array<Chain<K, E>>
    var numElts: nat
    ghost var contents: map<K, E>

    ghost predicate Valid()
      reads this, buckets
    {
      Represents(buckets[..], hash, contents) && numElts == |contents|
    }

    /** The constructor; a size hint of 0 would give no bucket at all (`NextPrime`). */
    constructor (hash: K -> nat, sizeHint: nat)
      requires sizeHint > 0
      ensures Valid() && fresh(buckets) && contents == map[] && this.hash == hash
      ensures buckets.Length >= sizeHint && Accepted(buckets.Length)
    {
      var n := NextPrime(sizeHint);
      this.hash := hash;
      buckets := new Chain<K, E>[n](_ => Nil);
      numElts := 0;
      contents := map[];
    }

    method Reset()
      requires Valid()
      modifies this, buckets
      ensures Valid() && contents == map[]
    {
      hide Represents;
      RepresentsSomething(buckets[..], hash, contents);
      for i := 0 to buckets.Length
        invariant forall j | 0 <= j < i :: buckets[j] == Nil
      {
        buckets[i] := Nil;
      }
      numElts := 0;
      contents := map[];
      NothingRepresented(buckets[..], hash);
    }

    method Get(key: K) returns (r: Option<E>)
      requires Valid()
      ensures r == if key in contents then Some(contents[key]) else None
    {
      var location := hash(key) % buckets.Length;
      r := Find(buckets[location], key);
    }

    /** `update`: true when the key was there, whose element is then replaced. */
    method Update(key: K, element: E) returns (existed: bool)
      requires Valid()
      modifies this, buckets
      ensures Valid() && contents == old(contents)[key := element] && (existed <==> key in old(contents))
    {
      hide Belongs, Find;
      var location := hash(key) % buckets.Length;
      ghost var chains, before := buckets[..], buckets[location];
      FindIffKey(before, key);
      existed := Find(buckets[location], key).Some?;
      if existed {
        buckets[location] := Updated(buckets[location], key, element);
        BelongsUpdated(before, hash, location, |chains|, key, element);
      } else {
        buckets[location] := Bucket(key, element, buckets[location]);
        numElts := numElts + 1;
        BelongsAdded(before, hash, location, |chains|, key, element);
      }
      contents := contents[key := element];
      UpdateFinds(before, buckets[location], key, element);
      BucketReplaced(chains, hash, old(contents), key, buckets[location], contents);
      assert buckets[..] == chains[location := buckets[location]];
      assert existed ==> contents.Keys == old(contents).Keys;
    }

    /** `remove`: true when the key was there. */
    method Remove(key: K) returns (existed: bool)
      requires Valid()
      modifies this, buckets
      ensures Valid() && contents == old(contents) - {key} && (existed <==> key in old(contents))
    {
      hide Represents, Find, Removed;
      ghost var chains := buckets[..];
      RepresentsSomething(chains, hash, contents);
      var location := hash(key) % buckets.Length;
      RemoveRepresents(chains, hash, contents, key);
      existed := Find(buckets[location], key).Some?;
      if existed {
        buckets[location] := Removed(buckets[location], key);
        numElts := numElts - 1;
      }
      contents := contents - {key};
      assert buckets[..] == chains[location := Removed(chains[location], key)];
    }
  }

  lemma NothingRepresented<K(!new), E>(chains: seq<Chain<K, E>>, hash: K -> nat)
    requires chains != [] && forall i | 0 <= i < |chains| :: chains[i] == Nil
    ensures Represents(chains, hash, map[])
  {
  }

  lemma RepresentsSomething<K(!new), E>(chains: seq<Chain<K, E>>, hash: K -> nat, contents: map<K, E>)
    requires Represents(chains, hash, contents)
    ensures |chains| > 0
  {
  }

  lemma RemoveRepresents<K(!new), E>(chains: seq<Chain<K, E>>, hash: K -> nat, contents: map<K, E>, key: K)
    requires Represents(chains, hash, contents) && |chains| > 0
    ensures var c := chains[hash(key) % |chains|];
            && Represents(chains[hash(key) % |chains| := Removed(c, key)], hash, contents - {key})
            && (Find(c, key).Some? <==> key in contents)
            && (key !in contents ==> Removed(c, key) == c)
    ensures |contents - {key}| == |contents| - if key in contents then 1 else 0
  {
    KeyRemoved(contents, key);
    hide Belongs, Find, Removed, Distinct, Keys;
    var c := chains[hash(key) % |chains|];
    FindIffKey(c, key);
    BelongsRemoved(c, hash, hash(key) % |chains|, |chains|, key);
    assert contents - {key} - {key} == contents - {key};
    BucketReplaced(chains, hash, contents, key, Removed(c, key), contents - {key});
  }

  lemma KeyRemoved<K, E>(contents: map<K, E>, key: K)
    ensures |contents - {key}| == |contents| - if key in contents then 1 else 0
  {
    assert (contents - {key}).Keys == contents.Keys - {key};
  }

  lemma BelongsUpdated<K, E>(c: Chain<K, E>, hash: K -> nat, i: nat, n: nat, key: K, element: E)
    requires n > 0 && Belongs(c, hash, i, n)
    ensures Belongs(Updated(c, key, element), hash, i, n)
  {
    UpdatedKeys(c, key, element);
  }

  lemma BelongsAdded<K, E>(c: Chain<K, E>, hash: K -> nat, i: nat, n: nat, key: K, element: E)
    requires n > 0 && Belongs(c, hash, i, n) && key !in Keys(c) && hash(key) % n == i
    ensures Belongs(Bucket(key, element, c), hash, i, n)
  {
  }

  lemma BelongsRemoved<K(!new), E>(c: Chain<K, E>, hash: K -> nat, i: nat, n: nat, key: K)
    requires n > 0 && Belongs(c, hash, i, n)
    ensures Belongs(Removed(c, key), hash, i, n) && Keys(Removed(c, key)) == Keys(c) - {key}
    ensures FindsInstead(Removed(c, key), c, key, None)
    ensures key !in Keys(c) ==> Removed(c, key) == c
  {
    RemovedKeys(c, key);
    forall other ensures Find(Removed(c, key), other) == if other == key then None else Find(c, other) { RemovedFind(c, key, other); }
    if key !in Keys(c) { RemovedAbsent(c, key); }
  }

  lemma {:induction false} RemovedAbsent<K, E>(c: Chain<K, E>, key: K)
    requires key !in Keys(c)
    ensures Removed(c, key) == c
  {
    if c.Bucket? { RemovedAbsent(c.next, key); }
  }

  /** What is found after an update, in place or at the head. */
  lemma UpdateFinds<K(!new), E>(c: Chain<K, E>, c': Chain<K, E>, key: K, element: E)
    requires c' == if key in Keys(c) then Updated(c, key, element) else Bucket(key, element, c)
    ensures Keys(c') == Keys(c) + {key}
    ensures FindsInstead(c', c, key, Some(element))
  {
    UpdatedKeys(c, key, element);
    if key in Keys(c) {
      forall other ensures Find(c', other) == if other == key then Some(element) else Find(c, other) { UpdatedFind(c, key, element, other); }
    }
  }
}
