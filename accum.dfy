/**
 * The per-topic accumulator table (`struct rbc_accum`): an open-addressing hash table
 * with linear probing that maps document ids to accumulated scores, grows by rebuilding
 * itself when its load factor passes 0.75, and treats a stored id as matching any id it
 * is a prefix of.
 */
module RbcAccum {
  import opened CStr
  import opened Primes
  import opened Slots

  /**
   * The hypothesis under which rebuilding a table of `n` entries needs no further rebuild:
   * the new capacity `get_prime(4 * n)` is large enough that reinserting the entries one
   * by one never finds the load factor above 0.75.
   */
  ghost predicate Roomy(n: nat)
  {
    4 * (n - 1) <= 3 * LowPrime(4 * n)
  }

  class Accum {
    var capacity: nat
    var size: nat
    var data: seq<Slot>
    var topic: int
    var isSet: bool

    /**
     * The table's invariant: a prime number of slots, `size` counts the occupied ones,
     * no id is stored twice and every probe path from an id's home slot to the id is
     * unbroken.
     */
    ghost predicate Valid()
      reads this
    {
      |data| == capacity && IsPrime(capacity) &&
      size == Occupied(data) &&
      Distinct(data) && ChainOK(data)
    }

    /**
     * `NEED_REHASH`: the load factor size / capacity is above 0.75. When it is not, a
     * table with slots has an unset one.
     */
    function NeedRehash(): (r: bool)
      reads this
      ensures !r && capacity > 0 ==> size < capacity
    {
      4 * size > 3 * capacity
    }

    /** `rbc_accum_create`: an empty table whose capacity is `get_prime` of the request. */
    constructor (requested: nat)
      ensures Valid()
      ensures capacity == LowPrime(requested) && size == 0
      ensures forall i :: 0 <= i < |data| ==> data[i].Empty?
      ensures data == seq(capacity, _ => Empty)
    {
      var p := GetPrime(requested);
      LowPrimeIsLargest(requested);
      capacity := p;
      size := 0;
      data := seq(p, _ => Empty);
      new;
      AllEmpty(data);
    }

    /**
     * The probe loop of `rbc_accum_update`: starting at the home slot of `val`, walk
     * forward (wrapping) to the first slot that is unset or whose id passes the
     * `strncmp` prefix test. When the walk comes back to its start nothing stops it,
     * and the start slot is returned.
     */
    method Probe(val: Docno) returns (key: nat, found: bool)
      requires |data| == capacity && 0 < capacity && size == Occupied(data)
      ensures key < capacity
      ensures found ==> FirstStop(data, val, key)
      ensures !found ==> key == Home(val, capacity) && forall i :: 0 <= i < capacity ==> !Stops(data, val, i)
      ensures size < capacity ==> found
    {
      ghost var s := data;
      ghost var e: int := -1;
      if size < capacity {
        e := EmptySlotExists(s);
        assert Stops(s, val, e);
      }
      key := Home(val, capacity);
      var start := key;
      ghost var steps: nat := 0;
      while true
        invariant start == Home(val, capacity) && steps < capacity && key < capacity
        invariant Dist(start, key, capacity) == steps
        invariant forall i :: 0 <= i < capacity && Dist(start, i, capacity) < steps ==> !Stops(s, val, i)
        decreases capacity - steps
      {
        if data[key].Empty? || IsPrefix(data[key].docno, val) {
          return key, true;
        }
        forall i | 0 <= i < capacity && Dist(start, i, capacity) <= steps
          ensures !Stops(s, val, i)
        {
          if Dist(start, i, capacity) == steps {
            DistInjective(start, i, key, capacity);
          }
        }
        DistStep(start, key, capacity);
        key := (key + 1) % capacity;
        if key == start {
          return key, false;
        }
        steps := steps + 1;
      }
    }

    /**
     * The step of the probe loop of `rbc_accum_update` that ends it: at the slot where the
     * probe for `val` stopped, store `val` with `score` in an unset slot (counting it in
     * `size`), or add `score` to the entry whose id passed the prefix test.
     */
    method Store(key: nat, val: Docno, score: real)
      requires Valid() && FirstStop(data, val, key)
      modifies this
      ensures Valid()
      ensures capacity == old(capacity)
      ensures topic == old(topic) && isSet == old(isSet)
      ensures data == Put(old(data), val, score, key)
      ensures size == old(size) + (if old(data[key]).Empty? then 1 else 0)
    {
      ghost var s := data;
      PutKeepsInvariants(s, val, score, key);
      if data[key].Empty? {
        data := data[key := Full(val, score)];
        size := size + 1;
      } else {
        data := data[key := Full(data[key].docno, data[key].val + score)];
      }
    }

    /**
     * The body of `rbc_accum_update` after the rebuild check: probe for `val`, then store
     * it at the slot where the probe stopped. When no slot stops the probe, the update
     * is dropped and the start slot is returned.
     */
    method Insert(val: Docno, score: real) returns (key: nat)
      requires Valid()
      modifies this
      ensures Valid()
      ensures capacity == old(capacity)
      ensures topic == old(topic) && isSet == old(isSet)
      ensures key < capacity
      ensures old(size) < capacity ==> FirstStop(old(data), val, key)
      ensures FirstStop(old(data), val, key) ==>
        data == Put(old(data), val, score, key) &&
        size == old(size) + (if old(data)[key].Empty? then 1 else 0)
      ensures !FirstStop(old(data), val, key) ==>
        key == Home(val, capacity) && data == old(data) && size == old(size) &&
        forall i :: 0 <= i < capacity ==> !Stops(old(data), val, i)
    {
      var found;
      key, found := Probe(val);
      if found {
        Store(key, val, score);
      } else {
        assert !Stops(data, val, key);
      }
    }
  }

  /**
   * `rbc_accum_update`: rebuild the table first when its load factor is above 0.75, then
   * add `score` to the entry for `val` (or to the first stored id that is a prefix of it).
   * The returned table is the argument or, after a rebuild, a fresh one.
   */
  method Update(t: Accum, val: Docno, score: real) returns (cur: Accum, key: nat)
    requires t.Valid()
    modifies t
    decreases t.size, 2
    ensures cur.Valid() && key < cur.capacity
    ensures cur.topic == old(t.topic) && cur.isSet == old(t.isSet)
    ensures cur.size <= old(t.size) + 1
    ensures !old(t.NeedRehash()) ==>
      cur == t && cur.capacity == old(t.capacity) &&
      FirstStop(old(t.data), val, key) && cur.data == Put(old(t.data), val, score, key)
    ensures old(t.NeedRehash()) ==> fresh(cur) && cur.capacity >= 7
    ensures old(t.NeedRehash()) && Roomy(old(t.size)) ==> cur.capacity == LowPrime(4 * old(t.size))
    ensures !old(t.NeedRehash()) || Roomy(old(t.size)) ==>
      Mass(cur.data) == Mass(old(t.data)) + score &&
      cur.data[key].Full? && IsPrefix(cur.data[key].docno, val)
    ensures (!old(t.NeedRehash()) || Roomy(old(t.size))) && PrefixFreeSet(Ids(old(t.data)) + {val}) ==>
      Ids(cur.data) == Ids(old(t.data)) + {val} &&
      ToMap(cur.data) == AddScore(ToMap(old(t.data)), val, score)
  {
    ghost var s := t.data;
    ghost var rebuilt, n := t.NeedRehash(), t.size;
    cur := t;
    if t.NeedRehash() {
      cur := Rehash(t);
    } else {
      OccupiedBound(s);
    }
    ghost var r := cur.data;
    key := cur.Insert(val, score);
    if FirstStop(r, val, key) {
      PutMass(r, val, score, key);
      PrefixReflexive(val);
    }
    if (!rebuilt || Roomy(n)) && PrefixFreeSet(Ids(s) + {val}) {
      assert Ids(s) <= Ids(s) + {val};
      if rebuilt {
        assert PrefixFreeSet(Ids(s));
      }
      assert Ids(r) == Ids(s);
      PutToMap(r, val, score, key);
    }
  }

  /** Every rebuild, whatever the number of entries, finds its new capacity big enough. */
  ghost predicate Bertrand()
  {
    forall n: nat :: Roomy(n)
  }

  /**
   * Adding `score` to `val` took the slots from `s0` to `s1`: the score mass grew by
   * `score` and, when no stored id and `val` are proper prefixes of one another, `val` is
   * stored with its score raised by `score`, every other id keeping its score (under
   * `Bertrand`, so that a rebuild on the way loses nothing).
   */
  ghost predicate Added(s0: seq<Slot>, s1: seq<Slot>, val: Docno, score: real)
  {
    (Bertrand() ==> Mass(s1) == Mass(s0) + score) &&
    (Bertrand() && Distinct(s0) && Distinct(s1) && PrefixFreeSet(Ids(s0) + {val}) ==>
      Ids(s1) == Ids(s0) + {val} && ToMap(s1) == AddScore(ToMap(s0), val, score))
  }

  /**
   * `rbc_accum_update` as `rbc_accumulate` calls it, the slot it stopped at dropped: the
   * caller's table is replaced by the rebuilt table, if any, and its slots have `Added`.
   */
  method Bump(t: Accum, val: Docno, score: real) returns (cur: Accum)
    requires t.Valid()
    modifies t
    ensures cur.Valid() && (cur == t || fresh(cur))
    ensures Added(old(t.data), cur.data, val, score)
  {
    var key;
    cur, key := Update(t, val, score);
  }

  /**
   * One iteration of the loop in `rbc_accum_rehash`: when slot `i` of the old table `t`
   * is set, reinsert its id and score into the new table `r` through `Update`.
   */
  method ReinsertSlot(t: Accum, ghost src: seq<Slot>, i: nat, r: Accum) returns (r': Accum)
    requires t.Valid() && r.Valid() && i < t.capacity && src == t.data
    requires r != t
    requires r.size <= Occupied(src[..i]) && Distinct(src[..i])
    modifies r
    decreases t.size, 0
    ensures r'.Valid() && r'.topic == old(r.topic) && r'.isSet == old(r.isSet)
    ensures r' == r || fresh(r')
    ensures r'.size <= Occupied(src[..i + 1]) && Distinct(src[..i + 1])
    ensures old(r.capacity) >= 7 ==> r'.capacity >= 7
    ensures Roomy(t.size) && old(r.capacity) == LowPrime(4 * t.size) ==>
      r'.capacity == old(r.capacity) && Mass(r'.data) == Mass(old(r.data)) + Score(src[i])
    ensures Roomy(t.size) && old(r.capacity) == LowPrime(4 * t.size) && Mass(old(r.data)) == Mass(src[..i]) ==>
      Mass(r'.data) == Mass(src[..i + 1])
    ensures Roomy(t.size) && old(r.capacity) == LowPrime(4 * t.size) && PrefixFreeSet(Ids(src)) &&
            Ids(old(r.data)) == Ids(src[..i]) && ToMap(old(r.data)) == ToMap(src[..i]) ==>
      Ids(r'.data) == Ids(src[..i + 1]) && ToMap(r'.data) == ToMap(src[..i + 1])
  {
    PrefixStep(src, i);
    ToMapPrefixStep(src, i);
    r' := r;
    if t.data[i].Full? {
      var d, v := t.data[i].docno, t.data[i].val;
      OccupiedPrefix(src, i + 1);
      ghost var before := r.data;
      ghost var fits := Roomy(t.size) && r.capacity == LowPrime(4 * t.size);
      ghost var pf := fits && PrefixFreeSet(Ids(src)) && Ids(before) == Ids(src[..i]) && ToMap(before) == ToMap(src[..i]);
      assert fits ==> 4 * r.size <= 3 * r.capacity;
      ReinsertKeepsPrefixFree(src, i, before, pf);
      var k;
      r', k := Update(r, d, v);
      ReinsertMap(src, i, before, r'.data, pf);
    }
  }

  /** Reinserting the entry in slot `i` adds an id of the old table, so prefix-freedom holds. */
  lemma ReinsertKeepsPrefixFree(src: seq<Slot>, i: nat, before: seq<Slot>, pf: bool)
    requires i < |src| && src[i].Full?
    requires pf ==> PrefixFreeSet(Ids(src)) && Ids(before) == Ids(src[..i])
    ensures pf ==> PrefixFreeSet(Ids(before) + {src[i].docno})
  {
    PrefixStep(src, i);
  }

  /**
   * One step of the rebuild loop: when the new table mirrors the first `i` slots of the
   * old one, adding the entry of slot `i` makes it mirror the first `i + 1`.
   */
  lemma ReinsertMap(src: seq<Slot>, i: nat, before: seq<Slot>, after: seq<Slot>, pf: bool)
    requires Distinct(src) && i < |src| && src[i].Full? && Distinct(before) && Distinct(after)
    requires pf ==>
      Ids(before) == Ids(src[..i]) && ToMap(before) == ToMap(src[..i]) &&
      Ids(after) == Ids(before) + {src[i].docno} &&
      ToMap(after) == AddScore(ToMap(before), src[i].docno, src[i].val)
    ensures Distinct(src[..i + 1])
    ensures pf ==> Ids(after) == Ids(src[..i + 1]) && ToMap(after) == ToMap(src[..i + 1])
  {
    PrefixStep(src, i);
    ToMapPrefixStep(src, i);
    ToMapKeys(src[..i]);
  }

  /**
   * `rbc_accum_rehash`: a fresh table of capacity `get_prime(4 * size)` with the same
   * topic, into which every entry of `t` is reinserted in slot order through `Update`.
   */
  method Rehash(t: Accum) returns (r: Accum)
    requires t.Valid()
    decreases t.size, 1
    ensures fresh(r) && r.Valid()
    ensures r.topic == t.topic && r.isSet == t.isSet
    ensures r.size <= t.size
    ensures t.size >= 2 ==> r.capacity >= 7
    ensures Roomy(t.size) ==>
      r.capacity == LowPrime(4 * t.size) && r.size < r.capacity && Mass(r.data) == Mass(t.data)
    ensures Roomy(t.size) && PrefixFreeSet(Ids(t.data)) ==>
      r.size == t.size && Ids(r.data) == Ids(t.data) && ToMap(r.data) == ToMap(t.data)
  {
    ghost var src := t.data;
    var newSize := t.size * 4;
    ghost var p := LowPrime(4 * t.size);
    r := new Accum(newSize);
    r.topic := t.topic;
    r.isSet := t.isSet;
    assert r.capacity == p;
    if t.size >= 2 {
      LowPrimeAtLeast(newSize, 7);
    }
    RebuildStart(r.data, src);
    var i := 0;
    while i < t.capacity
      invariant 0 <= i <= t.capacity
      invariant fresh(r) && r.Valid()
      invariant r.topic == t.topic && r.isSet == t.isSet
      invariant r.size <= Occupied(src[..i]) && Distinct(src[..i])
      invariant t.size >= 2 ==> r.capacity >= 7
      invariant Roomy(t.size) ==> r.capacity == p && Mass(r.data) == Mass(src[..i])
      invariant Roomy(t.size) && PrefixFreeSet(Ids(src)) ==>
        Ids(r.data) == Ids(src[..i]) && ToMap(r.data) == ToMap(src[..i])
    {
      r := ReinsertSlot(t, src, i, r);
      i := i + 1;
    }
    assert src[..i] == src;
    RebuildDone(r.data, src, Roomy(t.size), p);
  }

  /** Before the rebuild loop: the fresh, empty table mirrors the empty prefix of the old one. */
  lemma RebuildStart(rs: seq<Slot>, src: seq<Slot>)
    requires forall i :: 0 <= i < |rs| ==> rs[i].Empty?
    ensures Distinct(rs) && Distinct(src[..0])
    ensures Mass(rs) == Mass(src[..0]) && Ids(rs) == Ids(src[..0]) && ToMap(rs) == ToMap(src[..0])
  {
    AllEmpty(rs);
    ToMapKeys(rs);
    assert src[..0] == [];
    ToMapKeys(src[..0]);
    MapExt(ToMap(rs), ToMap(src[..0]));
  }

  /**
   * After the rebuild loop: a new table of `p` slots that mirrors all of the old one holds
   * fewer entries than slots, and as many entries as the old one.
   */
  lemma RebuildDone(rs: seq<Slot>, src: seq<Slot>, fits: bool, p: nat)
    requires Distinct(rs) && Distinct(src) && Occupied(rs) <= Occupied(src)
    requires fits ==> |rs| == p && 4 * (Occupied(src) - 1) <= 3 * p && (Occupied(src) >= 2 ==> p >= 7) && p >= 2
    ensures fits ==> Occupied(rs) < |rs|
    ensures fits && Ids(rs) == Ids(src) ==> Occupied(rs) == Occupied(src)
  {
    if fits && Ids(rs) == Ids(src) {
      OccupiedIds(src);
      OccupiedIds(rs);
    }
  }
}
