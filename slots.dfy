/**
 * The slot array of an accumulator table, as a value: the hash that chooses where a
 * probe starts, the cyclic probe order, what one update does to the array, and the
 * invariants linear probing keeps (no identifier twice, no gap on a probe path).
 */
module Slots {
  import opened CStr

  type Docno = Bytes

  /** `struct accum_node`: a slot is either unset (zero-initialised) or holds an id and its score. */
  datatype Slot = Empty | Full(docno: Docno, val: real)

  /**
   * One step of `str_hash`: `hash ^ (c + (hash << 6) + (hash >> 2))` on a 64-bit
   * `unsigned long`, where the `char` c is signed and is sign-extended first.
   */
  function Mix(h: bv64, c: byte): bv64
  {
    var x: bv64 := if c < 128 then c as int as bv64 else (c as int + 0xFFFF_FFFF_FFFF_FF00) as bv64;
    h ^ (x + (h << 6) + (h >> 2))
  }

  /** `str_hash`: start from 2081 and mix in every byte, left to right. */
  function StrHash(s: Bytes): bv64
    decreases |s|
  {
    if s == [] then 2081 else Mix(StrHash(s[..|s| - 1]), s[|s| - 1])
  }

  /**
   * The loop of `str_hash`: mix the bytes in one by one and stop at the first NUL, where
   * the C string ends. On a NUL-free id this is `StrHash` of the whole id.
   */
  method ComputeHash(s: Bytes) returns (h: bv64)
    ensures h == StrHash(s[..StrLen(s)])
    ensures NoNul(s) ==> h == StrHash(s)
  {
    ghost var n := StrLen(s);
    h := 2081;
    var i := 0;
    while i < |s| && s[i] != Nul
      invariant 0 <= i <= n
      invariant h == StrHash(s[..i])
    {
      assert i < n;
      assert s[..i + 1][..i] == s[..i];
      h := Mix(h, s[i]);
      i := i + 1;
    }
    StrLenStop(s, i);
  }

  /** `HASH(s, ht)`: the slot where the probe for `d` starts in a table of `n` slots. */
  function Home(d: Docno, n: nat): (h: nat)
    requires n > 0
    ensures h < n
  {
    (StrHash(d) as int) % n
  }

  /** Number of probe steps from slot `a` forward (wrapping) to slot `b`. */
  function Dist(a: nat, b: nat, n: nat): (k: nat)
    requires a < n && b < n
    ensures k < n
    ensures k == 0 <==> a == b
  {
    if a <= b then b - a else n - a + b
  }

  /** The probe visits slots in a fixed order: no two slots are the same number of steps away. */
  lemma DistInjective(a: nat, b: nat, c: nat, n: nat)
    requires a < n && b < n && c < n
    requires Dist(a, b, n) == Dist(a, c, n)
    ensures b == c
  {
  }

  /**
   * Advancing the key by one (`++key; key %= capacity`) is one more probe step, and
   * after the last of the n steps the key is back at the start.
   */
  lemma DistStep(a: nat, b: nat, n: nat)
    requires a < n && b < n
    ensures (b + 1) % n < n
    ensures Dist(a, b, n) + 1 < n ==> Dist(a, (b + 1) % n, n) == Dist(a, b, n) + 1
    ensures Dist(a, b, n) + 1 == n ==> (b + 1) % n == a
  {
    NextSlot(b, n);
  }

  /** `(b + 1) % n` for a slot index b: the next slot, or slot 0 after the last one. */
  lemma NextSlot(b: nat, n: nat)
    requires b < n
    ensures (b + 1) % n == if b + 1 < n then b + 1 else 0
  {
    var q, r := (b + 1) / n, (b + 1) % n;
    assert b + 1 == n * q + r && 0 <= r < n;
  }

  /** The probe for `val` stops at slot i: it is unset, or its id passes the `strncmp` test. */
  predicate Stops(s: seq<Slot>, val: Docno, i: nat)
    requires i < |s|
  {
    s[i].Empty? || IsPrefix(s[i].docno, val)
  }

  /** `key` is where the probe for `val` ends: a stop, and every slot probed before it is not. */
  ghost predicate FirstStop(s: seq<Slot>, val: Docno, key: nat)
  {
    key < |s| && Stops(s, val, key) &&
    forall i :: 0 <= i < |s| && Dist(Home(val, |s|), i, |s|) < Dist(Home(val, |s|), key, |s|) ==> !Stops(s, val, i)
  }

  /** The probe is deterministic: the slot where it ends is unique. */
  lemma FirstStopUnique(s: seq<Slot>, val: Docno, k1: nat, k2: nat)
    requires FirstStop(s, val, k1) && FirstStop(s, val, k2)
    ensures k1 == k2
  {
    var h := Home(val, |s|);
    assert Dist(h, k1, |s|) == Dist(h, k2, |s|);
    DistInjective(h, k1, k2, |s|);
  }

  /** The body of the probe loop at the slot where it ends: fill an unset slot, or add to the score. */
  function Put(s: seq<Slot>, val: Docno, score: real, key: nat): (r: seq<Slot>)
    requires key < |s|
    ensures |r| == |s| && r[key].Full?
    ensures s[key].Full? ==> r[key].docno == s[key].docno
    ensures forall i :: 0 <= i < |s| && i != key ==> r[i] == s[i]
  {
    if s[key].Empty? then s[key := Full(val, score)]
    else s[key := Full(s[key].docno, s[key].val + score)]
  }

  function Score(x: Slot): real
  {
    if x.Full? then x.val else 0.0
  }

  function Count(x: Slot): nat
  {
    if x.Full? then 1 else 0
  }

  /** Number of occupied slots (what the `size` field counts). */
  function Occupied(s: seq<Slot>): nat
    decreases |s|
  {
    if s == [] then 0 else Occupied(s[..|s| - 1]) + Count(s[|s| - 1])
  }

  /** Sum of the scores held by the table. */
  function Mass(s: seq<Slot>): real
    decreases |s|
  {
    if s == [] then 0.0 else Mass(s[..|s| - 1]) + Score(s[|s| - 1])
  }

  /** No identifier occupies two slots. */
  ghost predicate Distinct(s: seq<Slot>)
  {
    forall i, j :: 0 <= i < |s| && 0 <= j < |s| && i != j && s[i].Full? && s[j].Full? ==> s[i].docno != s[j].docno
  }

  /**
   * Linear-probing invariant: every slot between an id's home slot and the slot holding
   * it is occupied, so a later probe for the same id cannot stop short of it.
   */
  ghost predicate ChainOK(s: seq<Slot>)
  {
    forall j, i {:trigger Dist(Home(s[j].docno, |s|), i, |s|)} ::
      (0 <= j < |s| && 0 <= i < |s| && s[j].Full? &&
       Dist(Home(s[j].docno, |s|), i, |s|) < Dist(Home(s[j].docno, |s|), j, |s|)) ==> s[i].Full?
  }

  /** The identifiers stored in the table. */
  ghost function Ids(s: seq<Slot>): set<Docno>
  {
    set i | 0 <= i < |s| && s[i].Full? :: s[i].docno
  }

  /** The id -> score mapping the table represents. */
  ghost function ToMap(s: seq<Slot>): (m: map<Docno, real>)
    requires Distinct(s)
  {
    map i | 0 <= i < |s| && s[i].Full? :: s[i].docno := s[i].val
  }

  /** Add `x` to the score of `d`, starting from 0 when `d` is new. */
  function AddScore(m: map<Docno, real>, d: Docno, x: real): (m': map<Docno, real>)
  {
    m[d := (if d in m then m[d] else 0.0) + x]
  }

  /** The keys of ToMap are exactly the stored identifiers, each with its slot's score. */
  lemma ToMapAt(s: seq<Slot>, i: nat)
    requires Distinct(s) && i < |s| && s[i].Full?
    ensures s[i].docno in ToMap(s) && ToMap(s)[s[i].docno] == s[i].val
  {
  }

  lemma ToMapKeys(s: seq<Slot>)
    requires Distinct(s)
    ensures ToMap(s).Keys == Ids(s)
  {
  }

  lemma {:induction false} OccupiedUpdate(s: seq<Slot>, k: nat, x: Slot)
    requires k < |s|
    ensures Occupied(s[k := x]) == Occupied(s) - Count(s[k]) + Count(x)
    decreases |s|
  {
    var n := |s| - 1;
    if k < n {
      assert s[k := x][..n] == s[..n][k := x];
      OccupiedUpdate(s[..n], k, x);
    } else {
      assert s[k := x][..n] == s[..n];
    }
  }

  lemma {:induction false} MassUpdate(s: seq<Slot>, k: nat, x: Slot)
    requires k < |s|
    ensures Mass(s[k := x]) == Mass(s) - Score(s[k]) + Score(x)
    decreases |s|
  {
    var n := |s| - 1;
    if k < n {
      assert s[k := x][..n] == s[..n][k := x];
      MassUpdate(s[..n], k, x);
    } else {
      assert s[k := x][..n] == s[..n];
    }
  }

  /** An update raises the table's total score by exactly `score`, and fills at most one slot. */
  lemma PutMass(s: seq<Slot>, val: Docno, score: real, key: nat)
    requires key < |s|
    ensures Mass(Put(s, val, score, key)) == Mass(s) + score
    ensures Occupied(Put(s, val, score, key)) == Occupied(s) + (if s[key].Empty? then 1 else 0)
  {
    if s[key].Empty? {
      MassUpdate(s, key, Full(val, score));
      OccupiedUpdate(s, key, Full(val, score));
    } else {
      MassUpdate(s, key, Full(s[key].docno, s[key].val + score));
      OccupiedUpdate(s, key, Full(s[key].docno, s[key].val + score));
    }
  }

  /** A table with every slot unset holds nothing. */
  lemma {:induction false} AllEmpty(s: seq<Slot>)
    requires forall i :: 0 <= i < |s| ==> s[i].Empty?
    ensures Occupied(s) == 0 && Mass(s) == 0.0 && Ids(s) == {}
    decreases |s|
  {
    if s != [] {
      AllEmpty(s[..|s| - 1]);
    }
  }

  /** Extending a prefix by one slot adds that slot's count, score and id. */
  lemma PrefixStep(s: seq<Slot>, i: nat)
    requires i < |s|
    ensures Occupied(s[..i + 1]) == Occupied(s[..i]) + Count(s[i])
    ensures Mass(s[..i + 1]) == Mass(s[..i]) + Score(s[i])
    ensures Ids(s[..i + 1]) == Ids(s[..i]) + (if s[i].Full? then {s[i].docno} else {})
    ensures Ids(s[..i + 1]) <= Ids(s)
  {
    assert s[..i + 1][..i] == s[..i];
  }

  /** A prefix of the table holds no more than the whole table. */
  lemma {:induction false} OccupiedPrefix(s: seq<Slot>, i: nat)
    requires i <= |s|
    ensures Occupied(s[..i]) <= Occupied(s)
    decreases |s| - i
  {
    if i < |s| {
      PrefixStep(s, i);
      OccupiedPrefix(s, i + 1);
    } else {
      assert s[..i] == s;
    }
  }

  /** Completing a probe keeps both table invariants and updates count and total score. */
  lemma PutKeepsInvariants(s: seq<Slot>, val: Docno, score: real, key: nat)
    requires Distinct(s) && ChainOK(s) && FirstStop(s, val, key)
    ensures Distinct(Put(s, val, score, key)) && ChainOK(Put(s, val, score, key))
    ensures Occupied(Put(s, val, score, key)) == Occupied(s) + (if s[key].Empty? then 1 else 0)
    ensures Mass(Put(s, val, score, key)) == Mass(s) + score
  {
    PutMass(s, val, score, key);
    PutKeepsChain(s, val, score, key);
    PutKeepsDistinct(s, val, score, key);
  }

  /** A prefix of a table without duplicate ids has none either. */
  lemma DistinctPrefix(s: seq<Slot>, i: nat)
    requires Distinct(s) && i <= |s|
    ensures Distinct(s[..i])
  {
  }

  /** With no duplicate ids, extending a prefix by an occupied slot adds one new entry to the mapping. */
  lemma ToMapSnocFull(s: seq<Slot>, i: nat)
    requires Distinct(s) && i < |s| && s[i].Full?
    ensures Distinct(s[..i]) && Distinct(s[..i + 1])
    ensures s[i].docno !in Ids(s[..i]) && ToMap(s[..i + 1]) == ToMap(s[..i])[s[i].docno := s[i].val]
  {
    var p, q := s[..i], s[..i + 1];
    DistinctPrefix(s, i);
    DistinctPrefix(s, i + 1);
    PrefixStep(s, i);
    ToMapKeys(p);
    ToMapKeys(q);
    assert s[i].docno !in Ids(p);
    var m, m' := ToMap(p)[s[i].docno := s[i].val], ToMap(q);
    forall e | e in m'
      ensures m'[e] == m[e]
    {
      var j :| 0 <= j < |q| && q[j].Full? && q[j].docno == e;
      ToMapAt(q, j);
      if j < i {
        assert q[j] == p[j];
        ToMapAt(p, j);
      }
    }
    MapExt(m', m);
  }

  /** Extending a prefix by an unset slot leaves the mapping as it was. */
  lemma ToMapSnocEmpty(s: seq<Slot>, i: nat)
    requires Distinct(s) && i < |s| && s[i].Empty?
    ensures Distinct(s[..i]) && Distinct(s[..i + 1])
    ensures ToMap(s[..i + 1]) == ToMap(s[..i])
  {
    var p, q := s[..i], s[..i + 1];
    DistinctPrefix(s, i);
    DistinctPrefix(s, i + 1);
    PrefixStep(s, i);
    ToMapKeys(p);
    ToMapKeys(q);
    var m, m' := ToMap(p), ToMap(q);
    forall e | e in m'
      ensures m'[e] == m[e]
    {
      var j :| 0 <= j < |q| && q[j].Full? && q[j].docno == e;
      assert j < i && q[j] == p[j];
      ToMapAt(q, j);
      ToMapAt(p, j);
    }
    MapExt(m', m);
  }

  /** Both cases of extending a prefix by one slot. */
  lemma ToMapPrefixStep(s: seq<Slot>, i: nat)
    requires Distinct(s) && i < |s|
    ensures Distinct(s[..i]) && Distinct(s[..i + 1])
    ensures s[i].Full? ==> s[i].docno !in Ids(s[..i]) && ToMap(s[..i + 1]) == ToMap(s[..i])[s[i].docno := s[i].val]
    ensures s[i].Empty? ==> ToMap(s[..i + 1]) == ToMap(s[..i])
  {
    if s[i].Full? {
      ToMapSnocFull(s, i);
    } else {
      ToMapSnocEmpty(s, i);
    }
  }

  /** The occupied count never exceeds the number of slots. */
  lemma {:induction false} OccupiedBound(s: seq<Slot>)
    ensures Occupied(s) <= |s|
    decreases |s|
  {
    if s != [] {
      OccupiedBound(s[..|s| - 1]);
    }
  }

  /** A table with fewer occupied slots than slots has an unset slot. */
  lemma {:induction false} EmptySlotExists(s: seq<Slot>) returns (e: nat)
    requires Occupied(s) < |s|
    ensures e < |s| && s[e].Empty?
    decreases |s|
  {
    var n := |s| - 1;
    if s[n].Empty? {
      e := n;
    } else {
      e := EmptySlotExists(s[..n]);
    }
  }

  /** With no duplicate ids, the occupied count is the number of distinct ids stored. */
  lemma {:induction false} OccupiedIds(s: seq<Slot>)
    requires Distinct(s)
    ensures Occupied(s) == |Ids(s)|
    decreases |s|
  {
    if s == [] {
      assert Ids(s) == {};
    } else {
      var n := |s| - 1;
      DistinctPrefix(s, n);
      OccupiedIds(s[..n]);
      PrefixStep(s, n);
      assert s[..n + 1] == s;
      if s[n].Full? {
        ToMapSnocFull(s, n);
      }
    }
  }


  /** Filling the slot where the probe ended keeps every probe path gap-free. */
  lemma PutKeepsChain(s: seq<Slot>, val: Docno, score: real, key: nat)
    requires ChainOK(s) && FirstStop(s, val, key)
    ensures ChainOK(Put(s, val, score, key))
  {
    var t := Put(s, val, score, key);
    forall j, i | 0 <= j < |t| && 0 <= i < |t| && t[j].Full? &&
      Dist(Home(t[j].docno, |t|), i, |t|) < Dist(Home(t[j].docno, |t|), j, |t|)
      ensures t[i].Full?
    {
      if j == key && s[key].Empty? {
        assert !Stops(s, val, i);
      } else {
        assert s[j].Full? && s[j].docno == t[j].docno;
        assert s[i].Full?;
      }
    }
  }

  /** Filling the slot where the probe ended never creates a second slot for an id. */
  lemma PutKeepsDistinct(s: seq<Slot>, val: Docno, score: real, key: nat)
    requires Distinct(s) && ChainOK(s) && FirstStop(s, val, key)
    ensures Distinct(Put(s, val, score, key))
  {
    if s[key].Empty? {
      forall j | 0 <= j < |s| && j != key && s[j].Full?
        ensures s[j].docno != val
      {
        NotStoredBeyond(s, val, key, j);
      }
    }
  }

  /** An occupied slot holding `val` itself would have stopped the probe before an unset slot. */
  lemma NotStoredBeyond(s: seq<Slot>, val: Docno, key: nat, j: nat)
    requires ChainOK(s) && FirstStop(s, val, key) && s[key].Empty?
    requires j < |s| && j != key && s[j].Full?
    ensures s[j].docno != val
  {
    var h := Home(s[j].docno, |s|);
    assert Dist(h, j, |s|) <= Dist(h, key, |s|);
    assert Dist(h, j, |s|) != Dist(h, key, |s|) by {
      if Dist(h, j, |s|) == Dist(h, key, |s|) {
        DistInjective(h, j, key, |s|);
      }
    }
    assert Stops(s, s[j].docno, j);
  }

  /** Two maps with the same keys and the same value at every key are equal. */
  lemma MapExt(m1: map<Docno, real>, m2: map<Docno, real>)
    requires m1.Keys == m2.Keys
    requires forall d :: d in m1 ==> m1[d] == m2[d]
    ensures m1 == m2
  {
  }

  /** Overwriting the score of an occupied slot changes that id's entry of the mapping only. */
  lemma ToMapSetScore(s: seq<Slot>, k: nat, v: real)
    requires Distinct(s) && k < |s| && s[k].Full?
    ensures Distinct(s[k := Full(s[k].docno, v)])
    ensures Ids(s[k := Full(s[k].docno, v)]) == Ids(s)
    ensures ToMap(s[k := Full(s[k].docno, v)]) == ToMap(s)[s[k].docno := v]
  {
    var t := s[k := Full(s[k].docno, v)];
    assert Distinct(t);
    assert Ids(t) == Ids(s) by {
      assert forall i :: 0 <= i < |s| ==> t[i].Full? == s[i].Full? && (t[i].Full? ==> t[i].docno == s[i].docno);
    }
    var m, m' := ToMap(s)[s[k].docno := v], ToMap(t);
    assert m.Keys == m'.Keys by {
      ToMapKeys(s);
      ToMapKeys(t);
      ToMapAt(s, k);
    }
    forall d | d in m'
      ensures m'[d] == m[d]
    {
      var i :| 0 <= i < |t| && t[i].Full? && t[i].docno == d;
      ToMapAt(t, i);
      ToMapAt(s, i);
    }
    MapExt(m', m);
  }

  /** Filling an unset slot with a new id adds exactly that id to the mapping. */
  lemma ToMapFill(s: seq<Slot>, k: nat, d: Docno, v: real)
    requires Distinct(s) && k < |s| && s[k].Empty? && d !in Ids(s)
    ensures Distinct(s[k := Full(d, v)])
    ensures Ids(s[k := Full(d, v)]) == Ids(s) + {d}
    ensures ToMap(s[k := Full(d, v)]) == ToMap(s)[d := v]
  {
    var t := s[k := Full(d, v)];
    assert Distinct(t);
    assert Ids(t) == Ids(s) + {d} by {
      assert forall i :: 0 <= i < |s| && i != k ==> t[i] == s[i];
      assert t[k].docno == d;
    }
    var m, m' := ToMap(s)[d := v], ToMap(t);
    assert m.Keys == m'.Keys by {
      ToMapKeys(s);
      ToMapKeys(t);
    }
    forall e | e in m'
      ensures m'[e] == m[e]
    {
      var i :| 0 <= i < |t| && t[i].Full? && t[i].docno == e;
      ToMapAt(t, i);
      if i != k {
        ToMapAt(s, i);
      }
    }
    MapExt(m', m);
  }

  /**
   * When no stored id is a proper prefix of `val` nor `val` of a stored id, the `strncmp`
   * test is exact equality and the update adds `score` to `val`'s entry of the mapping
   * (creating it at `score` when absent); the ids become those stored plus `val`.
   */
  lemma PutToMap(s: seq<Slot>, val: Docno, score: real, key: nat)
    requires Distinct(s) && ChainOK(s) && FirstStop(s, val, key)
    requires PrefixFreeSet(Ids(s) + {val})
    ensures Distinct(Put(s, val, score, key))
    ensures Ids(Put(s, val, score, key)) == Ids(s) + {val}
    ensures ToMap(Put(s, val, score, key)) == AddScore(ToMap(s), val, score)
  {
    if s[key].Full? {
      // the stored id passed the prefix test and is no proper prefix, so it is `val` itself
      assert s[key].docno in Ids(s);
      assert s[key].docno == val;
      PutHit(s, val, score, key);
    } else {
      forall j | 0 <= j < |s| && s[j].Full?
        ensures s[j].docno != val
      {
        NotStoredBeyond(s, val, key, j);
      }
      PutMiss(s, val, score, key);
    }
  }

  /** The probe ended on the slot holding `val`: its score rises by `score`. */
  lemma PutHit(s: seq<Slot>, val: Docno, score: real, key: nat)
    requires Distinct(s) && key < |s| && s[key].Full? && s[key].docno == val
    ensures Distinct(Put(s, val, score, key))
    ensures Ids(Put(s, val, score, key)) == Ids(s) + {val}
    ensures ToMap(Put(s, val, score, key)) == AddScore(ToMap(s), val, score)
  {
    var m := ToMap(s);
    ToMapAt(s, key);
    assert val in m && m[val] == s[key].val;
    ToMapSetScore(s, key, s[key].val + score);
    assert AddScore(m, val, score) == m[val := s[key].val + score];
  }

  /** The probe ended on an unset slot and `val` was not stored: it enters at `score`. */
  lemma PutMiss(s: seq<Slot>, val: Docno, score: real, key: nat)
    requires Distinct(s) && key < |s| && s[key].Empty?
    requires forall j :: 0 <= j < |s| && s[j].Full? ==> s[j].docno != val
    ensures Distinct(Put(s, val, score, key))
    ensures Ids(Put(s, val, score, key)) == Ids(s) + {val}
    ensures ToMap(Put(s, val, score, key)) == AddScore(ToMap(s), val, score)
  {
    var m := ToMap(s);
    ToMapKeys(s);
    assert val !in m;
    ToMapFill(s, key, val, score);
    assert AddScore(m, val, score) == m[val := score];
  }
}
