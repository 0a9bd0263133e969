/**
 * The fusion driver of `rbc.c`: the weight vector that grows with the deepest rank seen,
 * the topic registry with one accumulator per registered topic, the accumulation of a
 * run into those accumulators, and the ranked output drawn from them.
 */
module Rbc {
  import opened CStr
  import opened Primes
  import opened Slots
  import opened RbcAccum
  import opened TopK
  import opened Trec
  import opened Ranking

  /** `x` to the power `n`. */
  function Pow(x: real, n: nat): real
  {
    if n == 0 then 1.0 else x * Pow(x, n - 1)
  }

  /** The rank-biased weight of 0-based rank position `i`: (1 - phi) * phi^i. */
  function Weight(phi: real, i: nat): real
  {
    (1.0 - phi) * Pow(phi, i)
  }

  /** The sum of the first `n` weights. */
  function WeightTotal(phi: real, n: nat): real
  {
    if n == 0 then 0.0 else WeightTotal(phi, n - 1) + Weight(phi, n - 1)
  }

  /**
   * The weights follow the running multiplier of `rbc_weight_alloc`: the first is
   * `1 - phi`, and each next one is the previous one times `phi`.
   */
  lemma WeightStep(phi: real, i: nat)
    ensures Weight(phi, 0) == 1.0 - phi
    ensures Weight(phi, i + 1) == phi * Weight(phi, i)
  {
    var p := Pow(phi, i);
    assert Weight(phi, i + 1) == (1.0 - phi) * (phi * p);
  }

  /** Scaling by a factor in [0, 1] keeps a value in [0, 1] and does not raise it. */
  lemma MulUnit(a: real, b: real)
    requires 0.0 <= a <= 1.0 && 0.0 <= b <= 1.0
    ensures 0.0 <= a * b <= b
  {
    assert 0.0 <= a * b;
    assert a * b <= 1.0 * b;
  }

  /** For phi in [0, 1] every power of phi lies in [0, 1]. */
  lemma {:induction false} PowBounds(phi: real, n: nat)
    requires 0.0 <= phi <= 1.0
    ensures 0.0 <= Pow(phi, n) <= 1.0
  {
    if n > 0 {
      PowBounds(phi, n - 1);
      MulUnit(phi, Pow(phi, n - 1));
    }
  }

  /** For phi in [0, 1] the weights are non-negative and never increase with depth. */
  lemma WeightsDecrease(phi: real, i: nat)
    requires 0.0 <= phi <= 1.0
    ensures 0.0 <= Weight(phi, i + 1) <= Weight(phi, i)
  {
    PowBounds(phi, i);
    var p, c := Pow(phi, i), 1.0 - phi;
    assert Weight(phi, i + 1) == phi * (c * p);
    assert 0.0 <= c && 0.0 <= p;
    assert 0.0 <= c * p;
    assert phi * (c * p) <= 1.0 * (c * p);
  }

  /** The first `n` weights sum to 1 - phi^n: the whole vector never hands out more than 1. */
  lemma {:induction false} WeightTotalIs(phi: real, n: nat)
    ensures WeightTotal(phi, n) == 1.0 - Pow(phi, n)
  {
    if n > 0 {
      WeightTotalIs(phi, n - 1);
      var p := Pow(phi, n - 1);
      calc {
        WeightTotal(phi, n);
        1.0 - p + (1.0 - phi) * p;
        1.0 - phi * p;
      }
    }
  }

  /** Entry `e` contributes to topic `q` under the weight vector `ws`. */
  predicate Counts(e: Entry, q: int, ws: seq<real>)
  {
    e.qid == q && 1 <= e.rank <= |ws|
  }

  /** The total weight the entries `es` add to topic `q`. */
  function Gain(es: seq<Entry>, q: int, ws: seq<real>): real
    decreases |es|
  {
    if es == [] then 0.0
    else
      var e := es[|es| - 1];
      Gain(es[..|es| - 1], q, ws) + (if Counts(e, q, ws) then ws[e.rank - 1] else 0.0)
  }

  /** The document ids the entries `es` add to topic `q`. */
  function Docnos(es: seq<Entry>, q: int, ws: seq<real>): set<Docno>
    decreases |es|
  {
    if es == [] then {}
    else
      var e := es[|es| - 1];
      Docnos(es[..|es| - 1], q, ws) + (if Counts(e, q, ws) then {e.docno} else {})
  }

  /** The id -> score map of topic `q` after the entries `es` were added to `m`, in order. */
  function Scores(m: map<Docno, real>, es: seq<Entry>, q: int, ws: seq<real>): map<Docno, real>
    decreases |es|
  {
    if es == [] then m
    else
      var e := es[|es| - 1];
      var m' := Scores(m, es[..|es| - 1], q, ws);
      if Counts(e, q, ws) then AddScore(m', e.docno, ws[e.rank - 1]) else m'
  }

  /**
   * What accumulating the entries `es` into topic `q` has done to its slots, from `s0` to
   * `s`: with no entry for the topic nothing changed, the score mass grew by the entries'
   * total weight and, when no id involved is a proper prefix of another, the ids and scores
   * are those of adding the entries' weights one by one.
   */
  ghost predicate TopicAccumulated(s0: seq<Slot>, s: seq<Slot>, es: seq<Entry>, q: int, ws: seq<real>)
  {
    (Docnos(es, q, ws) == {} ==> s == s0) &&
    (Bertrand() ==> Mass(s) == Mass(s0) + Gain(es, q, ws)) &&
    (Bertrand() && Distinct(s0) && Distinct(s) && PrefixFreeSet(Ids(s0) + Docnos(es, q, ws)) ==>
      Ids(s) == Ids(s0) + Docnos(es, q, ws) && ToMap(s) == Scores(ToMap(s0), es, q, ws))
  }

  /** `TopicAccumulated` for every topic of the tables `t0`, which keep their topics. */
  ghost predicate Accumulated(t0: map<int, seq<Slot>>, t: map<int, seq<Slot>>, es: seq<Entry>, ws: seq<real>)
  {
    t.Keys == t0.Keys && forall q :: q in t0 ==> TopicAccumulated(t0[q], t[q], es, q, ws)
  }

  lemma PrefixFreeSubset(a: set<Docno>, b: set<Docno>)
    requires a <= b && PrefixFreeSet(b)
    ensures PrefixFreeSet(a)
  {
  }

  /** The ids, weight and scores of `es + [e]` are those of `es` followed by those of `e`. */
  lemma Snoc(m: map<Docno, real>, es: seq<Entry>, e: Entry, q: int, ws: seq<real>)
    ensures Docnos(es + [e], q, ws) == Docnos(es, q, ws) + Docnos([e], q, ws)
    ensures Gain(es + [e], q, ws) == Gain(es, q, ws) + Gain([e], q, ws)
    ensures Scores(m, es + [e], q, ws) == Scores(Scores(m, es, q, ws), [e], q, ws)
  {
    var post := es + [e];
    assert post[..|es|] == es && post[|es|] == e;
    assert [e][..0] == [];
  }

  /** Accumulating `es` and then one more entry `e` is accumulating `es + [e]`. */
  lemma TopicSnoc(s0: seq<Slot>, s1: seq<Slot>, s2: seq<Slot>, es: seq<Entry>, e: Entry, q: int, ws: seq<real>)
    requires TopicAccumulated(s0, s1, es, q, ws) && TopicAccumulated(s1, s2, [e], q, ws) && Distinct(s1)
    ensures TopicAccumulated(s0, s2, es + [e], q, ws)
  {
    var ds, d1 := Docnos(es, q, ws), Docnos([e], q, ws);
    Snoc(map[], es, e, q, ws);
    if ds + d1 == {} {
      assert ds == {} && d1 == {};
    }
    var all := Ids(s0) + ds + d1;
    if Bertrand() && Distinct(s0) && Distinct(s2) && PrefixFreeSet(all) {
      PrefixFreeSubset(Ids(s0) + ds, all);
      assert Ids(s1) == Ids(s0) + ds && ToMap(s1) == Scores(ToMap(s0), es, q, ws);
      PrefixFreeSubset(Ids(s1) + d1, all);
      assert Ids(s2) == Ids(s1) + d1 && ToMap(s2) == Scores(ToMap(s1), [e], q, ws);
      Snoc(ToMap(s0), es, e, q, ws);
    }
  }

  /** `TopicSnoc` for every topic of the tables. */
  lemma AccumulatedSnoc(t0: map<int, seq<Slot>>, t1: map<int, seq<Slot>>, t2: map<int, seq<Slot>>,
                        es: seq<Entry>, e: Entry, ws: seq<real>)
    requires Accumulated(t0, t1, es, ws) && Accumulated(t1, t2, [e], ws)
    requires forall q :: q in t1 ==> Distinct(t1[q])
    ensures Accumulated(t0, t2, es + [e], ws)
  {
    forall q | q in t0
      ensures TopicAccumulated(t0[q], t2[q], es + [e], q, ws)
    {
      TopicSnoc(t0[q], t1[q], t2[q], es, e, q, ws);
    }
  }

  /** Nothing accumulated: the tables are as they were. */
  lemma AccumulatedNothing(t: map<int, seq<Slot>>, ws: seq<real>)
    ensures Accumulated(t, t, [], ws)
  {
  }

  /** An entry that counts for no topic of the tables leaves them as they are. */
  lemma EntrySkip(t: map<int, seq<Slot>>, e: Entry, ws: seq<real>)
    requires !(1 <= e.rank <= |ws| && e.qid in t)
    ensures Accumulated(t, t, [e], ws)
  {
    assert [e][..0] == [];
    forall q | q in t
      ensures TopicAccumulated(t[q], t[q], [e], q, ws)
    {
      assert !Counts(e, q, ws);
    }
  }

  /**
   * An entry that counts for topic `e.qid` of the tables: when only that topic's slots
   * changed, by the weight `x` of the entry's rank, the tables have accumulated the entry.
   */
  lemma EntryAdd(t: map<int, seq<Slot>>, t': map<int, seq<Slot>>, e: Entry, x: real, ws: seq<real>)
    requires 1 <= e.rank <= |ws| && e.qid in t && e.qid in t' && x == ws[e.rank - 1]
    requires t'.Keys == t.Keys && forall p :: p in t && p != e.qid ==> t'[p] == t[p]
    requires Distinct(t[e.qid]) && Distinct(t'[e.qid])
    requires Added(t[e.qid], t'[e.qid], e.docno, x)
    ensures Accumulated(t, t', [e], ws)
  {
    assert [e][..0] == [];
    forall p | p in t
      ensures TopicAccumulated(t[p], t'[p], [e], p, ws)
    {
      if p == e.qid {
        assert Counts(e, p, ws) && e.docno in Docnos([e], p, ws);
      } else {
        assert !Counts(e, p, ws);
      }
    }
  }

  /**
   * The loop of `rbc_init`: a fresh, empty accumulator of capacity `accumCapacity` for
   * every listed topic. How `rbc_topic_insert` treats a repeated topic is not visible;
   * here the first listing of a topic decides which accumulator it keeps.
   */
  method NewTable(topics: TopicList, accumCapacity: nat)
    returns (tab: map<int, Accum>, ghost own: map<Accum, int>, ghost cont: map<int, seq<Slot>>)
    requires topics.Valid()
    ensures tab.Keys == set q | q in topics.ary[..topics.len]
    ensures cont.Keys == tab.Keys
    ensures forall q :: q in tab ==>
      tab[q] in own && own[tab[q]] == q && fresh(tab[q]) && tab[q].Valid() &&
      tab[q].data == cont[q] == seq(LowPrime(accumCapacity), _ => Empty)
  {
    tab, own, cont := map[], map[], map[];
    var i := 0;
    while i < topics.len
      invariant 0 <= i <= topics.len
      invariant tab.Keys == set q | q in topics.ary[..i]
      invariant cont.Keys == tab.Keys
      invariant forall q :: q in tab ==>
        tab[q] in own && own[tab[q]] == q && fresh(tab[q]) && tab[q].Valid() &&
        tab[q].data == cont[q] == seq(LowPrime(accumCapacity), _ => Empty)
    {
      var q := topics.ary[i];
      if q !in tab {
        var a := new Accum(accumCapacity);
        tab := tab[q := a];
        own := own[a := q];
        cont := cont[q := a.data];
      }
      assert topics.ary[..i + 1] == topics.ary[..i] + [q];
      i := i + 1;
    }
  }

  /** Every accumulator of the table `tab` is owned by its own topic. */
  ghost predicate Owned(tab: map<int, Accum>, own: map<Accum, int>)
  {
    forall q :: q in tab ==> tab[q] in own && own[tab[q]] == q
  }

  /** Handing topic `q` an accumulator nobody owns, or the one it has, keeps ownership. */
  lemma OwnedUpdate(tab: map<int, Accum>, own: map<Accum, int>, q: int, a: Accum)
    requires Owned(tab, own) && q in tab && (a == tab[q] || a !in own)
    ensures Owned(tab[q := a], own[a := q])
    ensures forall p :: p in tab && p != q ==> tab[p] != tab[q] && tab[p] != a
  {
  }

  /** The collection loop of `rbc_present`: the occupied slots of `a`, in slot order. */
  method Collect(a: Accum) returns (hits: seq<Hit>)
    ensures hits == Hits(a.data)
  {
    hits := [];
    var j := 0;
    while j < |a.data|
      invariant 0 <= j <= |a.data|
      invariant hits == Hits(a.data[..j])
    {
      assert a.data[..j + 1][..j] == a.data[..j];
      if a.data[j].Full? {
        hits := hits + [Hit(a.data[j].docno, a.data[j].val)];
      }
      j := j + 1;
    }
    assert a.data[..j] == a.data;
  }

  /**
   * The printing loop of `rbc_present` over the drained hits `res`, lowest score first:
   * walk `j` down from `sz`, with `c` counting down from `depth` alongside, and print every
   * set entry with the next output rank `k`. The entry at `sz`, one past the drained
   * ones, is unset and prints nothing; the walk stops after `j == 0` or once `c` drops
   * below 0. The lines are the best `min(depth, sz)` hits, best first.
   */
  method Number(q: int, res: seq<Hit>, depth: nat) returns (block: seq<Line>)
    ensures block == Numbered(q, Reversed(res), Min(depth, |res|))
  {
    ghost var top := Reversed(res);
    var sz := |res|;
    block := [];
    var c: int := depth;
    var j := sz;
    var k := 1;
    while c >= 0
      invariant 0 <= j <= sz && -1 <= c == depth - (sz - j)
      invariant block == Numbered(q, top, if j == sz then 0 else sz - 1 - j)
      invariant k == |block| + 1
      decreases c
    {
      if j < sz {
        ReversedAt(res, sz - 1 - j);
        block := block + [Line(q, res[j].docno, k, res[j].score)];
        k := k + 1;
        assert block == Numbered(q, top, sz - j);
      }
      if j == 0 {
        break;
      }
      j := j - 1;
      c := c - 1;
    }
    if c < 0 {
      assert Min(depth, sz) == depth == sz - 1 - j;
    }
  }

  /** The module-level state of `rbc.c`, with the function statics of `rbc_weight_alloc`. */
  class Rbc {
    var weights: array<real>
    var weightSz: nat
    var first: bool
    var w: real
    var phi: real
    var topicTab: map<int, Accum>
    var qids: seq<int>
    /** The topic each accumulator in the table belongs to: no two topics share one. */
    ghost var Owner: map<Accum, int>
    /** The slot contents of every topic's accumulator. */
    ghost var Contents: map<int, seq<Slot>>

    /**
     * The weight vector holds exactly the geometric series of the `phi` fixed by the
     * first growing call, and `w` is the next term to hand out.
     */
    ghost predicate WeightsValid()
      reads this, weights
    {
      weights.Length == weightSz &&
      (first ==> weightSz == 0) &&
      (!first ==> w == Weight(phi, weightSz)) &&
      forall i :: 0 <= i < weightSz ==> weights[i] == Weight(phi, i)
    }

    /** The initial values of the globals: no weights, no registry, no table. */
    constructor ()
      ensures WeightsValid() && weightSz == 0 && first
      ensures topicTab == map[] && qids == []
    {
      weights := new real[0];
      weightSz := 0;
      first := true;
      w := 0.0;
      phi := 0.0;
      topicTab := map[];
      qids := [];
      Owner := map[];
      Contents := map[];
    }

    /**
     * `rbc_weight_alloc`: grow the vector to `len` entries, continuing the series where it
     * stopped. The first growing call fixes `phi`; later values of `phi0` are ignored.
     */
    method WeightAlloc(phi0: real, len: nat)
      requires WeightsValid()
      modifies this
      ensures WeightsValid()
      ensures topicTab == old(topicTab) && qids == old(qids)
      ensures len <= old(weightSz) ==>
        weights == old(weights) && weightSz == old(weightSz) && first == old(first) &&
        w == old(w) && phi == old(phi)
      ensures old(weightSz) < len ==>
        weightSz == len && !first && fresh(weights) &&
        phi == (if old(first) then phi0 else old(phi))
      ensures forall i :: 0 <= i < old(weightSz) ==> weights[i] == old(weights[i])
    {
      var prev := weightSz;
      if len <= weightSz {
        return;
      }
      var a := new real[len];
      var j := 0;
      while j < prev
        invariant 0 <= j <= prev
        invariant unchanged(this)
        invariant forall i :: 0 <= i < j ==> a[i] == weights[i]
      {
        a[j] := weights[j];
        j := j + 1;
      }
      weights := a;
      weightSz := len;
      if first {
        w := 1.0 - phi0;
        phi := phi0;
        first := false;
      }
      var i := prev;
      while i < weightSz
        invariant prev <= i <= weightSz == weights.Length == len && weights == a
        invariant !first && phi == (if old(first) then phi0 else old(phi))
        invariant topicTab == old(topicTab) && qids == old(qids)
        invariant w == Weight(phi, i)
        invariant forall k :: 0 <= k < i ==> weights[k] == Weight(phi, k)
        invariant forall k :: 0 <= k < prev ==> weights[k] == old(weights[k])
      {
        weights[i] := w;
        w := w * phi;
        i := i + 1;
      }
    }

    /**
     * The topic table holds a well-formed accumulator for exactly the registered topics,
     * each owned by its own topic, and `Contents` records their slots.
     */
    ghost predicate TableValid()
      reads this, Owner.Keys
    {
      topicTab.Keys == (set q | q in qids) && Contents.Keys == topicTab.Keys &&
      Owned(topicTab, Owner) &&
      forall q :: q in topicTab ==> topicTab[q].Valid() && topicTab[q].data == Contents[q]
    }

    /**
     * `rbc_init`: copy the topic list of the first run into the registry and give each
     * listed topic an empty accumulator of the table module's capacity `accumCapacity`.
     * In this model a topic listed twice keeps the accumulator it was first given.
     */
    method Init(topics: TopicList, accumCapacity: nat)
      requires topics.Valid()
      modifies this
      ensures TableValid()
      ensures qids == old(topics.Items())
      ensures forall q :: q in topicTab ==> fresh(topicTab[q])
      ensures forall q :: q in Contents ==> Contents[q] == seq(LowPrime(accumCapacity), _ => Empty)
      ensures weights == old(weights) && weightSz == old(weightSz) && first == old(first)
      ensures w == old(w) && phi == old(phi)
    {
      var tab, own, cont := NewTable(topics, accumCapacity);
      qids := topics.ary[..topics.len];
      topicTab, Owner, Contents := tab, own, cont;
    }

    /**
     * The lookup-and-update of `rbc_accumulate` for a registered topic `q`: add `score`
     * to `val` in its accumulator and keep the (possibly rebuilt) accumulator in the table.
     */
    method UpdateTopic(q: int, val: Docno, score: real)
      requires TableValid() && q in topicTab
      modifies this, Owner.Keys
      ensures TableValid() && fresh(Owner.Keys - old(Owner.Keys))
      ensures weights == old(weights) && weightSz == old(weightSz) && first == old(first)
      ensures w == old(w) && phi == old(phi) && qids == old(qids)
      ensures forall p :: p in old(Contents) && p != q ==> Contents[p] == old(Contents)[p]
      ensures Added(old(Contents)[q], Contents[q], val, score)
    {
      var t := topicTab[q];
      var cur := Bump(t, val, score);
      assert cur == t || cur !in Owner;
      OwnedUpdate(topicTab, Owner, q, cur);
      if cur != t {
        topicTab := topicTab[q := cur];
        Owner := Owner[cur := q];
      }
      Contents := Contents[q := cur.data];
    }

    /**
     * One iteration of `rbc_accumulate`: when the entry's rank is covered by the weight
     * vector (`rank - 1` taken as an unsigned value is below `weight_sz`) and its topic is
     * registered, add the weight of its rank to its document in its topic's accumulator.
     */
    method AccumulateEntry(e: Entry)
      requires weights.Length == weightSz && TableValid()
      modifies this, Owner.Keys
      ensures TableValid() && fresh(Owner.Keys - old(Owner.Keys))
      ensures weights == old(weights) && weightSz == old(weightSz) && first == old(first)
      ensures w == old(w) && phi == old(phi) && qids == old(qids)
      ensures Accumulated(old(Contents), Contents, [e], weights[..])
    {
      ghost var t := Contents;
      if 1 <= e.rank && e.rank <= weightSz && e.qid in topicTab {
        var wt := weights[e.rank - 1];
        UpdateTopic(e.qid, e.docno, wt);
        EntryAdd(t, Contents, e, wt, weights[..]);
      } else {
        EntrySkip(t, e, weights[..]);
      }
    }

    /** `rbc_accumulate`: add every entry of the run, in order, to the accumulators. */
    method Accumulate(run: TrecRun)
      requires weights.Length == weightSz && TableValid() && run.Valid()
      modifies this, Owner.Keys
      ensures TableValid() && fresh(Owner.Keys - old(Owner.Keys)) && weights[..] == old(weights[..])
      ensures weights == old(weights) && weightSz == old(weightSz) && first == old(first)
      ensures w == old(w) && phi == old(phi) && qids == old(qids)
      ensures Accumulated(old(Contents), Contents, run.Entries(), weights[..])
    {
      ghost var t0, es, ws := Contents, run.Entries(), weights[..];
      AccumulatedNothing(t0, ws);
      var i := 0;
      while i < run.len
        invariant 0 <= i <= run.len
        invariant TableValid() && fresh(Owner.Keys - old(Owner.Keys))
        invariant weights == old(weights) && weightSz == old(weightSz) && first == old(first)
        invariant w == old(w) && phi == old(phi) && qids == old(qids)
        invariant weights.Length == weightSz && weights[..] == ws
        invariant Accumulated(t0, Contents, es[..i], ws)
      {
        ghost var t := Contents;
        var e := run.ary[i];
        assert es[..i + 1] == es[..i] + [e];
        AccumulateEntry(e);
        AccumulatedSnoc(t0, t, Contents, es[..i], e, ws);
        i := i + 1;
      }
      assert es[..run.len] == es;
    }
  
    /** The body of `rbc_present`'s topic loop: the lines topic `q` reports at depth `d`. */
    method TopicReport(q: int, d: nat) returns (block: seq<Line>)
      requires TableValid() && q in topicTab
      ensures block == TopicLines(q, Contents[q], d, weightSz)
    {
      var hits := Collect(topicTab[q]);
      var res := Drain(hits, weightSz);
      block := Number(q, res, d);
      DrainAscending(hits, weightSz);
    }

    /**
     * `rbc_present`: a depth of 0 is an error; otherwise the depth is clamped to the
     * weight vector's length and each registered topic, in registry order, reports its
     * best occupied slots, numbered from 1.
     */
    method Present(depth: nat) returns (out: Output)
      requires TableValid()
      ensures out.BadDepth? <==> depth == 0
      ensures depth > 0 ==> out == Ranked(Report(Contents, qids, Min(depth, weightSz), weightSz))
    {
      if depth < 1 {
        return BadDepth;
      }
      var d := depth;
      if d > weightSz {
        d := weightSz;
      }
      assert d == Min(depth, weightSz);
      var lines: seq<Line> := [];
      var i := 0;
      while i < |qids|
        invariant 0 <= i <= |qids|
        invariant lines == Report(Contents, qids[..i], d, weightSz)
      {
        var q := qids[i];
        assert q in topicTab;
        var block := TopicReport(q, d);
        assert qids[..i + 1][..i] == qids[..i];
        assert Report(Contents, qids[..i + 1], d, weightSz) == Report(Contents, qids[..i], d, weightSz) + block;
        lines := lines + block;
        i := i + 1;
      }
      assert qids[..i] == qids;
      return Ranked(lines);
    }
  }
}
