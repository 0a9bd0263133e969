/**
 * The priority queue `rbc_present` drains, as the selection it performs: of the
 * (document id, score) pairs put into it, the `k` best, highest score first. Among
 * equal scores the order is whatever the selection picks; nothing here depends on it.
 */
module TopK {
  import opened CStr

  /** `struct accum_node` as the queue holds it: an id and its accumulated score. */
  datatype Hit = Hit(docno: Bytes, score: real)

  /** The position of a highest-scoring hit (the first one, among equals). */
  function ArgMax(hs: seq<Hit>): (m: nat)
    requires |hs| > 0
    ensures m < |hs|
    ensures forall i :: 0 <= i < |hs| ==> hs[i].score <= hs[m].score
    decreases |hs|
  {
    if |hs| == 1 then 0
    else
      var m := ArgMax(hs[1..]) + 1;
      assert forall i :: 1 <= i < |hs| ==> hs[i] == hs[1..][i - 1];
      if hs[0].score >= hs[m].score then 0 else m
  }

  /** The hits with the one at position `m` taken out. */
  function Without(hs: seq<Hit>, m: nat): (r: seq<Hit>)
    requires m < |hs|
    ensures |r| == |hs| - 1
  {
    hs[..m] + hs[m + 1..]
  }

  /** How many times `h` occurs in `s`. */
  function Occ(s: seq<Hit>, h: Hit): nat {
    if s == [] then 0 else (if s[0] == h then 1 else 0) + Occ(s[1..], h)
  }

  /** Occurrences add up over a concatenation. */
  lemma {:induction false} OccAppend(a: seq<Hit>, b: seq<Hit>, h: Hit)
    ensures Occ(a + b, h) == Occ(a, h) + Occ(b, h)
  {
    if a == [] {
      assert a + b == b;
    } else {
      assert (a + b)[1..] == a[1..] + b;
      OccAppend(a[1..], b, h);
    }
  }

  /** `Occ` is the multiplicity of the sequence seen as a multiset. */
  lemma {:induction false} OccMultiset(s: seq<Hit>, h: Hit)
    ensures Occ(s, h) == multiset(s)[h]
  {
    if s != [] {
      assert s == [s[0]] + s[1..];
      OccMultiset(s[1..], h);
    }
  }

  /** A hit that occurs in `s` sits at some position of it. */
  lemma {:induction false} OccPos(s: seq<Hit>, h: Hit) returns (m: nat)
    requires Occ(s, h) > 0
    ensures m < |s| && s[m] == h
  {
    if s[0] == h {
      m := 0;
    } else {
      var m' := OccPos(s[1..], h);
      m := m' + 1;
    }
  }

  /** Taking a hit out removes exactly one copy of it. */
  lemma WithoutCount(hs: seq<Hit>, m: nat, h: Hit)
    requires m < |hs|
    ensures Occ(Without(hs, m), h) + (if hs[m] == h then 1 else 0) == Occ(hs, h)
  {
    assert hs == hs[..m] + ([hs[m]] + hs[m + 1..]);
    OccAppend(hs[..m], [hs[m]] + hs[m + 1..], h);
    OccAppend([hs[m]], hs[m + 1..], h);
    OccAppend(hs[..m], hs[m + 1..], h);
  }

  /**
   * Draining the queue: take a best hit out, `k` times or until the queue is empty.
   * The result has `min(k, |hs|)` hits.
   */
  function SelectTop(hs: seq<Hit>, k: nat): (r: seq<Hit>)
    ensures |r| == if k < |hs| then k else |hs|
    decreases k
  {
    if k == 0 || hs == [] then []
    else
      var m := ArgMax(hs);
      [hs[m]] + SelectTop(Without(hs, m), k - 1)
  }

  /** Highest score first. */
  predicate Descending(r: seq<Hit>) {
    forall i, j :: 0 <= i < j < |r| ==> r[i].score >= r[j].score
  }

  /** No hit of `rest` scores above a hit of `top`. */
  predicate Dominates(top: seq<Hit>, rest: seq<Hit>) {
    forall i, j :: 0 <= i < |top| && 0 <= j < |rest| ==> rest[j].score <= top[i].score
  }

  /** What is left in the queue after the drain of `SelectTop(hs, k)`. */
  function Rest(hs: seq<Hit>, k: nat): (r: seq<Hit>)
    decreases k
  {
    if k == 0 || hs == [] then hs else Rest(Without(hs, ArgMax(hs)), k - 1)
  }

  /** The drained hits and those left in the queue are exactly the hits put in. */
  lemma SelectSplits(hs: seq<Hit>, k: nat)
    ensures multiset(SelectTop(hs, k)) + multiset(Rest(hs, k)) == multiset(hs)
  {
    forall h
      ensures multiset(SelectTop(hs, k))[h] + multiset(Rest(hs, k))[h] == multiset(hs)[h]
    {
      SplitCount(hs, k, h);
      OccMultiset(SelectTop(hs, k), h);
      OccMultiset(Rest(hs, k), h);
      OccMultiset(hs, h);
    }
  }

  /** `SelectSplits`, one hit at a time. */
  lemma {:induction false} SplitCount(hs: seq<Hit>, k: nat, h: Hit)
    ensures Occ(SelectTop(hs, k), h) + Occ(Rest(hs, k), h) == Occ(hs, h)
    decreases k
  {
    if k > 0 && hs != [] {
      var w := DrainCount(hs, k, h);
      SplitCount(w, k - 1, h);
    } else {
      assert SelectTop(hs, k) == [] && Rest(hs, k) == hs;
    }
  }

  /** One step of the drain keeps the balance of `SplitCount`. */
  lemma DrainCount(hs: seq<Hit>, k: nat, h: Hit) returns (w: seq<Hit>)
    requires k > 0 && hs != []
    ensures Occ(SelectTop(hs, k), h) + Occ(Rest(hs, k), h) + Occ(w, h)
         == Occ(SelectTop(w, k - 1), h) + Occ(Rest(w, k - 1), h) + Occ(hs, h)
  {
    var m := ArgMax(hs);
    w := Without(hs, m);
    WithoutCount(hs, m, h);
    assert SelectTop(hs, k) == [hs[m]] + SelectTop(w, k - 1);
    assert Occ(SelectTop(hs, k), h) == (if hs[m] == h then 1 else 0) + Occ(SelectTop(w, k - 1), h);
  }

  /** Each hit left in the queue is one of the hits put in. */
  lemma {:induction false} RestFrom(hs: seq<Hit>, k: nat, i: nat) returns (j: nat)
    requires i < |Rest(hs, k)|
    ensures j < |hs| && hs[j] == Rest(hs, k)[i]
    decreases k
  {
    if k == 0 || hs == [] {
      j := i;
    } else {
      var m := ArgMax(hs);
      var w := Without(hs, m);
      var j' := RestFrom(w, k - 1, i);
      j := if j' < m then j' else j' + 1;
    }
  }

  /** No hit left in the queue beats a drained one. */
  lemma {:induction false} SelectIsTop(hs: seq<Hit>, k: nat)
    ensures Dominates(SelectTop(hs, k), Rest(hs, k))
    decreases k
  {
    if k > 0 && hs != [] {
      var m := ArgMax(hs);
      var w := Without(hs, m);
      var r, r', rest := SelectTop(hs, k), SelectTop(w, k - 1), Rest(hs, k);
      SelectIsTop(w, k - 1);
      assert r == [hs[m]] + r';
      assert rest == Rest(w, k - 1);
      forall i, j | 0 <= i < |r| && 0 <= j < |rest|
        ensures rest[j].score <= r[i].score
      {
        if i == 0 {
          var h := RestFrom(hs, k, j);
          assert hs[h].score <= hs[m].score;
          assert r[0] == hs[m];
        } else {
          assert r[i] == r'[i - 1];
          assert rest[j].score <= r'[i - 1].score;
        }
      }
    }
  }

  /** Each selected hit is one of the hits put in. */
  lemma {:induction false} SelectFrom(hs: seq<Hit>, k: nat, i: nat) returns (j: nat)
    requires i < |SelectTop(hs, k)|
    ensures j < |hs| && hs[j] == SelectTop(hs, k)[i]
    decreases k
  {
    var m := ArgMax(hs);
    var w := Without(hs, m);
    var r, r' := SelectTop(hs, k), SelectTop(w, k - 1);
    assert r == [hs[m]] + r';
    if i == 0 {
      j := m;
    } else {
      var j' := SelectFrom(w, k - 1, i - 1);
      assert r[i] == r'[i - 1] == w[j'];
      j := if j' < m then j' else j' + 1;
    }
  }

  /** The selection comes out highest score first. */
  lemma {:induction false} SelectSorted(hs: seq<Hit>, k: nat)
    ensures Descending(SelectTop(hs, k))
    decreases k
  {
    if k > 0 && hs != [] {
      var m := ArgMax(hs);
      var w := Without(hs, m);
      var r, r' := SelectTop(hs, k), SelectTop(w, k - 1);
      SelectSorted(w, k - 1);
      assert r == [hs[m]] + r';
      forall i, j | 0 <= i < j < |r|
        ensures r[i].score >= r[j].score
      {
        if i == 0 {
          var h := SelectFrom(hs, k, j);
          assert hs[h].score <= hs[m].score;
          assert r[0] == hs[m];
        } else {
          assert r[i] == r'[i - 1] && r[j] == r'[j - 1];
          assert r'[i - 1].score >= r'[j - 1].score;
        }
      }
    }
  }

  /**
   * Draining `k` times and keeping the first `n`: a hit of which some copy was not kept
   * scores no higher than any kept hit.
   */
  lemma SelectBest(hs: seq<Hit>, k: nat, n: nat, h: Hit, i: nat)
    requires i < n <= |SelectTop(hs, k)|
    requires Occ(hs, h) > Occ(SelectTop(hs, k)[..n], h)
    ensures h.score <= SelectTop(hs, k)[i].score
  {
    var top, rest := SelectTop(hs, k), Rest(hs, k);
    SplitCount(hs, k, h);
    assert top == top[..n] + top[n..];
    OccAppend(top[..n], top[n..], h);
    if Occ(rest, h) > 0 {
      var m := OccPos(rest, h);
      SelectIsTop(hs, k);
      assert rest[m].score <= top[i].score;
    } else {
      var m := OccPos(top[n..], h);
      SelectSorted(hs, k);
      assert top[n + m] == h;
    }
  }
  /** The hits of `s` in reverse order. */
  function Reversed(s: seq<Hit>): (r: seq<Hit>)
    ensures |r| == |s|
  {
    if s == [] then [] else Reversed(s[1..]) + [s[0]]
  }

  /** Position `i` of the reversed hits is position `|s| - 1 - i` of the hits. */
  lemma {:induction false} ReversedAt(s: seq<Hit>, i: nat)
    requires i < |s|
    ensures Reversed(s)[i] == s[|s| - 1 - i]
  {
    if i < |s| - 1 {
      ReversedAt(s[1..], i);
    }
  }

  /** Reversing twice gives the hits back. */
  lemma ReversedTwice(s: seq<Hit>)
    ensures Reversed(Reversed(s)) == s
  {
    var r := Reversed(s);
    forall i | 0 <= i < |s|
      ensures Reversed(r)[i] == s[i]
    {
      ReversedAt(r, i);
      ReversedAt(s, |s| - 1 - i);
    }
  }

  /**
   * What `pq_remove` hands out, `k` times or until the queue is empty: the selection of
   * `SelectTop` in the order a bounded queue that evicts its lowest hit yields it, lowest
   * score first, so that the last hit handed out is the best one.
   */
  function Drain(hs: seq<Hit>, k: nat): (res: seq<Hit>)
    ensures |res| == |SelectTop(hs, k)|
  {
    Reversed(SelectTop(hs, k))
  }

  /** The drain comes out lowest score first, and reading it backwards gives the selection. */
  lemma DrainAscending(hs: seq<Hit>, k: nat)
    ensures forall i, j :: 0 <= i < j < |Drain(hs, k)| ==> Drain(hs, k)[i].score <= Drain(hs, k)[j].score
    ensures Reversed(Drain(hs, k)) == SelectTop(hs, k)
  {
    var top, res := SelectTop(hs, k), Drain(hs, k);
    SelectSorted(hs, k);
    forall i, j | 0 <= i < j < |res|
      ensures res[i].score <= res[j].score
    {
      ReversedAt(top, i);
      ReversedAt(top, j);
    }
    ReversedTwice(top);
  }
}
