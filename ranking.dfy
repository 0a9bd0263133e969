/**
 * What `rbc_present` reports, as a value: for each registered topic in registry order,
 * its occupied slots go into a queue bounded by the weight vector's length, the best of
 * them are drained lowest score first, and the last `depth` of those, read backwards,
 * are numbered 1, 2, 3, ... as output ranks: the best `depth` hits, best first.
 */
module Ranking {
  import opened CStr
  import opened Slots
  import opened TopK

  /** `rbc_present` stops with an error on a depth of 0 and otherwise reports ranked lines. */
  datatype Output = BadDepth | Ranked(lines: seq<Line>)

  /** One output line: topic, document id, output rank and fused score. */
  datatype Line = Line(qid: int, docno: Docno, rank: nat, score: real)

  function Min(a: nat, b: nat): (m: nat)
    ensures m <= a && m <= b && (m == a || m == b)
  {
    if a < b then a else b
  }

  /** The occupied slots in slot order, as the collection loop hands them to the queue. */
  function Hits(s: seq<Slot>): (hs: seq<Hit>)
    ensures |hs| == Occupied(s)
    decreases |s|
  {
    if s == [] then []
    else
      var x := s[|s| - 1];
      Hits(s[..|s| - 1]) + (if x.Full? then [Hit(x.docno, x.val)] else [])
  }

  /** Every occupied slot is collected: its id and score are a hit. */
  lemma {:induction false} HitsHas(s: seq<Slot>, j: nat)
    requires j < |s| && s[j].Full?
    ensures Hit(s[j].docno, s[j].val) in Hits(s)
    decreases |s|
  {
    var p := s[..|s| - 1];
    if j < |p| {
      HitsHas(p, j);
    }
  }

  /** Each collected hit is the id and score of an occupied slot. */
  lemma {:induction false} HitsFrom(s: seq<Slot>, i: nat) returns (m: nat)
    requires i < |Hits(s)|
    ensures m < |s| && s[m] == Full(Hits(s)[i].docno, Hits(s)[i].score)
    decreases |s|
  {
    var p := s[..|s| - 1];
    if i < |Hits(p)| {
      m := HitsFrom(p, i);
    } else {
      m := |s| - 1;
    }
  }

  /** The output lines for the first `n` hits of `top` (best first), numbered from 1. */
  function Numbered(q: int, top: seq<Hit>, n: nat): (r: seq<Line>)
    requires n <= |top|
    ensures |r| == n
  {
    if n == 0 then [] else Numbered(q, top, n - 1) + [Line(q, top[n - 1].docno, n, top[n - 1].score)]
  }

  /** Line `j` of `Numbered` reports hit `j` of `top` with output rank `j + 1`. */
  lemma {:induction false} NumberedLines(q: int, top: seq<Hit>, n: nat)
    requires n <= |top|
    ensures forall j :: 0 <= j < n ==> Numbered(q, top, n)[j] == Line(q, top[j].docno, j + 1, top[j].score)
  {
    if n > 0 {
      NumberedLines(q, top, n - 1);
    }
  }

  /**
   * The lines reported for topic `q` whose accumulator holds the slots `s`, with the
   * clamped depth `d` and a queue drained at most `k` times.
   */
  function TopicLines(q: int, s: seq<Slot>, d: nat, k: nat): seq<Line>
  {
    var top := SelectTop(Hits(s), k);
    Numbered(q, top, Min(d, |top|))
  }

  /** The hits whose lines are reported for slots `s`. */
  function Reported(s: seq<Slot>, d: nat, k: nat): seq<Hit>
  {
    var top := SelectTop(Hits(s), k);
    top[..Min(d, |top|)]
  }

  /**
   * Everything reported for the topics `qs`, in order, each from its slots in `t` (a
   * topic without slots in `t` reports nothing).
   */
  function Report(t: map<int, seq<Slot>>, qs: seq<int>, d: nat, k: nat): seq<Line>
    decreases |qs|
  {
    if qs == [] then []
    else
      var q := qs[|qs| - 1];
      Report(t, qs[..|qs| - 1], d, k) + (if q in t then TopicLines(q, t[q], d, k) else [])
  }

  /**
   * A topic reports min(d, k, occupied slots) lines, ranked 1, 2, 3, ... without gaps,
   * with scores that never increase down the list.
   */
  lemma TopicLinesShape(q: int, s: seq<Slot>, d: nat, k: nat)
    ensures |TopicLines(q, s, d, k)| == Min(d, Min(k, Occupied(s)))
    ensures forall j :: 0 <= j < |TopicLines(q, s, d, k)| ==>
      TopicLines(q, s, d, k)[j].qid == q && TopicLines(q, s, d, k)[j].rank == j + 1
    ensures forall i, j :: 0 <= i < j < |TopicLines(q, s, d, k)| ==>
      TopicLines(q, s, d, k)[i].score >= TopicLines(q, s, d, k)[j].score
  {
    var top := SelectTop(Hits(s), k);
    NumberedLines(q, top, Min(d, |top|));
    SelectSorted(Hits(s), k);
  }

  /** Every reported line is the id and score of an occupied slot of the topic. */
  lemma TopicLinesFromSlots(q: int, s: seq<Slot>, d: nat, k: nat, i: nat) returns (m: nat)
    requires i < |TopicLines(q, s, d, k)|
    ensures m < |s| && s[m] == Full(TopicLines(q, s, d, k)[i].docno, TopicLines(q, s, d, k)[i].score)
  {
    var hs := Hits(s);
    var top := SelectTop(hs, k);
    NumberedLines(q, top, Min(d, |top|));
    var j := SelectFrom(hs, k, i);
    m := HitsFrom(s, j);
  }

  /** The lines report the hits of `Reported`, in order. */
  lemma TopicLinesReported(q: int, s: seq<Slot>, d: nat, k: nat)
    ensures |Reported(s, d, k)| == |TopicLines(q, s, d, k)|
    ensures forall j :: 0 <= j < |TopicLines(q, s, d, k)| ==>
      Reported(s, d, k)[j] == Hit(TopicLines(q, s, d, k)[j].docno, TopicLines(q, s, d, k)[j].score)
  {
    var top := SelectTop(Hits(s), k);
    NumberedLines(q, top, Min(d, |top|));
  }

  /**
   * Line `j` is what the printing loop reads at `sz - 1 - j` in the lowest-first drain
   * `res` of `sz` hits, with output rank `j + 1`.
   */
  lemma TopicLinesFromDrain(q: int, s: seq<Slot>, d: nat, k: nat, j: nat)
    requires j < |TopicLines(q, s, d, k)|
    ensures var res := Drain(Hits(s), k);
      j < |res| &&
      TopicLines(q, s, d, k)[j] == Line(q, res[|res| - 1 - j].docno, j + 1, res[|res| - 1 - j].score)
  {
    var hs := Hits(s);
    var top, res := SelectTop(hs, k), Drain(hs, k);
    var n := Min(d, |top|);
    assert TopicLines(q, s, d, k) == Numbered(q, top, n);
    NumberedLines(q, top, n);
    assert TopicLines(q, s, d, k)[j] == Line(q, top[j].docno, j + 1, top[j].score);
    DrainAscending(hs, k);
    ReversedAt(res, j);
    assert top[j] == res[|res| - 1 - j];
  }

  /**
   * The best are reported: a collected hit `h` (every occupied slot gives one, by
   * `HitsHas`) of which some copy is not reported scores no higher than any reported line.
   */
  lemma TopicLinesBest(q: int, s: seq<Slot>, d: nat, k: nat, h: Hit, i: nat)
    requires i < |TopicLines(q, s, d, k)|
    requires Occ(Hits(s), h) > Occ(Reported(s, d, k), h)
    ensures h.score <= TopicLines(q, s, d, k)[i].score
  {
    var top := SelectTop(Hits(s), k);
    NumberedLines(q, top, Min(d, |top|));
    SelectBest(Hits(s), k, Min(d, |top|), h, i);
  }

  /** Every reported line belongs to one of the reported topics. */
  lemma {:induction false} ReportTopics(t: map<int, seq<Slot>>, qs: seq<int>, d: nat, k: nat)
    ensures forall l :: l in Report(t, qs, d, k) ==> l.qid in qs
    decreases |qs|
  {
    if qs != [] {
      var q, p := qs[|qs| - 1], qs[..|qs| - 1];
      ReportTopics(t, p, d, k);
      if q in t {
        TopicLinesShape(q, t[q], d, k);
      }
      forall l | l in Report(t, qs, d, k)
        ensures l.qid in qs
      {
        if l in Report(t, p, d, k) {
          assert l.qid in p;
        } else {
          assert l in TopicLines(q, t[q], d, k);
        }
      }
    }
  }
}
