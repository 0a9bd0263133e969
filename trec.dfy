/**
 * The TREC run-file reader: growable arrays of run entries and topic ids, the per-line
 * parser with its persistent state (previous topic, deepest rank, next rank), and the
 * per-line loop of `trec_read`. Lines arrive as the byte chunks `fgets` returns; the
 * numeric conversions `strtol` and `strtod` are parameters.
 */
module Trec {
  import opened CStr

  /** `INIT_SZ`: the initial capacity of both arrays of a run. */
  const InitSize: nat := 16

  /** `num_sep`: a line has 6 columns, so 5 whitespace bytes. */
  const NumSep: nat := 5

  /** The newline byte that ends every line `fgets` delivers whole. */
  const Newline: byte := 10

  /** `struct trec_entry`: one parsed line. */
  datatype Entry = Entry(qid: int, docno: Bytes, rank: int, score: real, name: Bytes)

  const Blank := Entry(0, [], 0, 0.0, [])

  /** What `parse_line` hands back: the entry and the topic id it reports (0 if none). */
  datatype Parsed = Parsed(entry: Entry, topic: int)

  datatype Option<T> = None | Some(value: T)

  // ---------------------------------------------------------------------------
  // Columns of a line
  // ---------------------------------------------------------------------------

  /** Number of `isspace` bytes in `s`. */
  function SpaceCount(s: Bytes): nat
    decreases |s|
  {
    if s == [] then 0 else (if IsSpace(s[0]) then 1 else 0) + SpaceCount(s[1..])
  }

  /** The positions of whitespace bytes in `s`. */
  ghost function SpaceAt(s: Bytes): set<nat>
  {
    set i: nat | i < |s| && IsSpace(s[i])
  }

  /** `SpaceCount` counts exactly the whitespace positions of the line. */
  lemma {:induction false} SpaceCountIsSize(s: Bytes)
    ensures SpaceCount(s) == |SpaceAt(s)|
    decreases |s|
  {
    if s != [] {
      SpaceCountIsSize(s[1..]);
      var rest := Shift(SpaceAt(s[1..]));
      assert SpaceAt(s) == (if IsSpace(s[0]) then {0} else {}) + rest by {
        forall i | i in SpaceAt(s) && i > 0
          ensures i - 1 in SpaceAt(s[1..])
        {
          assert s[1..][i - 1] == s[i];
        }
      }
      ShiftSize(SpaceAt(s[1..]));
    }
  }

  ghost function Shift(a: set<nat>): set<nat>
  {
    set i | i in a :: i + 1
  }

  /** Shifting every element of a set by one keeps its size. */
  lemma {:induction false} ShiftSize(a: set<nat>)
    ensures |Shift(a)| == |a|
    decreases |a|
  {
    if a != {} {
      var x :| x in a;
      var b := a - {x};
      ShiftSize(b);
      var sa, sb := Shift(a), Shift(b);
      forall y | y in sa
        ensures y in sb + {x + 1}
      {
        var i :| i in a && y == i + 1;
        if i != x {
          assert i in b;
        }
      }
      assert sa == sb + {x + 1};
      assert x + 1 !in sb;
      assert a == b + {x};

    }
  }

  /**
   * The character loop of `parse_line`: count the whitespace bytes of the line, up to
   * its end.
   */
  method CountSpaces(line: Bytes) returns (c: nat)
    ensures c == SpaceCount(line)
  {
    c := 0;
    var i := 0;
    while i < |line|
      invariant 0 <= i <= |line|
      invariant c + SpaceCount(line[i..]) == SpaceCount(line)
    {
      assert line[i..][1..] == line[i + 1..];
      if IsSpace(line[i]) {
        c := c + 1;
      }
      i := i + 1;
    }
  }

  /** The delimiters `strtok` is given: tab and space. */
  predicate IsDelim(b: byte)
  {
    b == 9 || b == 32
  }

  predicate NoDelim(t: Bytes)
  {
    forall k :: 0 <= k < |t| ==> !IsDelim(t[k])
  }

  function DelimCount(s: Bytes): nat
    decreases |s|
  {
    if s == [] then 0 else (if IsDelim(s[0]) then 1 else 0) + DelimCount(s[1..])
  }

  /**
   * Successive `strtok` calls on a line: the maximal non-empty runs of non-delimiters,
   * left to right. `cur` is the run being read.
   */
  function Split(s: Bytes, cur: Bytes): seq<Bytes>
    decreases |s|
  {
    if s == [] then (if cur == [] then [] else [cur])
    else if IsDelim(s[0]) then (if cur == [] then [] else [cur]) + Split(s[1..], [])
    else Split(s[1..], cur + [s[0]])
  }

  /** The tokens `strtok` returns for a line, in order: non-empty and delimiter-free. */
  function Tokens(s: Bytes): (ts: seq<Bytes>)
    ensures forall k :: 0 <= k < |ts| ==> |ts[k]| > 0 && NoDelim(ts[k])
  {
    SplitTokens(s, []);
    Split(s, [])
  }

  /** The bytes of `s` that are not delimiters, in order. */
  function NonDelims(s: Bytes): Bytes
    decreases |s|
  {
    if s == [] then [] else (if IsDelim(s[0]) then [] else [s[0]]) + NonDelims(s[1..])
  }

  /** The tokens laid end to end. */
  function Join(ts: seq<Bytes>): Bytes
    decreases |ts|
  {
    if ts == [] then [] else ts[0] + Join(ts[1..])
  }

  lemma {:induction false} JoinAppend(a: seq<Bytes>, b: seq<Bytes>)
    ensures Join(a + b) == Join(a) + Join(b)
    decreases |a|
  {
    if a == [] {
      assert a + b == b;
    } else {
      assert (a + b)[1..] == a[1..] + b;
      JoinAppend(a[1..], b);
    }
  }

  /**
   * `strtok` loses only delimiters: the tokens, laid end to end after the run being read,
   * are that run followed by the non-delimiter bytes of the rest of the line, in order.
   */
  lemma {:induction false} SplitKeepsBytes(s: Bytes, cur: Bytes)
    ensures Join(Split(s, cur)) == cur + NonDelims(s)
    decreases |s|
  {
    var head: seq<Bytes> := if cur == [] then [] else [cur];
    assert Join(head) == cur by {
      if cur != [] {
        assert Join([cur]) == cur + Join([]);
      }
    }
    if s != [] {
      if IsDelim(s[0]) {
        SplitKeepsBytes(s[1..], []);
        JoinAppend(head, Split(s[1..], []));
      } else {
        SplitKeepsBytes(s[1..], cur + [s[0]]);
      }
    }
  }

  /** Laid end to end, the tokens of a line are its non-delimiter bytes, in order. */
  lemma TokensKeepBytes(s: Bytes)
    ensures Join(Tokens(s)) == NonDelims(s)
  {
    SplitKeepsBytes(s, []);
  }

  /** Every token is non-empty and free of delimiters. */
  lemma {:induction false} SplitTokens(s: Bytes, cur: Bytes)
    requires NoDelim(cur)
    ensures forall k :: 0 <= k < |Split(s, cur)| ==> |Split(s, cur)[k]| > 0 && NoDelim(Split(s, cur)[k])
    decreases |s|
  {
    if s != [] {
      if IsDelim(s[0]) {
        SplitTokens(s[1..], []);
      } else {
        SplitTokens(s[1..], cur + [s[0]]);
      }
    }
  }

  /** `strtok` copies no NUL into a token that the line and the run being read do not have. */
  lemma {:induction false} SplitNoNul(s: Bytes, cur: Bytes)
    ensures NoNul(s) && NoNul(cur) ==> forall k :: 0 <= k < |Split(s, cur)| ==> NoNul(Split(s, cur)[k])
    decreases |s|
  {
    if s != [] {
      if IsDelim(s[0]) {
        SplitNoNul(s[1..], []);
      } else {
        SplitNoNul(s[1..], cur + [s[0]]);
      }
    }
  }

  /** `strtok` finds at most one more token than there are delimiters. */
  lemma {:induction false} SplitBound(s: Bytes, cur: Bytes)
    requires NoDelim(cur)
    ensures |Split(s, cur)| <= DelimCount(s) + 1
    ensures cur == [] ==> |Split(s, cur)| <= DelimCount(s) + (if s == [] then 0 else 1)
    decreases |s|
  {
    if s != [] {
      if IsDelim(s[0]) {
        SplitBound(s[1..], []);
      } else {
        SplitBound(s[1..], cur + [s[0]]);
      }
    }
  }

  lemma {:induction false} DelimsAreSpaces(s: Bytes)
    ensures DelimCount(s) <= SpaceCount(s)
    decreases |s|
  {
    if s != [] {
      DelimsAreSpaces(s[1..]);
    }
  }

  /** A line with 5 whitespace bytes has at most the 6 columns `parse_line` reads. */
  lemma AtMostSixColumns(s: Bytes)
    requires SpaceCount(s) == NumSep
    ensures |Tokens(s)| <= NumSep + 1
  {
    SplitBound(s, []);
    DelimsAreSpaces(s);
  }

  /**
   * A line `parse_line` accepts: 5 whitespace bytes, and 6 columns for `strtok` to
   * find (fewer would hand a null token to `strtol`).
   */
  predicate Columns(s: Bytes)
  {
    SpaceCount(s) == NumSep && |Tokens(s)| == NumSep + 1
  }

  /** The first column read as the topic id; 0 when there is none. */
  function QidOf(s: Bytes, toInt: Bytes -> int): int
  {
    var ts := Tokens(s);
    if |ts| > 0 then toInt(ts[0]) else 0
  }

  /**
   * The entry built from an accepted line: topic from column 1, document id from
   * column 3, score from column 5, run name from column 6; the rank is the parser's
   * own count, not column 4. The document id and run name are whole columns: non-empty,
   * free of tab and space, and free of NUL when the line is.
   */
  function EntryOf(s: Bytes, rank: int, toInt: Bytes -> int, toReal: Bytes -> real): (e: Entry)
    requires Columns(s)
    ensures e.qid == QidOf(s, toInt) && e.rank == rank
    ensures |e.docno| > 0 && NoDelim(e.docno) && |e.name| > 0 && NoDelim(e.name)
    ensures NoNul(s) ==> NoNul(e.docno) && NoNul(e.name)
  {
    var ts := Tokens(s);
    SplitNoNul(s, []);
    Entry(toInt(ts[0]), ts[2], rank, toReal(ts[4]), ts[5])
  }

  /**
   * The rank column is read past and dropped: two lines whose columns agree everywhere
   * but in column 4 give the same entry at the same count.
   */
  lemma EntryIgnoresRankColumn(s: Bytes, t: Bytes, rank: int, toInt: Bytes -> int, toReal: Bytes -> real)
    requires Columns(s) && Columns(t)
    requires forall k :: 0 <= k <= NumSep && k != 3 ==> Tokens(s)[k] == Tokens(t)[k]
    ensures EntryOf(s, rank, toInt, toReal) == EntryOf(t, rank, toInt, toReal)
  {
    assert Tokens(s)[0] == Tokens(t)[0] && Tokens(s)[2] == Tokens(t)[2];
    assert Tokens(s)[4] == Tokens(t)[4] && Tokens(s)[5] == Tokens(t)[5];
  }

  // ---------------------------------------------------------------------------
  // Lines of a run file
  // ---------------------------------------------------------------------------

  /**
   * An `fgets` chunk `trec_read` keeps: `strlen` stops at the chunk's first NUL, and the
   * byte just before that point must be the newline. A chunk whose first byte is NUL
   * makes the source read `buf[-1]`; here it is rejected.
   */
  predicate Terminated(l: Bytes)
  {
    var n := StrLen(l);
    n > 0 && l[n - 1] == Newline
  }

  /**
   * The line with its newline replaced by the terminating NUL: the bytes before the
   * newline `strlen` found, none of them NUL.
   */
  function Chop(l: Bytes): (s: Bytes)
    requires Terminated(l)
    ensures |s| < |l| && s == l[..|s|] && l[|s|] == Newline && NoNul(s)
  {
    var n := StrLen(l);
    assert forall i :: 0 <= i < n - 1 ==> l[..n - 1][i] == l[..n][i];
    l[..n - 1]
  }

  /**
   * A chunk with a NUL before any newline is rejected, whatever follows the NUL:
   * `strlen` stops there and the byte before it is not the newline.
   */
  lemma NulBeforeNewline(l: Bytes, i: nat)
    requires i < |l| && l[i] == Nul && forall j :: 0 <= j < i ==> l[j] != Newline
    ensures !Terminated(l)
  {
    var n := StrLen(l);
    forall j | 0 <= j < n
      ensures l[j] != Nul
    {
      assert l[..n][j] == l[j];
    }
    assert n <= i;
  }

  predicate LineOK(l: Bytes)
  {
    Terminated(l) && Columns(Chop(l))
  }

  /** The topic id of each line of a run (0 for a line that is not accepted). */
  function Qids(lines: seq<Bytes>, toInt: Bytes -> int): (qs: seq<int>)
    ensures |qs| == |lines|
    ensures forall k :: 0 <= k < |lines| && LineOK(lines[k]) ==> qs[k] == QidOf(Chop(lines[k]), toInt)
  {
    seq(|lines|, k requires 0 <= k < |lines| =>
      if LineOK(lines[k]) then QidOf(Chop(lines[k]), toInt) else 0)
  }

  /**
   * Line k starts a topic block: its topic differs from the previous line's, or from 0
   * for the first line, since `trec_read` resets the previous topic to 0.
   */
  predicate IsStart(qs: seq<int>, k: nat)
    requires k < |qs|
  {
    qs[k] != (if k == 0 then 0 else qs[k - 1])
  }

  /** The topic ids `trec_read` records: each block start whose topic is positive. */
  function Transitions(qs: seq<int>): (ts: seq<int>)
    ensures |ts| <= |qs|
    decreases |qs|
  {
    if qs == [] then []
    else
      var k := |qs| - 1;
      Transitions(qs[..k]) + (if IsStart(qs, k) && qs[k] > 0 then [qs[k]] else [])
  }

  /** Every recorded topic id comes from a line that starts a block with that positive id. */
  lemma {:induction false} TransitionSource(qs: seq<int>, i: nat) returns (k: nat)
    requires i < |Transitions(qs)|
    ensures k < |qs| && IsStart(qs, k) && qs[k] == Transitions(qs)[i] && qs[k] > 0
    decreases |qs|
  {
    var n := |qs| - 1;
    var qs' := qs[..n];
    var last := if IsStart(qs, n) && qs[n] > 0 then [qs[n]] else [];
    assert Transitions(qs) == Transitions(qs') + last;
    if i < |Transitions(qs')| {
      k := TransitionSource(qs', i);
      assert qs'[k] == qs[k];
      if k > 0 {
        assert qs'[k - 1] == qs[k - 1];
      }
    } else {
      k := n;
    }
  }

  /** Every line that starts a block with a positive topic id has that id recorded. */
  lemma {:induction false} TransitionComplete(qs: seq<int>, k: nat)
    requires k < |qs| && IsStart(qs, k) && qs[k] > 0
    ensures qs[k] in Transitions(qs)
    decreases |qs|
  {
    var n := |qs| - 1;
    var qs' := qs[..n];
    var last := if IsStart(qs, n) && qs[n] > 0 then [qs[n]] else [];
    assert Transitions(qs) == Transitions(qs') + last;
    if k < n {
      assert qs'[k] == qs[k];
      if k > 0 {
        assert qs'[k - 1] == qs[k - 1];
      }
      TransitionComplete(qs', k);
    }
  }

  /**
   * In a run whose topic ids are all positive, recorded ids never repeat back to back,
   * and the latest one recorded is the topic of the last line.
   */
  lemma {:induction false} TransitionsNoStutter(qs: seq<int>)
    requires forall k :: 0 <= k < |qs| ==> qs[k] > 0
    ensures forall i :: 0 < i < |Transitions(qs)| ==> Transitions(qs)[i - 1] != Transitions(qs)[i]
    ensures qs != [] ==> Transitions(qs) != [] && Transitions(qs)[|Transitions(qs)| - 1] == qs[|qs| - 1]
    decreases |qs|
  {
    if qs != [] {
      var n := |qs| - 1;
      TransitionsNoStutter(qs[..n]);
      if n > 0 {
        assert qs[..n][n - 1] == qs[n - 1];
      }
    }
  }

  /** A topic id 0 between two blocks of the same topic makes that topic recorded twice in a row. */
  lemma ZeroSplitsBlock()
    ensures Transitions([1, 0, 1]) == [1, 1]
  {
    assert [1, 0, 1][..2] == [1, 0];
    assert [1, 0][..1] == [1];
    assert [1][..0] == [];
  }

  /** Topic ids that reappear later, not contiguously, are recorded again. */
  lemma RepeatsRecordedAgain()
    ensures Transitions([1, 2, 1]) == [1, 2, 1]
  {
    assert [1, 2, 1][..2] == [1, 2];
    assert [1, 2][..1] == [1];
    assert [1][..0] == [];
  }

  // ---------------------------------------------------------------------------
  // Growable arrays
  // ---------------------------------------------------------------------------

  /** `struct trec_topic`: the topic ids recorded while reading a run. */
  class TopicList {
    var ary: array<int>
    var len: nat
    var alloc: nat

    ghost predicate Valid()
      reads this, ary
    {
      ary.Length == alloc && 0 < alloc && len <= alloc
    }

    ghost function Items(): seq<int>
      reads this, ary
      requires Valid()
    {
      ary[..len]
    }

    /** The topic half of `trec_create`. */
    constructor ()
      ensures Valid() && fresh(ary)
      ensures len == 0 && alloc == InitSize
    {
      ary := new int[InitSize];
      len := 0;
      alloc := InitSize;
    }

    /** `trec_topic_alloc`: double the capacity of a full list, keeping its items. */
    method Grow()
      requires Valid()
      modifies this
      ensures Valid() && len == old(len) && Items() == old(Items())
      ensures alloc == if old(len) == old(alloc) then 2 * old(alloc) else old(alloc)
      ensures len < alloc
      ensures ary == old(ary) || fresh(ary)
    {
      if len == alloc {
        var a := new int[2 * alloc];
        forall k | 0 <= k < len {
          a[k] := ary[k];
        }
        ary := a;
        alloc := 2 * alloc;
      }
    }

    /** `r->topics.ary[r->topics.len++] = curr_topic`. */
    method Push(x: int)
      requires Valid() && len < alloc
      modifies this, ary
      ensures Valid() && ary == old(ary) && alloc == old(alloc)
      ensures Items() == old(Items()) + [x]
    {
      ary[len] := x;
      len := len + 1;
    }
  }

  /** `struct trec_run`: the entries of one run file, its topic list and its deepest rank. */
  class TrecRun {
    var ary: array<Entry>
    var len: nat
    var alloc: nat
    var maxRank: int
    const topics: TopicList

    ghost predicate Valid()
      reads this, ary, topics, topics.ary
    {
      ary.Length == alloc && 0 < alloc && len <= alloc && topics.Valid()
    }

    ghost function Entries(): seq<Entry>
      reads this, ary
      requires ary.Length == alloc && len <= alloc
    {
      ary[..len]
    }

    /** `trec_create`: empty arrays of 16 slots each and a deepest rank of 0. */
    constructor ()
      ensures Valid() && fresh(ary) && fresh(topics) && fresh(topics.ary)
      ensures len == 0 && alloc == InitSize && maxRank == 0
      ensures topics.len == 0 && topics.alloc == InitSize
    {
      ary := new Entry[InitSize](_ => Blank);
      len := 0;
      alloc := InitSize;
      maxRank := 0;
      topics := new TopicList();
    }

    /** `trec_entry_alloc`: double the capacity of a full entry array, keeping its entries. */
    method Grow()
      requires ary.Length == alloc && 0 < alloc && len <= alloc
      modifies this
      ensures alloc == if old(len) == old(alloc) then 2 * old(alloc) else old(alloc)
      ensures ary.Length == alloc && len == old(len) && len < alloc
      ensures Entries() == old(Entries())
      ensures ary == old(ary) || fresh(ary)
      ensures maxRank == old(maxRank)
    {
      if len == alloc {
        var a := new Entry[2 * alloc](_ => Blank);
        forall k | 0 <= k < len {
          a[k] := ary[k];
        }
        ary := a;
        alloc := 2 * alloc;
      }
    }

    /** `r->ary[r->len++] = entry`. */
    method Push(e: Entry)
      requires ary.Length == alloc && len < alloc
      modifies this, ary
      ensures ary.Length == alloc && ary == old(ary) && alloc == old(alloc) && len <= alloc
      ensures Entries() == old(Entries()) + [e]
      ensures maxRank == old(maxRank)
    {
      ary[len] := e;
      len := len + 1;
    }
  }

  // ---------------------------------------------------------------------------
  // The parser and the reading loop
  // ---------------------------------------------------------------------------

  /**
   * The state `parse_line` keeps between calls: the file-scope `prev_top` and
   * `max_rank`, and its own `static int rank`, the rank the next line gets.
   */
  datatype PState = PState(prevTop: int, maxRank: int, rank: int)

  /** What one line does to the parser state: the new state, the line's rank, the topic reported. */
  datatype Step = Step(st: PState, rank: int, topic: int)

  /**
   * The rank bookkeeping of `parse_line` for a line of topic `q`: a change of topic
   * first raises the deepest rank to the counter, restarts the counter at 1 and reports
   * the topic (0 otherwise); the line then takes the counter as its rank and advances it.
   */
  function Advance(st: PState, q: int): (a: Step)
    ensures a.st.prevTop == q && a.st.rank == a.rank + 1
    ensures st.maxRank <= a.st.maxRank
    ensures a.topic != 0 ==> q != st.prevTop && a.rank == 1
    ensures q == st.prevTop ==> a.st.maxRank == st.maxRank
  {
    if q != st.prevTop then
      Step(PState(q, if st.rank > st.maxRank then st.rank else st.maxRank, 2), 1, q)
    else
      Step(PState(q, st.maxRank, st.rank + 1), st.rank, 0)
  }

  /** The ranks, reported topics and final state of a sequence of lines, by their topics alone. */
  datatype Walked = Walked(ranks: seq<int>, topics: seq<int>, st: PState)

  function Walk(st0: PState, qs: seq<int>): Walked
    decreases |qs|
  {
    if qs == [] then Walked([], [], st0)
    else
      var n := |qs| - 1;
      var w := Walk(st0, qs[..n]);
      var a := Advance(w.st, qs[n]);
      Walked(w.ranks + [a.rank], w.topics + (if a.topic > 0 then [a.topic] else []), a.st)
  }

  /** `parse_line` on an accepted line. */
  function Parse(st: PState, s: Bytes, toInt: Bytes -> int, toReal: Bytes -> real): (r: (Parsed, PState))
    requires Columns(s)
    ensures r.0.entry.qid == QidOf(s, toInt) == r.1.prevTop
    ensures r.1.rank == r.0.entry.rank + 1 && st.maxRank <= r.1.maxRank
    ensures r.0.topic == 0 || r.0.topic == r.0.entry.qid
  {
    var a := Advance(st, QidOf(s, toInt));
    (Parsed(EntryOf(s, a.rank, toInt, toReal), a.topic), a.st)
  }

  /** The outcome of reading a sequence of lines: new entries, recorded topics, parser state. */
  datatype Read = Read(entries: seq<Entry>, topics: seq<int>, st: PState)

  /**
   * The lines read one after another from parser state `st0`: every line must be a
   * whole line with 6 columns; each gives one entry and, when `parse_line` reports a
   * positive topic, one recorded topic id.
   */
  function ReadLines(st0: PState, lines: seq<Bytes>, toInt: Bytes -> int, toReal: Bytes -> real): Option<Read>
    decreases |lines|
  {
    if lines == [] then Some(Read([], [], st0))
    else
      var n := |lines| - 1;
      match ReadLines(st0, lines[..n], toInt, toReal)
      case None => None
      case Some(rd) => if LineOK(lines[n]) then Some(Next(rd, lines[n], toInt, toReal)) else None
  }

  /** One accepted line added to a read: its entry, the topic it reports if positive, the new state. */
  function Next(rd: Read, l: Bytes, toInt: Bytes -> int, toReal: Bytes -> real): Read
    requires LineOK(l)
  {
    var (pr, st) := Parse(rd.st, Chop(l), toInt, toReal);
    Read(rd.entries + [pr.entry], rd.topics + (if pr.topic > 0 then [pr.topic] else []), st)
  }

  /** A read succeeds exactly when every line is a whole line with 6 columns. */
  lemma {:induction false} ReadAccepts(st0: PState, lines: seq<Bytes>, toInt: Bytes -> int, toReal: Bytes -> real)
    ensures ReadLines(st0, lines, toInt, toReal).Some? <==> forall k :: 0 <= k < |lines| ==> LineOK(lines[k])
    decreases |lines|
  {
    if lines != [] {
      var n := |lines| - 1;
      ReadAccepts(st0, lines[..n], toInt, toReal);
      assert forall k :: 0 <= k < n ==> lines[..n][k] == lines[k];
    }
  }

  /** Each entry of a successful read is built from its own line, in file order. */
  lemma {:induction false} ReadEntries(st0: PState, lines: seq<Bytes>, toInt: Bytes -> int, toReal: Bytes -> real)
    requires ReadLines(st0, lines, toInt, toReal).Some?
    ensures var es := ReadLines(st0, lines, toInt, toReal).value.entries;
      && |es| == |lines|
      && forall k :: 0 <= k < |lines| ==>
           LineOK(lines[k]) && es[k] == EntryOf(Chop(lines[k]), es[k].rank, toInt, toReal)
    decreases |lines|
  {
    if lines != [] {
      var n := |lines| - 1;
      ReadEntries(st0, lines[..n], toInt, toReal);
      assert forall k :: 0 <= k < n ==> lines[..n][k] == lines[k];
    }
  }

  /**
   * Entry k of a successful read carries the topic id `Qids` reads from line k, and a
   * document id with no NUL: `strlen` cut the line before any.
   */
  lemma ReadQids(st0: PState, lines: seq<Bytes>, toInt: Bytes -> int, toReal: Bytes -> real)
    requires ReadLines(st0, lines, toInt, toReal).Some?
    ensures var es := ReadLines(st0, lines, toInt, toReal).value.entries;
      && |es| == |lines|
      && forall k :: 0 <= k < |lines| ==> es[k].qid == Qids(lines, toInt)[k] && NoNul(es[k].docno)
  {
    ReadEntries(st0, lines, toInt, toReal);
  }

  /**
   * The ranks, recorded topics and final state of a successful read are those `Walk`
   * gives for the lines' topic ids.
   */
  lemma {:induction false} ReadWalk(st0: PState, lines: seq<Bytes>, toInt: Bytes -> int, toReal: Bytes -> real)
    requires ReadLines(st0, lines, toInt, toReal).Some?
    ensures var rd, w := ReadLines(st0, lines, toInt, toReal).value, Walk(st0, Qids(lines, toInt));
      && |rd.entries| == |lines| == |w.ranks|
      && (forall k :: 0 <= k < |lines| ==> rd.entries[k].rank == w.ranks[k])
      && rd.topics == w.topics && rd.st == w.st
    decreases |lines|
  {
    if lines != [] {
      var n := |lines| - 1;
      ReadWalk(st0, lines[..n], toInt, toReal);
      assert Qids(lines[..n], toInt) == Qids(lines, toInt)[..n];
    }
  }

  /**
   * The rank the counter stands at before line k: the starting counter for the first
   * line, one past the previous line's rank otherwise.
   */
  function RankBefore(ranks: seq<int>, k: nat, rank0: int): int
    requires k <= |ranks|
  {
    if k == 0 then rank0 else ranks[k - 1] + 1
  }

  /**
   * A walk gives one rank per line and leaves the parser on the last line's topic, with
   * its counter one past the last rank.
   */
  lemma {:induction false} WalkState(st0: PState, qs: seq<int>)
    ensures var w := Walk(st0, qs);
      && |w.ranks| == |qs|
      && w.st.prevTop == (if qs == [] then st0.prevTop else qs[|qs| - 1])
      && w.st.rank == RankBefore(w.ranks, |qs|, st0.rank)
    decreases |qs|
  {
    if qs != [] {
      WalkState(st0, qs[..|qs| - 1]);
    }
  }

  /**
   * Ranks are renumbered, ignoring the rank column: the first line of every topic block
   * gets rank 1 and every other line the rank after its predecessor's (the first line
   * of a read, when it continues the topic the parser is on, the counter left over).
   */
  lemma {:induction false} WalkRanks(st0: PState, qs: seq<int>)
    requires st0.prevTop == 0
    ensures var w := Walk(st0, qs);
      |w.ranks| == |qs| &&
      forall k :: 0 <= k < |qs| ==> w.ranks[k] == if IsStart(qs, k) then 1 else RankBefore(w.ranks, k, st0.rank)
    decreases |qs|
  {
    WalkState(st0, qs);
    if qs != [] {
      var n := |qs| - 1;
      WalkRanks(st0, qs[..n]);
      WalkState(st0, qs[..n]);
      var rs, rs' := Walk(st0, qs).ranks, Walk(st0, qs[..n]).ranks;
      assert rs[..n] == rs';
      forall k | 0 <= k < n
        ensures rs[k] == if IsStart(qs, k) then 1 else RankBefore(rs, k, st0.rank)
      {
        assert qs[..n][k] == qs[k];
        if k > 0 {
          assert qs[..n][k - 1] == qs[k - 1];
        }
      }
    }
  }

  /** The topic ids recorded by a read are the positive block starts, in order. */
  lemma {:induction false} WalkTopics(st0: PState, qs: seq<int>)
    requires st0.prevTop == 0
    ensures Walk(st0, qs).topics == Transitions(qs)
    decreases |qs|
  {
    if qs != [] {
      var n := |qs| - 1;
      WalkTopics(st0, qs[..n]);
      WalkState(st0, qs[..n]);
    }
  }

  /**
   * The deepest rank never decreases, and it is raised only at block starts: it ends as
   * the largest of its starting value and the counter values met at block starts.
   */
  lemma {:induction false} WalkMaxRank(st0: PState, qs: seq<int>)
    requires st0.prevTop == 0
    ensures var w := Walk(st0, qs);
      && |w.ranks| == |qs|
      && st0.maxRank <= w.st.maxRank
      && (forall k :: 0 <= k < |qs| && IsStart(qs, k) ==> RankBefore(w.ranks, k, st0.rank) <= w.st.maxRank)
      && (w.st.maxRank == st0.maxRank ||
          exists k :: 0 <= k < |qs| && IsStart(qs, k) && w.st.maxRank == RankBefore(w.ranks, k, st0.rank))
    decreases |qs|
  {
    WalkState(st0, qs);
    if qs != [] {
      var n := |qs| - 1;
      var qs' := qs[..n];
      WalkMaxRank(st0, qs');
      WalkState(st0, qs');
      var w, w' := Walk(st0, qs), Walk(st0, qs');
      assert w.ranks[..n] == w'.ranks;
      assert forall k :: 0 <= k <= n ==> RankBefore(w.ranks, k, st0.rank) == RankBefore(w'.ranks, k, st0.rank);
      assert forall k :: 0 <= k < n ==> IsStart(qs, k) == IsStart(qs', k);
      if w.st.maxRank != st0.maxRank && w.st.maxRank != w'.st.maxRank {
        assert IsStart(qs, n) && w.st.maxRank == RankBefore(w.ranks, n, st0.rank);
      } else if w.st.maxRank != st0.maxRank {
        var k :| 0 <= k < n && IsStart(qs', k) && w'.st.maxRank == RankBefore(w'.ranks, k, st0.rank);
        assert IsStart(qs, k) && w.st.maxRank == RankBefore(w.ranks, k, st0.rank);
      }
    }
  }

  /** The three parser statics, with their initial values. */
  class Parser {
    var prevTop: int
    var maxRank: int
    var rank: int

    ghost function State(): PState
      reads this
    {
      PState(prevTop, maxRank, rank)
    }

    constructor ()
      ensures prevTop == 0 && maxRank == 1 && rank == 1
    {
      prevTop := 0;
      maxRank := 1;
      rank := 1;
    }

    /**
     * `parse_line`: a line without exactly 5 whitespace bytes (or without 6 columns) is
     * rejected; an accepted one is parsed and moves the state on as `Parse` says.
     */
    method ParseLine(line: Bytes, toInt: Bytes -> int, toReal: Bytes -> real) returns (res: Option<Parsed>)
      modifies this
      ensures res.Some? <==> Columns(line)
      ensures res.None? ==> State() == old(State())
      ensures res.Some? ==> (res.value, State()) == Parse(old(State()), line, toInt, toReal)
    {
      var c := CountSpaces(line);
      if c != NumSep {
        return None;
      }
      var ts := Tokens(line);
      if |ts| != NumSep + 1 {
        return None;
      }
      var qid := toInt(ts[0]);
      var topic := 0;
      if prevTop != qid {
        if rank > maxRank {
          maxRank := rank;
        }
        rank := 1;
        prevTop := qid;
        topic := qid;
      }
      var e := Entry(qid, ts[2], rank, toReal(ts[4]), ts[5]);
      rank := rank + 1;
      res := Some(Parsed(e, topic));
    }
  }

  /**
   * One pass of `trec_read`'s loop: reject a chunk whose `strlen` does not end just after
   * a newline (it has none, or a NUL comes first), make room, parse
   * the line into the next entry, make room in the topic list and record the topic the
   * parser reports if it is positive.
   */
  method ReadLine(r: TrecRun, p: Parser, line: Bytes, toInt: Bytes -> int, toReal: Bytes -> real)
    returns (ok: bool)
    requires r.Valid()
    modifies r, r.ary, r.topics, r.topics.ary, p
    ensures r.Valid() && r.maxRank == old(r.maxRank)
    ensures (r.ary == old(r.ary) || fresh(r.ary)) && (r.topics.ary == old(r.topics.ary) || fresh(r.topics.ary))
    ensures ok <==> LineOK(line)
    ensures ok ==>
      Read(r.Entries(), r.topics.Items(), p.State()) ==
        Next(Read(old(r.Entries()), old(r.topics.Items()), old(p.State())), line, toInt, toReal)
  {
    var n := StrLen(line);
    if n == 0 || line[n - 1] != Newline {
      return false;
    }
    var buf := line[..n - 1];
    r.Grow();
    var res := p.ParseLine(buf, toInt, toReal);
    if res.None? {
      return false;
    }
    r.Push(res.value.entry);
    r.topics.Grow();
    if res.value.topic > 0 {
      r.topics.Push(res.value.topic);
    }
    ok := true;
  }

  /**
   * `trec_read`: reset the previous topic to 0, read the lines in order, and copy the
   * deepest rank into the run. The read fails at the first line that is not a whole
   * line with 6 columns; otherwise the run gains exactly the entries and topic ids
   * `ReadLines` gives, and the parser is left in the state it gives.
   */
  method ReadRun(r: TrecRun, p: Parser, lines: seq<Bytes>, toInt: Bytes -> int, toReal: Bytes -> real)
    returns (ok: bool)
    requires r.Valid()
    modifies r, r.ary, r.topics, r.topics.ary, p
    ensures r.Valid()
    ensures var rd := ReadLines(PState(0, old(p.maxRank), old(p.rank)), lines, toInt, toReal);
      && (ok <==> rd.Some?)
      && (ok ==>
            && r.Entries() == old(r.Entries()) + rd.value.entries
            && r.topics.Items() == old(r.topics.Items()) + rd.value.topics
            && p.State() == rd.value.st
            && r.maxRank == p.maxRank)
  {
    ghost var es0 := r.Entries();
    ghost var ts0 := r.topics.Items();
    ghost var st0 := PState(0, p.maxRank, p.rank);
    ghost var rd := Read([], [], st0);
    p.prevTop := 0;
    var i := 0;
    assert lines[..0] == [];
    while i < |lines|
      invariant 0 <= i <= |lines|
      invariant r.Valid()
      invariant (r.ary == old(r.ary) || fresh(r.ary)) && (r.topics.ary == old(r.topics.ary) || fresh(r.topics.ary))
      invariant ReadLines(st0, lines[..i], toInt, toReal) == Some(rd)
      invariant Read(r.Entries(), r.topics.Items(), p.State()) == Behind(es0, ts0, rd)
    {
      ok, rd := ReadNext(r, p, lines, i, toInt, toReal, st0, es0, ts0, rd);
      if !ok {
        return;
      }
      i := i + 1;
    }
    assert lines[..i] == lines;
    r.maxRank := p.maxRank;
    ok := true;
  }

  /**
   * `ReadLine` on line `i`, for a run that holds `es0` and `ts0` followed by the read
   * `rd` of the lines before it: on success the run holds the read of one more line,
   * and on failure the read of all the lines fails.
   */
  method ReadNext(r: TrecRun, p: Parser, lines: seq<Bytes>, i: nat, toInt: Bytes -> int, toReal: Bytes -> real,
                  ghost st0: PState, ghost es0: seq<Entry>, ghost ts0: seq<int>, ghost rd: Read)
    returns (ok: bool, ghost rd': Read)
    requires i < |lines| && ReadLines(st0, lines[..i], toInt, toReal) == Some(rd)
    requires r.Valid() && Read(r.Entries(), r.topics.Items(), p.State()) == Behind(es0, ts0, rd)
    modifies r, r.ary, r.topics, r.topics.ary, p
    ensures r.Valid()
    ensures (r.ary == old(r.ary) || fresh(r.ary)) && (r.topics.ary == old(r.topics.ary) || fresh(r.topics.ary))
    ensures !ok ==> ReadLines(st0, lines, toInt, toReal).None?
    ensures ok ==> ReadLines(st0, lines[..i + 1], toInt, toReal) == Some(rd')
    ensures ok ==> Read(r.Entries(), r.topics.Items(), p.State()) == Behind(es0, ts0, rd')
  {
    ok := ReadLine(r, p, lines[i], toInt, toReal);
    if !ok {
      ReadFailsOn(st0, lines, i, toInt, toReal);
      rd' := rd;
      return;
    }
    ReadSnoc(st0, lines, i, rd, toInt, toReal);
    NextBehind(es0, ts0, rd, lines[i], toInt, toReal);
    rd' := Next(rd, lines[i], toInt, toReal);
  }

  /** A read appended to the entries and topics a run already holds. */
  function Behind(es0: seq<Entry>, ts0: seq<int>, rd: Read): Read
  {
    Read(es0 + rd.entries, ts0 + rd.topics, rd.st)
  }

  /** Adding a line after what a run already holds is adding it to the read. */
  lemma NextBehind(es0: seq<Entry>, ts0: seq<int>, rd: Read, l: Bytes, toInt: Bytes -> int, toReal: Bytes -> real)
    requires LineOK(l)
    ensures Next(Behind(es0, ts0, rd), l, toInt, toReal) == Behind(es0, ts0, Next(rd, l, toInt, toReal))
  {
    var (pr, st) := Parse(rd.st, Chop(l), toInt, toReal);
    var t := if pr.topic > 0 then [pr.topic] else [];
    assert es0 + rd.entries + [pr.entry] == es0 + (rd.entries + [pr.entry]);
    assert ts0 + rd.topics + t == ts0 + (rd.topics + t);
  }

  /** Reading one more accepted line extends the read by what `Parse` makes of that line. */
  lemma ReadSnoc(st0: PState, lines: seq<Bytes>, i: nat, rd: Read, toInt: Bytes -> int, toReal: Bytes -> real)
    requires i < |lines| && LineOK(lines[i]) && ReadLines(st0, lines[..i], toInt, toReal) == Some(rd)
    ensures ReadLines(st0, lines[..i + 1], toInt, toReal) == Some(Next(rd, lines[i], toInt, toReal))
  {
    assert lines[..i + 1][..i] == lines[..i];
  }

  /** A read that meets a line it cannot accept fails, whatever follows that line. */
  lemma {:induction false} ReadFailsOn(st0: PState, lines: seq<Bytes>, i: nat, toInt: Bytes -> int, toReal: Bytes -> real)
    requires i < |lines| && !LineOK(lines[i])
    ensures ReadLines(st0, lines, toInt, toReal).None?
  {
    ReadAccepts(st0, lines, toInt, toReal);
  }
}
