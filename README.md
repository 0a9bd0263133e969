# RBC Combine, modelled in Dafny

RBC Combine fuses several TREC run files into one ranking by rank-biased combination.
Each entry of a run gives its document the weight `(1 - phi) * phi^(rank - 1)` for the
entry's topic. The weights of all runs are summed per topic and per document in an
accumulator table. The best documents of every topic are then reported, numbered 1, 2, 3, ...

This project models the three C files that carry that logic:

- `src/rbc_accum.c`: the per-topic accumulator. It is an open-addressing hash table
  with linear probing and a prime capacity (`get_prime`). `rbc_accum_update` is an
  insert-or-add. When the load factor is above 0.75 it first rebuilds the table
  (`rbc_accum_rehash`) with capacity `get_prime(4 * size)`. A stored id matches any id
  it is a prefix of, because the comparison is `strncmp(stored, val, strlen(stored))`.
  - Modules: `Primes` (`get_prime`), `Slots` (the slot array as a value: hash, probe
    order, one update, the linear-probing invariants), `RbcAccum` (the table as a class).
- `src/rbc.c`: the fusion driver, module `Rbc`. Its globals and the statics of
  `rbc_weight_alloc` are the fields of class `Rbc.Rbc`:
  - the weight vector, which only grows and continues the geometric series;
  - the topic registry `qids` and the topic -> accumulator table;
  - `rbc_accumulate`, which adds `weights[rank - 1]` to the entry's document in the
    entry's topic;
  - `rbc_present`: depth check and clamp, collection of the occupied slots, the drain of
    a bounded queue, and the output numbering.

  The reported lines, as values, are in module `Ranking`. The queue is in module `TopK`.
- `src/trec.c`: the run-file reader, module `Trec`:
  - arrays that grow by doubling;
  - `parse_line` with its persistent state (`prev_top`, `max_rank` and the static `rank`);
  - the per-line loop of `trec_read`.

Design points:

- **Numbers.** Weights and scores are `real`. `NEED_REHASH` is written as the integer
  test `4 * size > 3 * capacity`. No claim is made about floating-point rounding.
- **Hash.** `str_hash` is written on `bv64`. Each `char` is sign-extended before it is
  mixed in.
- **The prefix test.** Exact preservation of the id -> score mapping is stated only
  under `PrefixFreeSet`: no id involved may be a proper prefix of another. The total
  score mass is stated without that condition.
- **Rebuild capacity.** The rebuilt capacity `get_prime(4 * size)` is large enough that
  reinserting the entries never triggers a second rebuild. Bertrand's postulate
  guarantees this, but it is not proved here. It is the hypothesis `RbcAccum.Roomy`;
  `RbcAccum.Bertrand` states it for every size. Contracts that need it say so.
- **Ranks.** `parse_line` renumbers ranks from 1 in every contiguous topic block and
  ignores the rank column. `max_rank` is raised only when a block starts, to the
  counter's value, which is one past the previous block's last rank. The block that ends
  the file is therefore never counted in it. `Trec.WalkMaxRank` states exactly this.
- **Topic registry.** The reader records a topic id at every change of topic, so a
  topic that comes back later, not contiguously, is recorded again. A topic id 0
  between two blocks of one topic also makes it recorded twice (`Trec.ZeroSplitsBlock`,
  `Trec.RepeatsRecordedAgain`). The registry is therefore not de-duplicated.
  `rbc_init` copies the list as it is, and `rbc_present` reports a topic once per
  listing. How `rbc_topic_insert` treats a topic it is given twice is not visible; in
  this model (`Rbc.NewTable`) the topic keeps the accumulator it was given first.

## Model

| member | source | states |
|---|---|---|
| Primes.LowPrime | src/rbc_accum.c:37-58 | the result of `get_prime` is at least 2 |
| Primes.LowPrimeIsLargest | src/rbc_accum.c:37-58 | `get_prime(n)` is prime; for n < 2 it is 2; for n >= 2 it is at most n and no prime lies between it and n |
| Primes.LowPrimeAtLeast | src/rbc_accum.c:40-55 | every prime up to n is at most `get_prime(n)` |
| Primes.SquareRootTest | src/rbc_accum.c:44-51 | a number with no divisor from 2 up to its square root is prime |
| Primes.CoFactor | src/rbc_accum.c:44-50 | a divisor above the square root has a co-factor below it, so the inner loop may stop at the square root |
| Primes.GetPrime | src/rbc_accum.c:37-58 | the nested decrement and trial-division loops return `LowPrime(n)` |
| CStr.StrLen | src/trec.c:135-137 | `strlen` is the index of the first NUL, or the whole buffer when there is none; no byte before it is NUL |
| CStr.StrLenStop | src/rbc_accum.c:25 | a scan that stops at the first NUL or at the end stands at `strlen`, and covers the whole id when the id holds no NUL |
| Slots.ComputeHash | src/rbc_accum.c:19-30 | the loop of `str_hash` stops at the first NUL and returns `StrHash` of the bytes before it: 2081 with every byte mixed in by `Mix`, left to right, each `char` sign-extended. On an id without NUL that is `StrHash` of the whole id |
| Slots.Home | src/rbc_accum.c:13 | `HASH(val, ht)` is a slot index below the capacity |
| Slots.Dist | src/rbc_accum.c:122-124 | probe steps from one slot to another are fewer than the capacity, and zero only for the same slot |
| Slots.DistInjective | src/rbc_accum.c:108-124 | the probe visits no slot twice before it returns to its start |
| Slots.DistStep | src/rbc_accum.c:122-124 | `++key; key %= capacity` is one more probe step, and after the last step the key is back at `start_pos` |
| Slots.NextSlot | src/rbc_accum.c:122-123 | the next key is `key + 1`, or 0 after the last slot |
| Slots.Put | src/rbc_accum.c:111-120 | the step that ends the probe sets the stop slot and changes no other slot; an occupied stop slot keeps its id |
| Slots.FirstStopUnique | src/rbc_accum.c:110-124 | the slot where the probe for an id ends is unique |
| Slots.PutMass | src/rbc_accum.c:110-121 | an update raises the total score by exactly `score` and fills at most one slot, one exactly when it stopped at an unset slot |
| Slots.PutKeepsInvariants | src/rbc_accum.c:108-124 | completing a probe keeps ids distinct and probe paths unbroken, with the count and the total score updated |
| Slots.PutKeepsChain | src/rbc_accum.c:112-117 | filling the slot where the probe stopped keeps every probe path gap-free |
| Slots.PutKeepsDistinct | src/rbc_accum.c:112-120 | the update never stores an id in a second slot |
| Slots.NotStoredBeyond | src/rbc_accum.c:110-124 | when the probe stops at an unset slot, the id is stored nowhere else |
| Slots.PutHit | src/rbc_accum.c:118-120 | a probe that stops on the slot holding `val` adds `score` to its entry of the mapping, leaving the others |
| Slots.PutMiss | src/rbc_accum.c:112-117 | a probe that stops on an unset slot for an absent id adds it at `score`, leaving the others |
| Slots.PutToMap | src/rbc_accum.c:108-124 | with no proper prefixes among the ids, the update adds `score` to `val`'s entry (creating it at `score`) and leaves every other id's score |
| Slots.AllEmpty | src/rbc_accum.c:71 | a table of unset slots holds no entry and no score |
| Slots.OccupiedBound | src/rbc_accum.c:116 | the occupied count never exceeds the capacity |
| Slots.EmptySlotExists | src/rbc_accum.c:103-117 | with fewer entries than slots some slot is unset, so the probe can stop |
| Slots.OccupiedIds | src/rbc_accum.c:116 | with distinct ids, `size` is the number of distinct ids stored |
| Slots.ToMapKeys | src/rbc_accum.c:110-121 | the mapping's keys are exactly the stored ids |
| Slots.ToMapAt | src/rbc_accum.c:110-121 | each occupied slot's id maps to its slot's score |
| RbcAccum.Accum.constructor | src/rbc_accum.c:63-74 | a valid table with `capacity == get_prime(requested)`, `size == 0` and every slot unset |
| RbcAccum.Accum.NeedRehash | src/rbc_accum.c:14 | when the load factor is not above 0.75, a table with slots has fewer entries than slots |
| RbcAccum.Accum.Probe | src/rbc_accum.c:108-124 | the probe ends at the first slot, in probe order from the home slot, that is unset or passes the prefix test; when none does it ends at the start; below full load it always finds one |
| RbcAccum.Accum.Store | src/rbc_accum.c:111-120 | at the stopping slot the table becomes `Put` of the old slots, `size` grows by one exactly when the slot was unset, and the invariant holds |
| RbcAccum.Accum.Insert | src/rbc_accum.c:108-126 | the probe-and-store step: the slots become `Put` at the first stop, or nothing changes when the probe wraps without a stop; the update always lands when `size < capacity` |
| RbcAccum.Update | src/rbc_accum.c:94-127 | without a rebuild, the same table gets `Put` at the first stop. With one, a fresh table of capacity `get_prime(4 * size)`. Either way the mass grows by `score`, the slot returned holds a prefix of `val`, and with no proper prefixes the mapping gains `score` at `val` only. topic and is_set are kept |
| RbcAccum.Bump | src/rbc_accum.c:94-127 | the update as `rbc_accumulate` uses it: the caller's table becomes the argument or a fresh rebuilt table, and its slots satisfy `Added` |
| RbcAccum.ReinsertSlot | src/rbc_accum.c:144-149 | one iteration of the rebuild loop keeps the new table valid; it also keeps the new table's mass, ids and mapping equal to those of the old slots seen so far |
| RbcAccum.ReinsertKeepsPrefixFree | src/rbc_accum.c:145-147 | a reinserted id comes from the old table, so prefix-freedom carries over |
| RbcAccum.ReinsertMap | src/rbc_accum.c:144-149 | reinserting slot i extends the mirrored prefix of the old table by one slot |
| RbcAccum.Rehash | src/rbc_accum.c:132-153 | a fresh valid table with the same topic and is_set, capacity `get_prime(4 * size)` and `size` not grown. The total score is preserved, and with no proper prefixes the id -> score mapping and `size` are preserved exactly |
| RbcAccum.RebuildStart | src/rbc_accum.c:139-140 | the fresh empty table mirrors the empty prefix of the old one |
| RbcAccum.RebuildDone | src/rbc_accum.c:144-152 | after the loop the new table has an unset slot, and as many entries as the old one when it mirrors it |
| TopK.ArgMax | src/rbc.c:117-118 | the position drained next holds a highest score |
| TopK.SelectTop | src/rbc.c:114-119 | the drain yields `min(k, number of hits)` hits |
| TopK.SelectSplits | src/rbc.c:112-119 | the drained hits and those left in the queue are, as a multiset, exactly the hits inserted |
| TopK.SplitCount | src/rbc.c:112-119 | the same balance, counted one hit at a time |
| TopK.SelectIsTop | src/rbc.c:114-119 | no hit left in the queue scores above a drained hit |
| TopK.SelectSorted | src/rbc.c:114-119 | the drained hits come out highest score first |
| TopK.SelectFrom | src/rbc.c:117-118 | every drained hit is one of the hits inserted |
| TopK.RestFrom | src/rbc.c:117-118 | every hit left in the queue is one of the hits inserted |
| TopK.SelectBest | src/rbc.c:114-128 | a hit of which some copy was not kept scores no higher than any kept hit |
| TopK.ReversedAt | src/rbc.c:121 | reading a sequence backwards: position i of the reversal is position `len - 1 - i` |
| TopK.ReversedTwice | src/rbc.c:114-121 | reading the drain backwards twice gives it back |
| TopK.Drain | src/rbc.c:114-119 | the drain into `res` yields as many hits as the selection |
| TopK.DrainAscending | src/rbc.c:114-121 | `res` comes out lowest score first, and read backwards it is the selection, best first |
| Ranking.Min | src/rbc.c:99-101 | the clamp is the smaller of its two arguments |
| Ranking.Hits | src/rbc.c:108-113 | the collection loop hands the queue one hit per occupied slot |
| Ranking.HitsHas | src/rbc.c:108-113 | every occupied slot's id and score is collected as a hit |
| Ranking.HitsFrom | src/rbc.c:108-113 | each collected hit is the id and score of an occupied slot |
| Ranking.Numbered | src/rbc.c:120-128 | the numbering produces exactly n lines |
| Ranking.NumberedLines | src/rbc.c:120-128 | line j reports hit j of the best-first selection, that is `res[sz - 1 - j]`, with output rank j + 1, for the topic being reported |
| Ranking.TopicLinesShape | src/rbc.c:99-128 | a topic reports min(depth, weight_sz, occupied slots) lines, ranked 1, 2, 3, ... without gaps, all of that topic, with scores that never increase |
| Ranking.TopicLinesFromSlots | src/rbc.c:107-125 | every reported line is the id and score of an occupied slot of the topic's accumulator |
| Ranking.TopicLinesReported | src/rbc.c:114-125 | the reported lines are the best `min(depth, sz)` hits of the selection, best first |
| Ranking.TopicLinesFromDrain | src/rbc.c:114-125 | line j is `res[sz - 1 - j]` of the lowest-first drain, with output rank j + 1: the backward walk from `sz` |
| Ranking.TopicLinesBest | src/rbc.c:106-125 | a collected hit (every occupied slot gives one, by `Ranking.HitsHas`) of which some copy is not reported scores no higher than any reported line |
| Ranking.ReportTopics | src/rbc.c:103-105 | every output line belongs to a registered topic |
| Rbc.WeightStep | src/rbc.c:39-51 | the weights follow the running multiplier: the first is `1 - phi`, and each next one is the previous one times phi |
| Rbc.PowBounds | src/rbc.c:48-51 | for phi in [0, 1] the powers of phi stay in [0, 1] |
| Rbc.WeightsDecrease | src/rbc.c:48-51 | for phi in [0, 1] the weights are non-negative and never increase with depth |
| Rbc.WeightTotalIs | src/rbc.c:48-51 | the first n weights sum to `1 - phi^n` |
| Rbc.Rbc.constructor | src/rbc.c:17-21 | the initial globals: no weights, `first` set, empty registry and table |
| Rbc.Rbc.WeightAlloc | src/rbc.c:27-52 | with `len <= weight_sz` nothing changes. Otherwise `weight_sz == len` and the first growing call fixes phi. Old entries are untouched, and every entry i is `(1 - phi) * phi^i` |
| Rbc.NewTable | src/rbc.c:62-65 | exactly the listed topics get a fresh, empty, valid accumulator of capacity `get_prime(accumCapacity)`, no two sharing one |
| Rbc.OwnedUpdate | src/rbc.c:84-86 | giving a topic a fresh rebuilt accumulator keeps every topic's accumulator its own |
| Rbc.Rbc.Init | src/rbc.c:54-66 | the registry is exactly the topic list, in order. The table holds a fresh empty accumulator for exactly the listed topics. The weights are unchanged |
| Rbc.Rbc.UpdateTopic | src/rbc.c:84-86 | for topic q the slots satisfy `Added` (mass up by score; with no proper prefixes, the score added at the id); every other topic's slots and all weights are unchanged |
| Rbc.Rbc.AccumulateEntry | src/rbc.c:80-87 | an entry whose `rank - 1` (unsigned) is at least `weight_sz`, or whose topic is unregistered, changes nothing; any other adds `weights[rank - 1]` to its document in its topic only |
| Rbc.Rbc.Accumulate | src/rbc.c:76-90 | after the run every topic's slots are its old slots with the run's entries for that topic added, rank weight by rank weight, in order; the total gained is the sum of those weights, and the weights and registry are unchanged |
| Rbc.Snoc | src/rbc.c:79-89 | the ids, weight and scores of a run extended by one entry are those of the run followed by that entry |
| Rbc.TopicSnoc | src/rbc.c:79-89 | accumulating a run and then one more entry into a topic is accumulating the extended run |
| Rbc.AccumulatedSnoc | src/rbc.c:79-89 | the same for every topic of the table |
| Rbc.AccumulatedNothing | src/rbc.c:79 | an empty run changes no table |
| Rbc.EntrySkip | src/rbc.c:80-85 | an entry of uncovered rank or unregistered topic leaves every table as it is |
| Rbc.EntryAdd | src/rbc.c:82-86 | an entry whose update took its topic's slots by `Added` with the rank's weight, others unchanged, has been accumulated |
| Rbc.Collect | src/rbc.c:108-113 | the collection loop returns the occupied slots, in slot order, as hits |
| Rbc.Number | src/rbc.c:120-129 | the printing loop walks `j` down from `sz` with `c` counting down from depth. It skips the unset `res[sz]` and stops after `j == 0` or when `c < 0`. It returns the best `min(depth, sz)` hits of a lowest-first drain, best first, ranked 1, 2, 3, ... |
| Rbc.Rbc.TopicReport | src/rbc.c:104-128 | the body of the topic loop returns the lines `TopicLines` gives for that topic's slots |
| Rbc.Rbc.Present | src/rbc.c:92-133 | depth 0 is an error and nothing else is. Otherwise the depth is clamped to `weight_sz` and each registered topic, in registry order, reports its best occupied slots, numbered from 1 |
| Trec.CountSpaces | src/trec.c:88-93 | the character loop counts the whitespace bytes of the line |
| Trec.SpaceCountIsSize | src/trec.c:88-93 | that count is the number of whitespace positions |
| Trec.SplitTokens | src/trec.c:98-119 | every token `strtok` returns is non-empty and holds no tab or space |
| Trec.SplitBound | src/trec.c:98-119 | `strtok` finds at most one token more than there are delimiters |
| Trec.DelimsAreSpaces | src/trec.c:80-92 | the delimiters tab and space are among the bytes counted as whitespace |
| Trec.AtMostSixColumns | src/trec.c:81-96 | a line that passes the whitespace check has at most 6 columns |
| Trec.Tokens | src/trec.c:98-119 | the tokens `strtok` returns are non-empty and free of tab and space |
| Trec.SplitKeepsBytes | src/trec.c:98-119 | splitting loses only delimiters: the tokens laid end to end are the run being read followed by the rest of the line's non-delimiter bytes |
| Trec.TokensKeepBytes | src/trec.c:98-119 | the tokens of a line, laid end to end, are exactly its non-delimiter bytes, in order |
| Trec.SplitNoNul | src/trec.c:98-119 | the tokens of a line without NUL hold no NUL |
| Trec.EntryOf | src/trec.c:98-119 | the document id and run name are whole columns: non-empty, free of tab and space, and free of NUL when the line is |
| Trec.EntryIgnoresRankColumn | src/trec.c:98-119 | the rank column is read past and dropped: two lines whose columns agree except in column 4 give the same entry |
| Trec.Transitions | src/trec.c:101-108 | no more topic ids are recorded than there are lines |
| Trec.TransitionSource | src/trec.c:101-108 | every recorded topic id comes from a line that starts a block with that positive id |
| Trec.TransitionComplete | src/trec.c:144-147 | every line that starts a block with a positive id has that id recorded |
| Trec.TransitionsNoStutter | src/trec.c:101-108 | with positive ids, recorded ids never repeat back to back, and the last one recorded is the last line's topic |
| Trec.ZeroSplitsBlock | src/trec.c:139-147 | a line of topic 0 between two lines of topic 1 makes topic 1 recorded twice |
| Trec.RepeatsRecordedAgain | src/trec.c:101-108 | topics that come back non-contiguously are recorded again, not de-duplicated |
| Trec.TopicList.constructor | src/trec.c:55-57 | an empty topic list of 16 slots |
| Trec.TopicList.Grow | src/trec.c:32-39 | a full list doubles its capacity and any other keeps it; the items are kept and afterwards `len < alloc` |
| Trec.TopicList.Push | src/trec.c:146 | the topic id is appended |
| Trec.TrecRun.constructor | src/trec.c:44-60 | an empty run of 16 entry slots, deepest rank 0, and an empty topic list of 16 slots |
| Trec.TrecRun.Grow | src/trec.c:20-27 | a full entry array doubles its capacity and any other keeps it; the entries are kept and afterwards `len < alloc` |
| Trec.TrecRun.Push | src/trec.c:142 | the entry is appended |
| Trec.Parser.constructor | src/trec.c:14-15 | the statics start at `prev_top == 0`, `max_rank == 1` and `rank == 1` |
| Trec.Parser.ParseLine | src/trec.c:76-124 | a line is rejected, with the state unchanged, unless it has 5 whitespace bytes and 6 columns. Otherwise the entry and the reported topic are those of `Parse`, and the statics move on as it says |
| Trec.Advance | src/trec.c:101-114 | after a line the parser is on that line's topic, with the counter one past the line's rank. `max_rank` never decreases and changes only on a change of topic. A topic is reported only on a change, and that line gets rank 1 |
| Trec.Parse | src/trec.c:76-124 | the entry's topic is column 1's and becomes `prev_top`; the counter ends one past the entry's rank, `max_rank` does not decrease, and the reported topic is 0 or the entry's topic |
| Trec.Chop | src/trec.c:134-138 | the line kept is the bytes before the newline `strlen` ends on; the newline follows them directly, and none of them is NUL |
| Trec.NulBeforeNewline | src/trec.c:134-137 | a chunk with a NUL before any newline fails the newline test, since `strlen` stops at the NUL |
| Trec.ReadAccepts | src/trec.c:134-142 | a read succeeds exactly when, in every chunk, `strlen` ends just after a newline (so a NUL before the newline rejects it) and the line passes the column check |
| Trec.ReadQids | src/trec.c:134-142 | entry k of a successful read carries the topic id `Qids` reads from line k, and a document id without NUL |
| Trec.ReadEntries | src/trec.c:141-142 | one entry per line, in file order, each built from its own line |
| Trec.ReadWalk | src/trec.c:101-147 | the ranks, recorded topics and final parser state of a read are those of the walk over the lines' topic ids |
| Trec.WalkState | src/trec.c:101-114 | one rank per line; the parser ends on the last line's topic, its counter one past the last rank |
| Trec.WalkRanks | src/trec.c:101-115 | the first line of every topic block gets rank 1 and every other line the rank after its predecessor's; the rank column plays no part |
| Trec.WalkTopics | src/trec.c:101-108 | with `prev_top` reset to 0, the recorded topic ids are exactly the positive block starts, in order |
| Trec.WalkMaxRank | src/trec.c:102-104 | `max_rank` never decreases, is at least the counter at every block start, and is either its start value or the counter at some block start |
| Trec.ReadLine | src/trec.c:134-147 | a chunk whose `strlen` does not end just after a newline (no newline, or a NUL before it), or a line that fails the parser, is rejected. Otherwise the run gains that line's entry, and its topic id when the parser reports a positive one |
| Trec.ReadRun | src/trec.c:126-151 | `trec_read` resets `prev_top` to 0 and succeeds exactly when every line is accepted. It then appends the entries and topic ids `ReadLines` gives and copies `max_rank` into the run |
| Trec.ReadNext | src/trec.c:133-147 | one pass of the loop on line i: on success the run holds the read of the lines up to i, on failure the read of the whole file fails |
| Trec.NextBehind | src/trec.c:141-147 | appending a line's entry after what the run already holds is appending it to the read |
| Trec.ReadSnoc | src/trec.c:134-147 | reading one more accepted line extends the read by what the parser makes of it |
| Trec.ReadFailsOn | src/trec.c:134-137 | a line that cannot be accepted makes the whole read fail |

## Left out

- `src/main.c` is not part of this model. It is the command-line driver: options, file
  handling, and calls to `rbc_init` and `rbc_present` whose signatures differ from those
  in `src/rbc.c`.
- Memory allocation and release:
  - `malloc`, `bmalloc`, `brealloc` and `strdup` are value creation;
  - every `free` and destroy function is left out, since they only release memory.
- New slots start unset, as a zero-initialising allocator gives them; `bmalloc` is not part
  of this model.
- `rbc_topic_create`, `rbc_topic_insert` and `rbc_topic_lookup` are not part of this
  model. The topic table is a `map` from topic id to accumulator, and the accumulator
  capacity `rbc_topic_insert` requests is a parameter of `Rbc.Rbc.Init`.
  - The accumulator's `topic` and `is_set` fields are carried through rebuilds as the
    source does. Nothing here sets them, since `rbc_topic_insert` is not modelled.
- `pq_create`, `pq_insert` and `pq_remove` are not part of this model. The queue keeps
  the `weight_sz` best hits, chosen by `TopK.SelectTop`. The order among equal scores is
  whatever the selection picks, since the queue's tie-breaking is not visible.
- Rbc.Number, Ranking.NumberedLines, Ranking.TopicLinesReported: the printing loop walks
  `res` backwards from `sz`. That prints the best hits first only if `pq_remove` hands
  them out lowest score first, as a bounded queue that evicts its lowest hit does.
  `TopK.Drain` takes that order: it is the selection reversed. The model's output, best
  first, agrees with the source only under this assumption about the unseen queue.
- The print loop of `rbc_present` is reduced to its selection and numbering. Left out:
  - the read of `res[sz]`, one past the drained hits. `Rbc.Number` takes it as unset,
    which holds for a zero-initialised buffer when `sz < weight_sz`. When `sz == weight_sz`
    the read is past the end of the buffer;
  - the printed score `j + res[j].val`;
  - the `fprintf` formatting and the run id.

  The model reports the drained hits best first with ranks 1, 2, 3, ...
- `err_exit` ends the process. It is modelled as a result: `Ranking.Output.BadDepth` for a
  depth of 0, `None` from `Trec.Parser.ParseLine`, and `false` from `Trec.ReadLine` and
  `Trec.ReadRun` for a rejected line.
- Trec.Parser.ParseLine: some lines have 5 whitespace bytes but fewer than 6 tab- or
  space-separated columns. Examples are a carriage return before the newline, a doubled
  space, a leading tab, or a `\v` or `\f` among the five. The source does not reject such
  a line. Its `strtok` returns NULL, which is then passed to `strtol` or `strndup`: the
  behaviour is undefined. `prev_top`, `max_rank` and `rank` may already have changed when
  that happens. The model rejects such a line with the parser state unchanged, as it does
  a line that `err_exit` ends.
- `fgets` reading from a `FILE` is replaced by a sequence of chunks. `strtok` is modelled
  as splitting on tab and space. `strtol` and `strtod` are function parameters. The
  `BUFSIZ` limit is not modelled beyond "a chunk must end in a newline", where the chunk
  ends at its first NUL as `strlen` sees it. A chunk whose first byte is NUL makes
  `trec_read` read `buf[-1]`, which is undefined; `Trec.ReadLine` rejects it.
- Slots.StrHash and the prefix test of the probe take an id's bytes as given. An id is a
  C string, which holds no NUL, and the document ids a read produces are proved NUL-free
  (`Trec.ReadQids`). `Slots.ComputeHash` stops at a NUL, as the C loop does.
- Floating point: weights and scores are `real`; the rounding of `double` arithmetic and of
  the `float` division in `NEED_REHASH` is not modelled.
- The slot array of an accumulator is a `seq` field reassigned by its methods, not a C array
  updated in place: aliasing of the array is not captured.
- RbcAccum.Update: when a rebuild's new capacity would itself need a rebuild during
  reinsertion, the capacity and score claims are not stated. This is the `Roomy`
  hypothesis; Bertrand's postulate makes it always true, but it is not proved here.
- RbcAccum.Rehash: capacity, size and score preservation are stated under `Roomy`, as for
  `RbcAccum.Update`.
- RbcAccum.Bump: `Added` states the mass and mapping claims under `Bertrand`, the
  hypothesis for every table size.
- Rbc.Rbc.UpdateTopic: the mass and mapping claims hold under `Bertrand`, through `Added`.
- Rbc.Rbc.Accumulate: the mass and mapping claims hold under `Bertrand`, through
  `TopicAccumulated`.
- Rbc.Rbc.AccumulateEntry: the same `Bertrand` condition as `Rbc.Rbc.Accumulate`.
- RbcAccum.Accum.Insert: an update whose probe wraps around without a stop is dropped, as
  the source does. It cannot happen below full load.
- `str_hash` is computed exactly on 64 bits. Nothing is claimed about its spread.
- Rbc.Rbc.Accumulate: it requires only that the weight array has `weight_sz` entries, not
  the geometric form. The weights used are whatever the array holds, as in the source.
- Rbc.Rbc.Present: it assumes `TableValid`, i.e. every registered topic has an
  accumulator. After `Rbc.Rbc.Init` this always holds. The source would dereference a
  missing accumulator.
