/** The wrong-code limiter: several queues, maps and a heap that answer as a scan of the whole history would
    (recto/bootloader/owner_slots.py:95-225). Clock readings are parameters; they never go back. */
module CodeLimiter {
  import opened Wrappers

  const WRONG_CODE_LIMIT: nat := 5
  const WINDOW: real := 900.0
  const EXPOSURE_BUDGET: nat := 1000
  const CODE_MAX_TTL: real := 3600.0
  const SPENT_MEMORY: real := 3600.0
  const MARK_INTERVAL: real := 60.0

  type Timed = (real, string)

  // ------------------------------------------------------------------ the untrimmed history, and scans of it

  /** A code minted here: how many failures there had been, and when its stamp is forgotten. */
  datatype Mint = Mint(code: string, seen: nat, forget: real)

  datatype History = History(failures: seq<Timed>, mints: seq<Mint>, spends: seq<Timed>)

  ghost predicate Ordered(log: seq<Timed>) {
    forall i, j | 0 <= i < j < |log| :: log[i].0 <= log[j].0
  }

  ghost predicate NoneLater(log: seq<Timed>, clock: real) {
    forall i | 0 <= i < |log| :: log[i].0 <= clock
  }

  /** Nothing in the queue is due. */
  ghost predicate NoneDue(q: seq<Timed>, horizon: real) {
    forall i | 0 <= i < |q| :: q[i].0 > horizon
  }

  ghost predicate NoMarkDue(marks: seq<(real, nat)>, horizon: real) {
    forall i | 0 <= i < |marks| :: marks[i].0 > horizon
  }

  /** How many entries name the bucket. */
  function Tally(log: seq<Timed>, bucket: string): nat {
    if |log| == 0 then 0 else (if log[0].1 == bucket then 1 else 0) + Tally(log[1..], bucket)
  }

  /** How many failures of the bucket are later than a moment. */
  function FailuresAfter(log: seq<Timed>, bucket: string, after: real): nat {
    if |log| == 0 then 0
    else (if log[0].1 == bucket && log[0].0 > after then 1 else 0) + FailuresAfter(log[1..], bucket, after)
  }

  /** How many failures, of anybody, are at a moment or later. */
  function FailuresSince(log: seq<Timed>, from: real): nat {
    if |log| == 0 then 0 else (if log[0].0 >= from then 1 else 0) + FailuresSince(log[1..], from)
  }

  ghost predicate SpentAfter(spends: seq<Timed>, code: string, after: real) {
    exists i :: 0 <= i < |spends| && spends[i].1 == code && spends[i].0 > after
  }

  /** The latest mint of a code. */
  function LastMint(mints: seq<Mint>, code: string): Option<Mint> {
    if |mints| == 0 then None
    else if mints[|mints| - 1].code == code then Some(mints[|mints| - 1])
    else LastMint(mints[..|mints| - 1], code)
  }

  function LastSpend(spends: seq<Timed>, code: string): Option<real> {
    if |spends| == 0 then None
    else if spends[|spends| - 1].1 == code then Some(spends[|spends| - 1].0)
    else LastSpend(spends[..|spends| - 1], code)
  }

  // ------------------------------------------------------------------ how each structure stands for the history

  ghost predicate Suffix(q: seq<Timed>, log: seq<Timed>) {
    |q| <= |log| && q == log[|log| - |q|..]
  }

  function Count(counts: map<string, nat>, bucket: string): nat {
    if bucket in counts then counts[bucket] else 0
  }

  /** `counts` is the multiset of the buckets of `events`, with no zero kept. */
  ghost predicate CountsMatch(counts: map<string, nat>, events: seq<Timed>) {
    (forall bucket :: Count(counts, bucket) == Tally(events, bucket)) &&
    forall bucket <- counts :: counts[bucket] > 0
  }

  ghost predicate EventsStand(events: seq<Timed>, counts: map<string, nat>, failures: seq<Timed>, horizon: real) {
    Suffix(events, failures) && CountsMatch(counts, events) &&
    forall i | 0 <= i < |failures| - |events| :: failures[i].0 <= horizon
  }

  /** What an unstamped code's exposure is counted from. */
  function Base(marks: seq<(real, nat)>, total: nat): nat {
    if |marks| == 0 then total else marks[0].1
  }

  /** Where the failures a mark speaks for end. */
  function MarkEnd(marks: seq<(real, nat)>, i: nat, total: nat): nat {
    if i + 1 < |marks| then marks[i + 1].1 else total
  }

  /** Each mark is set just before a failure; the failures up to the next mark follow within a minute; and every
      failure before the first mark is more than an hour old. */
  ghost predicate MarksStand(marks: seq<(real, nat)>, failures: seq<Timed>, horizon: real) {
    (forall i | 0 <= i < |marks| :: marks[i].1 < |failures| && failures[marks[i].1].0 == marks[i].0) &&
    (forall i, j | 0 <= i < |marks| && marks[i].1 <= j < MarkEnd(marks, i, |failures|) ::
       failures[j].0 < marks[i].0 + MARK_INTERVAL) &&
    forall j | 0 <= j < Base(marks, |failures|) && j < |failures| :: failures[j].0 < horizon
  }

  /** A live stamp is the code's latest mint and has its own entry in the heap; one that is gone was due. */
  ghost predicate StampsStand(stamps: map<string, (nat, real)>, order: seq<Timed>, mints: seq<Mint>, now: real) {
    Ordered(order) &&
    (forall code <- stamps ::
       LastMint(mints, code) == Some(Mint(code, stamps[code].0, stamps[code].1)) &&
       (stamps[code].1, code) in order) &&
    forall code :: LastMint(mints, code).Some? && code !in stamps ==> LastMint(mints, code).value.forget <= now
  }

  ghost predicate SpentStand(spent: map<string, real>, order: seq<Timed>, spends: seq<Timed>, horizon: real) {
    Ordered(order) &&
    (forall code <- spent :: LastSpend(spends, code) == Some(spent[code]) && (spent[code], code) in order) &&
    forall code :: LastSpend(spends, code).Some? && code !in spent ==> LastSpend(spends, code).value <= horizon
  }

  // ------------------------------------------------------------------ small steps of the queues

  lemma {:induction false} TallyAppend(log: seq<Timed>, x: Timed, bucket: string)
    ensures Tally(log + [x], bucket) == Tally(log, bucket) + if x.1 == bucket then 1 else 0
  {
    if |log| == 0 {
      assert log + [x] == [x];
    } else {
      assert (log + [x])[1..] == log[1..] + [x];
      TallyAppend(log[1..], x, bucket);
    }
  }

  /** Taking the oldest event off the queue and off its bucket's count. */
  function Uncounted(counts: map<string, nat>, bucket: string): map<string, nat>
    requires bucket in counts && counts[bucket] > 0
  {
    if counts[bucket] > 1 then counts[bucket := counts[bucket] - 1] else counts - {bucket}
  }

  lemma OldestCounted(events: seq<Timed>, counts: map<string, nat>)
    requires |events| > 0 && CountsMatch(counts, events)
    ensures events[0].1 in counts && counts[events[0].1] > 0
    ensures CountsMatch(Uncounted(counts, events[0].1), events[1..])
  {
    var bucket := events[0].1;
    assert Count(counts, bucket) == Tally(events, bucket);
    forall b
      ensures Count(Uncounted(counts, bucket), b) == Tally(events[1..], b)
    {
      assert Count(counts, b) == Tally(events, b);
    }
  }

  lemma NewestCounted(events: seq<Timed>, counts: map<string, nat>, x: Timed)
    requires CountsMatch(counts, events)
    ensures CountsMatch(counts[x.1 := Count(counts, x.1) + 1], events + [x])
  {
    forall b
      ensures Count(counts[x.1 := Count(counts, x.1) + 1], b) == Tally(events + [x], b)
    {
      TallyAppend(events, x, b);
      assert Count(counts, b) == Tally(events, b);
    }
  }

  lemma SuffixPop(q: seq<Timed>, log: seq<Timed>)
    requires |q| > 0 && Suffix(q, log)
    ensures Suffix(q[1..], log) && log[|log| - |q|] == q[0]
  {
  }

  lemma SuffixPush(q: seq<Timed>, log: seq<Timed>, x: Timed)
    requires Suffix(q, log)
    ensures Suffix(q + [x], log + [x])
  {
  }

  /** The heap, kept as the sequence in which its entries are due. */
  function Insert(order: seq<Timed>, x: Timed): seq<Timed> {
    if |order| == 0 then [x]
    else if x.0 < order[0].0 then [x] + order
    else [order[0]] + Insert(order[1..], x)
  }

  lemma {:induction false} InsertIs(order: seq<Timed>, x: Timed)
    requires Ordered(order)
    ensures Ordered(Insert(order, x)) && |Insert(order, x)| == |order| + 1
    ensures forall y :: y in Insert(order, x) <==> y in order || y == x
  {
    if |order| > 0 && x.0 >= order[0].0 {
      InsertIs(order[1..], x);
      var rest := Insert(order[1..], x);
      assert forall y :: y in order <==> y == order[0] || y in order[1..];
      forall j | 0 <= j < |rest|
        ensures order[0].0 <= rest[j].0
      {
        assert rest[j] in rest;
        if rest[j] != x {
          var i :| 0 <= i < |order[1..]| && order[1..][i] == rest[j];
        }
      }
    }
  }

  lemma HeadOrTail(order: seq<Timed>, x: Timed)
    requires |order| > 0 && x in order && x != order[0]
    ensures x in order[1..]
  {
  }

  /** What popping the stamp that is due first does. */
  function Unstamped(stamps: map<string, (nat, real)>, due: Timed): map<string, (nat, real)> {
    if due.1 in stamps && stamps[due.1].1 == due.0 then stamps - {due.1} else stamps
  }

  lemma StampPopped(stamps: map<string, (nat, real)>, order: seq<Timed>, mints: seq<Mint>, now: real)
    requires StampsStand(stamps, order, mints, now) && |order| > 0 && order[0].0 <= now
    ensures StampsStand(Unstamped(stamps, order[0]), order[1..], mints, now)
  {
    var next := Unstamped(stamps, order[0]);
    forall code | code in next
      ensures (next[code].1, code) in order[1..]
    {
      HeadOrTail(order, (stamps[code].1, code));
    }
  }

  lemma StampsNotDue(stamps: map<string, (nat, real)>, order: seq<Timed>, mints: seq<Mint>, now: real)
    requires StampsStand(stamps, order, mints, now) && (|order| == 0 || order[0].0 > now)
    ensures NoneDue(order, now)
  {
  }

  lemma SpentNotDue(spent: map<string, real>, order: seq<Timed>, spends: seq<Timed>, horizon: real)
    requires SpentStand(spent, order, spends, horizon) && (|order| == 0 || order[0].0 > horizon)
    ensures NoneDue(order, horizon)
  {
  }

  function Unspent(spent: map<string, real>, due: Timed): map<string, real> {
    if due.1 in spent && spent[due.1] == due.0 then spent - {due.1} else spent
  }

  lemma SpentPopped(spent: map<string, real>, order: seq<Timed>, spends: seq<Timed>, horizon: real)
    requires SpentStand(spent, order, spends, horizon) && |order| > 0 && order[0].0 <= horizon
    ensures SpentStand(Unspent(spent, order[0]), order[1..], spends, horizon)
  {
    var next := Unspent(spent, order[0]);
    forall code | code in next
      ensures (next[code], code) in order[1..]
    {
      HeadOrTail(order, (spent[code], code));
    }
  }

  lemma MarkPopped(marks: seq<(real, nat)>, failures: seq<Timed>, horizon: real)
    requires MarksStand(marks, failures, horizon) && |marks| > 0 && marks[0].0 + MARK_INTERVAL <= horizon
    ensures MarksStand(marks[1..], failures, horizon)
  {
    var rest := marks[1..];
    forall i, j | 0 <= i < |rest| && rest[i].1 <= j < MarkEnd(rest, i, |failures|)
      ensures failures[j].0 < rest[i].0 + MARK_INTERVAL
    {
      assert MarkEnd(rest, i, |failures|) == MarkEnd(marks, i + 1, |failures|);
      assert rest[i] == marks[i + 1];
    }
    forall j | 0 <= j < Base(rest, |failures|) && j < |failures|
      ensures failures[j].0 < horizon
    {
      if j >= marks[0].1 {
        assert j < MarkEnd(marks, 0, |failures|);
      }
    }
  }

  /** At most one mark a minute. */
  ghost predicate MarksRise(marks: seq<(real, nat)>) {
    forall i, j | 0 <= i < j < |marks| :: marks[i].0 + 60.0 * (j - i) as real <= marks[j].0
  }

  /** A failure is recorded under the mark before it, or under a mark of its own. */
  function Marked(marks: seq<(real, nat)>, now: real, total: nat): seq<(real, nat)> {
    if |marks| == 0 || now - marks[|marks| - 1].0 >= MARK_INTERVAL then marks + [(now, total)] else marks
  }

  lemma MarkPushed(marks: seq<(real, nat)>, failures: seq<Timed>, horizon: real, x: Timed)
    requires MarksStand(marks, failures, horizon)
    ensures MarksStand(Marked(marks, x.0, |failures|), failures + [x], horizon)
  {
    var next, log := Marked(marks, x.0, |failures|), failures + [x];
    forall i, j | 0 <= i < |next| && next[i].1 <= j < MarkEnd(next, i, |log|)
      ensures log[j].0 < next[i].0 + MARK_INTERVAL
    {
      if i < |marks| && j < |failures| {
        assert j < MarkEnd(marks, i, |failures|);
      }
    }
  }

  // ------------------------------------------------------------------ time passing

  lemma EventsLater(events: seq<Timed>, counts: map<string, nat>, failures: seq<Timed>,
                    horizon: real, later: real)
    requires EventsStand(events, counts, failures, horizon) && horizon <= later
    ensures EventsStand(events, counts, failures, later)
  {
  }

  lemma MarksLater(marks: seq<(real, nat)>, failures: seq<Timed>, horizon: real, later: real)
    requires MarksStand(marks, failures, horizon) && horizon <= later
    ensures MarksStand(marks, failures, later)
  {
  }

  lemma StampsLater(stamps: map<string, (nat, real)>, order: seq<Timed>, mints: seq<Mint>,
                    now: real, later: real)
    requires StampsStand(stamps, order, mints, now) && now <= later
    ensures StampsStand(stamps, order, mints, later)
  {
  }

  lemma SpentLater(spent: map<string, real>, order: seq<Timed>, spends: seq<Timed>, horizon: real,
                   later: real)
    requires SpentStand(spent, order, spends, horizon) && horizon <= later
    ensures SpentStand(spent, order, spends, later)
  {
  }

  lemma ClockLater(log: seq<Timed>, clock: real, later: real)
    requires NoneLater(log, clock) && clock <= later
    ensures NoneLater(log, later)
  {
  }

  // ------------------------------------------------------------------ the answers, read off the history

  lemma {:induction false} FailuresAfterAll(log: seq<Timed>, bucket: string, after: real)
    requires forall i | 0 <= i < |log| :: log[i].0 > after
    ensures FailuresAfter(log, bucket, after) == Tally(log, bucket)
  {
    if |log| > 0 {
      FailuresAfterAll(log[1..], bucket, after);
    }
  }

  lemma {:induction false} FailuresAfterSplit(log: seq<Timed>, k: nat, bucket: string, after: real)
    requires k <= |log| && (forall i | 0 <= i < k :: log[i].0 <= after)
    ensures FailuresAfter(log, bucket, after) == FailuresAfter(log[k..], bucket, after)
  {
    if k > 0 {
      FailuresAfterSplit(log[1..], k - 1, bucket, after);
      assert log[1..][k - 1..] == log[k..];
    }
  }

  /** What is left in the window queue counts exactly the window. */
  lemma WindowCounted(events: seq<Timed>, counts: map<string, nat>, failures: seq<Timed>,
                      horizon: real, bucket: string)
    requires EventsStand(events, counts, failures, horizon)
    requires NoneDue(events, horizon)
    ensures Count(counts, bucket) == FailuresAfter(failures, bucket, horizon)
  {
    var k := |failures| - |events|;
    FailuresAfterSplit(failures, k, bucket, horizon);
    FailuresAfterAll(failures[k..], bucket, horizon);
    assert Count(counts, bucket) == Tally(events, bucket);
  }

  lemma {:induction false} SinceAtMost(log: seq<Timed>, k: nat, from: real)
    requires k <= |log| && (forall i | 0 <= i < k :: log[i].0 < from)
    ensures FailuresSince(log, from) <= |log| - k
  {
    if k > 0 {
      SinceAtMost(log[1..], k - 1, from);
    } else if |log| > 0 {
      SinceAtMost(log[1..], 0, from);
    }
  }

  lemma {:induction false} SinceAtLeast(log: seq<Timed>, k: nat, from: real)
    requires k <= |log| && (forall i | k <= i < |log| :: log[i].0 >= from)
    ensures FailuresSince(log, from) >= |log| - k
  {
    if k > 0 {
      SinceAtLeast(log[1..], k - 1, from);
    } else if |log| > 0 {
      SinceAtLeast(log[1..], 0, from);
    }
  }

  /** The sampled bound: from the oldest mark on, every failure since any moment of the last hour is counted, and no
      failure older than an hour and a minute is. */
  lemma SampledBound(marks: seq<(real, nat)>, failures: seq<Timed>, now: real, minted: real)
    requires MarksStand(marks, failures, now - CODE_MAX_TTL) && Ordered(failures)
    requires NoMarkDue(marks, now - CODE_MAX_TTL - MARK_INTERVAL)
    requires minted >= now - CODE_MAX_TTL
    ensures Base(marks, |failures|) <= |failures|
    ensures FailuresSince(failures, minted) <= |failures| - Base(marks, |failures|)
            <= FailuresSince(failures, now - CODE_MAX_TTL - MARK_INTERVAL)
  {
    var base := Base(marks, |failures|);
    SinceAtMost(failures, base, minted);
    forall i | base <= i < |failures|
      ensures failures[i].0 >= now - CODE_MAX_TTL - MARK_INTERVAL
    {
      assert failures[base].0 == marks[0].0;
      assert base == i || failures[base].0 <= failures[i].0;
    }
    SinceAtLeast(failures, base, now - CODE_MAX_TTL - MARK_INTERVAL);
  }

  lemma {:induction false} LastSpendIs(spends: seq<Timed>, code: string, after: real)
    requires Ordered(spends)
    ensures SpentAfter(spends, code, after) <==>
            LastSpend(spends, code).Some? && LastSpend(spends, code).value > after
  {
    if |spends| > 0 {
      var n := |spends| - 1;
      LastSpendIs(spends[..n], code, after);
      if SpentAfter(spends, code, after) {
        var i :| 0 <= i < |spends| && spends[i].1 == code && spends[i].0 > after;
        if spends[n].1 != code {
          assert spends[..n][i] == spends[i];
          assert SpentAfter(spends[..n], code, after);
        } else {
          assert i == n || spends[i].0 <= spends[n].0;
        }
      }
      if spends[n].1 == code && spends[n].0 > after {
        assert SpentAfter(spends, code, after);
      }
      if SpentAfter(spends[..n], code, after) {
        var i :| 0 <= i < n && spends[..n][i].1 == code && spends[..n][i].0 > after;
        assert spends[i].1 == code;
      }
    }
  }

  /** An hour and a minute holds at most 61 marks. */
  lemma MarksFew(marks: seq<(real, nat)>, failures: seq<Timed>, now: real)
    requires MarksRise(marks) && NoMarkDue(marks, now - CODE_MAX_TTL - MARK_INTERVAL)
    requires MarksStand(marks, failures, now - CODE_MAX_TTL) && NoneLater(failures, now)
    ensures |marks| <= 61
  {
    var n := |marks| - 1;
    if n > 0 {
      assert marks[0].0 + 60.0 * (n - 0) as real <= marks[n].0;
      assert failures[marks[n].1].0 == marks[n].0;
    }
  }

  // ------------------------------------------------------------------ the limiter

  class CodeAttemptLimiter {
    const bucket: string -> string
    var events: seq<Timed>
    var counts: map<string, nat>
    var total: nat
    var marks: seq<(real, nat)>
    var stamps: map<string, (nat, real)>
    var stampOrder: seq<Timed>
    var spent: map<string, real>
    var spentOrder: seq<Timed>

    /** Everything that was ever recorded, the last clock reading, and the reading the last trim was for. */
    ghost var history: History
    ghost var clock: real
    ghost var trimmed: real
    ghost var pushes: nat
    ghost var pops: nat

    ghost predicate Valid()
      reads this
    {
      trimmed <= clock && total == |history.failures| &&
      Ordered(history.failures) && Ordered(history.spends) &&
      NoneLater(history.failures, clock) && NoneLater(history.spends, clock) && NoneLater(spentOrder, clock) &&
      EventsStand(events, counts, history.failures, trimmed - WINDOW) &&
      MarksStand(marks, history.failures, trimmed - CODE_MAX_TTL) &&
      MarksRise(marks) &&
      StampsStand(stamps, stampOrder, history.mints, trimmed) &&
      SpentStand(spent, spentOrder, history.spends, trimmed - SPENT_MEMORY) &&
      pops + |events| + |marks| + |stampOrder| + |spentOrder| == pushes &&
      pushes <= 2 * |history.failures| + |history.mints| + |history.spends|
    }

    /** Nothing due is left in any queue. */
    ghost predicate Trimmed(now: real)
      reads this
    {
      trimmed == now && NoneDue(events, now - WINDOW) && NoMarkDue(marks, now - CODE_MAX_TTL - MARK_INTERVAL) &&
      NoneDue(stampOrder, now) && NoneDue(spentOrder, now - SPENT_MEMORY)
    }

    constructor (bucket: string -> string, ghost start: real)
      ensures Valid() && this.bucket == bucket && history == History([], [], []) && clock == start && pushes == 0
    {
      this.bucket := bucket;
      events, counts, total, marks := [], map[], 0, [];
      stamps, stampOrder, spent, spentOrder := map[], [], map[], [];
      history, clock, trimmed, pushes, pops := History([], [], []), start, start, 0, 0;
    }

    method TrimEvents(horizon: real)
      requires EventsStand(events, counts, history.failures, horizon) && Ordered(history.failures)
      modifies this`events, this`counts, this`pops
      ensures EventsStand(events, counts, history.failures, horizon)
      ensures NoneDue(events, horizon)
      ensures pops + |events| == old(pops) + |old(events)|
    {
      while |events| > 0 && events[0].0 <= horizon
        invariant EventsStand(events, counts, history.failures, horizon)
        invariant pops + |events| == old(pops) + |old(events)|
        decreases |events|
      {
        OldestCounted(events, counts);
        SuffixPop(events, history.failures);
        var bucket := events[0].1;
        events, pops := events[1..], pops + 1;
        var left := counts[bucket] - 1;
        if left > 0 {
          counts := counts[bucket := left];
        } else {
          counts := counts - {bucket};
        }
      }
    }

    method TrimMarks(now: real)
      requires MarksStand(marks, history.failures, now - CODE_MAX_TTL) && MarksRise(marks)
      modifies this`marks, this`pops
      ensures MarksStand(marks, history.failures, now - CODE_MAX_TTL) && MarksRise(marks)
      ensures NoMarkDue(marks, now - CODE_MAX_TTL - MARK_INTERVAL)
      ensures pops + |marks| == old(pops) + |old(marks)|
    {
      while |marks| > 0 && marks[0].0 <= now - CODE_MAX_TTL - MARK_INTERVAL
        invariant MarksStand(marks, history.failures, now - CODE_MAX_TTL) && MarksRise(marks)
        invariant pops + |marks| == old(pops) + |old(marks)|
        decreases |marks|
      {
        MarkPopped(marks, history.failures, now - CODE_MAX_TTL);
        marks, pops := marks[1..], pops + 1;
      }
    }

    method TrimStamps(now: real)
      requires StampsStand(stamps, stampOrder, history.mints, now)
      modifies this`stamps, this`stampOrder, this`pops
      ensures StampsStand(stamps, stampOrder, history.mints, now)
      ensures NoneDue(stampOrder, now)
      ensures pops + |stampOrder| == old(pops) + |old(stampOrder)|
    {
      hide StampsStand;
      while |stampOrder| > 0 && stampOrder[0].0 <= now
        invariant StampsStand(stamps, stampOrder, history.mints, now)
        invariant pops + |stampOrder| == old(pops) + |old(stampOrder)|
        decreases |stampOrder|
      {
        StampPopped(stamps, stampOrder, history.mints, now);
        var (t, code) := stampOrder[0];
        stampOrder, pops := stampOrder[1..], pops + 1;
        if code in stamps && stamps[code].1 == t {
          stamps := stamps - {code};
        }
      }
      StampsNotDue(stamps, stampOrder, history.mints, now);
    }

    method TrimSpent(horizon: real)
      requires SpentStand(spent, spentOrder, history.spends, horizon)
      modifies this`spent, this`spentOrder, this`pops
      ensures SpentStand(spent, spentOrder, history.spends, horizon)
      ensures NoneDue(spentOrder, horizon)
      ensures NoneLater(old(spentOrder), clock) ==> NoneLater(spentOrder, clock)
      ensures pops + |spentOrder| == old(pops) + |old(spentOrder)|
    {
      hide SpentStand;
      while |spentOrder| > 0 && spentOrder[0].0 <= horizon
        invariant SpentStand(spent, spentOrder, history.spends, horizon)
        invariant pops + |spentOrder| == old(pops) + |old(spentOrder)|
        invariant NoneLater(old(spentOrder), clock) ==> NoneLater(spentOrder, clock)
        decreases |spentOrder|
      {
        SpentPopped(spent, spentOrder, history.spends, horizon);
        var (t, code) := spentOrder[0];
        spentOrder, pops := spentOrder[1..], pops + 1;
        if code in spent && spent[code] == t {
          spent := spent - {code};
        }
      }
      SpentNotDue(spent, spentOrder, history.spends, horizon);
    }

    method Trim(now: real)
      requires Valid() && clock <= now
      modifies this`events, this`counts, this`marks, this`stamps, this`stampOrder, this`spent, this`spentOrder,
               this`pops, this`clock, this`trimmed
      ensures Valid() && Trimmed(now) && clock == now
      ensures |marks| <= 61
      ensures pops <= 2 * |history.failures| + |history.mints| + |history.spends|
    {
      hide EventsStand, MarksStand, StampsStand, SpentStand, Ordered, MarksRise, NoneLater, NoneDue, NoMarkDue, Suffix,
           CountsMatch, Base, MarkEnd, LastMint, LastSpend, Tally;
      EventsLater(events, counts, history.failures, trimmed - WINDOW, now - WINDOW);
      MarksLater(marks, history.failures, trimmed - CODE_MAX_TTL, now - CODE_MAX_TTL);
      StampsLater(stamps, stampOrder, history.mints, trimmed, now);
      SpentLater(spent, spentOrder, history.spends, trimmed - SPENT_MEMORY, now - SPENT_MEMORY);
      ClockLater(history.failures, clock, now);
      ClockLater(history.spends, clock, now);
      ClockLater(spentOrder, clock, now);
      clock, trimmed := now, now;
      TrimEvents(now - WINDOW);
      TrimMarks(now);
      TrimStamps(now);
      TrimSpent(now - SPENT_MEMORY);
      MarksFew(marks, history.failures, now);
    }

    /** Whether the client has had its wrong codes: exactly a scan of every failure there ever was. */
    method Blocked(client: Option<string>, now: real) returns (b: bool)
      requires Valid() && clock <= now
      modifies this
      ensures Valid() && history == old(history) && clock <= now && pushes == old(pushes)
      ensures b <==> client.Some? &&
                     FailuresAfter(history.failures, bucket(client.value), now - 900.0) >= 5
    {
      hide MarksStand, StampsStand, SpentStand, Ordered, MarksRise, NoneLater, NoMarkDue;
      if client.None? {
        return false;
      }
      Trim(now);
      WindowCounted(events, counts, history.failures, now - WINDOW, bucket(client.value));
      return Count(counts, bucket(client.value)) >= WRONG_CODE_LIMIT;
    }

    method Mark(now: real)
      modifies this`marks, this`pushes
      ensures marks == Marked(old(marks), now, total)
      ensures pushes - |marks| == old(pushes) - |old(marks)| && pushes <= old(pushes) + 1
    {
      if |marks| == 0 || now - marks[|marks| - 1].0 >= MARK_INTERVAL {
        marks, pushes := marks + [(now, total)], pushes + 1;
      }
    }

    method RecordFailure(client: Option<string>, now: real)
      requires Valid() && clock <= now
      modifies this
      ensures Valid() && clock <= now
      ensures history == old(history).(failures := old(history).failures +
                                                   if client.Some? then [(now, bucket(client.value))] else [])
      ensures pushes <= old(pushes) + 2
    {
      hide EventsStand, MarksStand, StampsStand, SpentStand, Ordered, MarksRise, NoneLater, NoneDue, NoMarkDue;
      if client.None? {
        assert history.failures + [] == history.failures;
        return;
      }
      Trim(now);
      CountFailure((now, bucket(client.value)));
    }

    /** The counting half of record_failure, once the queues are trimmed. */
    method CountFailure(x: Timed)
      requires Valid() && trimmed == clock == x.0
      modifies this`marks, this`pushes, this`total, this`events, this`counts, this`history
      ensures Valid() && pushes <= old(pushes) + 2
      ensures history == old(history).(failures := old(history).failures + [x])
    {
      hide EventsStand, MarksStand, StampsStand, SpentStand, Ordered, MarksRise, NoneLater, Marked, Count;
      FailurePushed(events, counts, marks, history.failures, x.0, x);
      Mark(x.0);
      total := total + 1;
      counts := counts[x.1 := Count(counts, x.1) + 1];
      events, pushes := events + [x], pushes + 1;
      history := history.(failures := history.failures + [x]);
    }

    method Stamp(code: string, expiresAt: Option<real>, now: real)
      requires Valid() && clock <= now
      modifies this
      ensures Valid() && clock <= now && pushes == old(pushes) + 1
      ensures var due := if expiresAt.Some? then expiresAt.value else now + 3600.0;
              var forget := (if due >= now then due else now) + 60.0;
              history == old(history).(mints := old(history).mints +
                                                [Mint(code, |old(history).failures|, forget)])
    {
      hide EventsStand, MarksStand, StampsStand, SpentStand, Ordered, MarksRise, NoneLater, NoneDue, NoMarkDue;
      Trim(now);
      var forget := Later(if expiresAt.Some? then expiresAt.value else now + CODE_MAX_TTL, now) + 60.0;
      StampPushed(stamps, stampOrder, history.mints, now, Mint(code, total, forget));
      stamps := stamps[code := (total, forget)];
      stampOrder, pushes := Insert(stampOrder, (forget, code)), pushes + 1;
      history := history.(mints := history.mints + [Mint(code, total, forget)]);
    }

    /** A code whose latest mint here is still remembered is exposed by exactly the failures since that mint. Any other
        is exposed if the failures since any moment of the last hour would do it, and never by failures that are more
        than an hour and a minute old. */
    method Exposed(code: string, now: real) returns (b: bool)
      requires Valid() && clock <= now
      modifies this
      ensures Valid() && history == old(history) && clock <= now && pushes == old(pushes)
      ensures var mint := LastMint(history.mints, code);
              if mint.Some? && mint.value.forget > now
              then b <==> |history.failures| - mint.value.seen >= 1000
              else (forall minted | minted >= now - 3600.0 ::
                      FailuresSince(history.failures, minted) >= 1000 ==> b) &&
                   (b ==> FailuresSince(history.failures, now - 3660.0) >= 1000)
    {
      hide EventsStand, MarksStand, SpentStand, Ordered, MarksRise, NoneLater, NoMarkDue;
      Trim(now);
      StampLive(stamps, stampOrder, history.mints, now, code);
      forall minted | minted >= now - CODE_MAX_TTL
        ensures FailuresSince(history.failures, minted) <= total - Base(marks, total)
                <= FailuresSince(history.failures, now - CODE_MAX_TTL - MARK_INTERVAL)
      {
        SampledBound(marks, history.failures, now, minted);
      }
      SampledBound(marks, history.failures, now, now - CODE_MAX_TTL);
      var base := if code in stamps then stamps[code].0 else Base(marks, total);
      return total - base >= EXPOSURE_BUDGET;
    }

    method RecordSpent(code: string, now: real)
      requires Valid() && clock <= now
      modifies this
      ensures Valid() && clock <= now && pushes == old(pushes) + 1
      ensures history == old(history).(spends := old(history).spends + [(now, code)])
    {
      hide EventsStand, MarksStand, StampsStand, SpentStand, Ordered, MarksRise, NoneLater;
      SpentPushed(spent, spentOrder, history.spends, trimmed - SPENT_MEMORY, clock, now, code);
      ClockLater(history.failures, clock, now);
      spent := spent[code := now];
      spentOrder, pushes := spentOrder + [(now, code)], pushes + 1;
      history, clock := history.(spends := history.spends + [(now, code)]), now;
    }

    /** Whether the code was spent in the last hour: exactly a scan of every spend there ever was. */
    method WasSpent(code: string, now: real) returns (b: bool)
      requires Valid() && clock <= now
      modifies this
      ensures Valid() && history == old(history) && clock <= now && pushes == old(pushes)
      ensures b <==> SpentAfter(history.spends, code, now - 3600.0)
    {
      hide EventsStand, MarksStand, StampsStand, Ordered, MarksRise, NoneLater, NoMarkDue, SpentAfter;
      Trim(now);
      LastSpendIs(history.spends, code, now - SPENT_MEMORY);
      return code in spent;
    }
  }

  function Later(a: real, b: real): real {
    if a >= b then a else b
  }

  lemma OrderedAppend(log: seq<Timed>, x: Timed)
    requires Ordered(log) && NoneLater(log, x.0)
    ensures Ordered(log + [x]) && NoneLater(log + [x], x.0)
  {
  }

  lemma FailurePushed(events: seq<Timed>, counts: map<string, nat>, marks: seq<(real, nat)>,
                      failures: seq<Timed>, now: real, x: Timed)
    requires EventsStand(events, counts, failures, now - WINDOW) && MarksStand(marks, failures, now - CODE_MAX_TTL)
    requires MarksRise(marks) && Ordered(failures) && NoneLater(failures, now) && x.0 == now
    ensures EventsStand(events + [x], counts[x.1 := Count(counts, x.1) + 1], failures + [x], now - WINDOW)
    ensures MarksStand(Marked(marks, now, |failures|), failures + [x], now - CODE_MAX_TTL)
    ensures MarksRise(Marked(marks, now, |failures|))
    ensures Ordered(failures + [x]) && NoneLater(failures + [x], now)
  {
    OrderedAppend(failures, x);
    NewestCounted(events, counts, x);
    SuffixPush(events, failures, x);
    MarkPushed(marks, failures, now - CODE_MAX_TTL, x);
    forall i | 0 <= i < |marks|
      ensures marks[i].0 <= now
    {
      assert failures[marks[i].1].0 == marks[i].0;
    }
  }

  lemma StampPushed(stamps: map<string, (nat, real)>, order: seq<Timed>, mints: seq<Mint>,
                    now: real, m: Mint)
    requires StampsStand(stamps, order, mints, now)
    ensures StampsStand(stamps[m.code := (m.seen, m.forget)], Insert(order, (m.forget, m.code)), mints + [m], now)
    ensures |Insert(order, (m.forget, m.code))| == |order| + 1
  {
    InsertIs(order, (m.forget, m.code));
    assert (mints + [m])[..|mints|] == mints;
    forall code
      ensures LastMint(mints + [m], code) == if code == m.code then Some(m) else LastMint(mints, code)
    {
    }
  }

  /** Once nothing due is left, a stamp is there exactly when the code's latest mint is not forgotten yet. */
  lemma StampLive(stamps: map<string, (nat, real)>, order: seq<Timed>, mints: seq<Mint>, now: real,
                  code: string)
    requires StampsStand(stamps, order, mints, now) && NoneDue(order, now)
    ensures code in stamps <==> LastMint(mints, code).Some? && LastMint(mints, code).value.forget > now
    ensures code in stamps ==> stamps[code].0 == LastMint(mints, code).value.seen
  {
    if code in stamps {
      var i :| 0 <= i < |order| && order[i] == (stamps[code].1, code);
      assert order[i].0 > now;
    }
  }

  lemma SpentPushed(spent: map<string, real>, order: seq<Timed>, spends: seq<Timed>, horizon: real,
                    clock: real, now: real, code: string)
    requires SpentStand(spent, order, spends, horizon) && Ordered(spends)
    requires NoneLater(order, clock) && NoneLater(spends, clock) && clock <= now
    ensures SpentStand(spent[code := now], order + [(now, code)], spends + [(now, code)], horizon)
    ensures NoneLater(order + [(now, code)], now) && NoneLater(spends + [(now, code)], now)
    ensures Ordered(spends + [(now, code)])
  {
    OrderedAppend(order, (now, code));
    OrderedAppend(spends, (now, code));
    assert (spends + [(now, code)])[..|spends|] == spends;
    forall c
      ensures LastSpend(spends + [(now, code)], c) == if c == code then Some(now) else LastSpend(spends, c)
    {
    }
  }
}
