/** The high-water mark a sealed chain leaves, and the writer that moves it ahead of the chain:
    recto/bootloader/genesis_chain.py:443-516 and recto/bootloader/state.py:2804-2926. */
module SealMark {
  import opened Wrappers
  import opened GenesisChain
  import opened ChainProperties

  /** A stored mark. In flight it carries a side before and a side after the append; either may be empty. */
  datatype Mark =
    | Plain(sealedId: string, sealSeq: int, sealHash: Hash, length: int, tip: Option<Hash>)
    | InFlight(prev: Option<Mark>, next: Option<Mark>)
    | Malformed

  /** How one comparison ends; an index out of range is not the error the two-sided comparison catches. */
  datatype Verdict = Passes | Refuses | Raises

  /** The first seal-id entry. */
  function SealIn(chain: seq<Entry>): Option<Entry> {
    if |chain| == 0 then None
    else if chain[0].op == SealId then Some(chain[0])
    else SealIn(chain[1..])
  }

  function SealMarkOf(chain: seq<Entry>): Option<Mark>
    requires Accepted(chain)
  {
    var st := Replay(chain).value;
    if st.sealedId.None? || SealIn(chain).None? then None
    else
      var seal := SealIn(chain).value;
      Some(Plain(st.sealedId.value, seal.seqNo, EntryHash(seal), st.length, Tip(st)))
  }

  predicate Sealed(chain: seq<Entry>)
    requires Accepted(chain)
  {
    Replay(chain).value.sealedId.Some?
  }

  /** Python's subscript: a negative index counts from the end, and one out of range raises. */
  function Subscript(chain: seq<Entry>, i: int): Option<Entry> {
    if 0 <= i < |chain| then Some(chain[i])
    else if -|chain| <= i < 0 then Some(chain[|chain| + i])
    else None
  }

  function CheckOne(chain: seq<Entry>, mark: Mark): Verdict
    requires Accepted(chain)
  {
    var st := Replay(chain).value;
    if !mark.Plain? || mark.sealedId == "" then Refuses
    else if |chain| == 0 || st.sealedId.None? then Refuses
    else if st.sealedId.value != mark.sealedId then Refuses
    else if st.length < mark.length then Refuses
    else
      match Subscript(chain, mark.length - 1)
      case None => Raises
      case Some(e) =>
        if Some(EntryHash(e)) != mark.tip then Refuses
        else if !(0 <= mark.sealSeq < |chain|) || EntryHash(chain[mark.sealSeq]) != mark.sealHash then Refuses
        else Passes
  }

  function CheckSide(chain: seq<Entry>, side: Option<Mark>): Verdict
    requires Accepted(chain)
  {
    if side.None? then if Sealed(chain) then Refuses else Passes
    else CheckOne(chain, side.value)
  }

  /** The plain mark the chain answers to; an error when it has fallen behind. */
  function Resolve(chain: seq<Entry>, mark: Option<Mark>): Result<Option<Mark>>
    requires Accepted(chain)
  {
    match mark
    case Some(InFlight(prev, next)) =>
      (match CheckSide(chain, next)
       case Passes => Ok(next)
       case Raises => Err
       case Refuses => if CheckSide(chain, prev) == Passes then Ok(prev) else Err)
    case _ => if CheckSide(chain, mark) == Passes then Ok(mark) else Err
  }

  /** The start-up check: the chain has not fallen behind its mark. */
  predicate Answers(chain: seq<Entry>, mark: Option<Mark>)
    requires Accepted(chain)
  {
    Resolve(chain, mark).Ok?
  }

  // ------------------------------------------------------------------ what a mark admits

  /** The chain `b` continues `a`, signatures aside. */
  ghost predicate Extends(b: seq<Entry>, a: seq<Entry>) {
    |a| <= |b| && forall i | 0 <= i < |a| :: Unsigned(a[i]) == Unsigned(b[i])
  }

  lemma {:induction false} SealInIs(chain: seq<Entry>)
    ensures SealIn(chain).None? <==> forall e <- chain :: e.op != SealId
    ensures SealIn(chain).Some? ==> SealIn(chain).value in chain && SealIn(chain).value.op == SealId
  {
    if |chain| > 0 {
      SealInIs(chain[1..]);
      assert forall e <- chain :: e == chain[0] || e in chain[1..];
    }
  }

  lemma StepSeals(st: State, e: Entry)
    requires Step(st, e).Ok?
    ensures Step(st, e).value.sealedId.Some? ==> st.sealedId.Some? || e.op == SealId
    ensures e.op == SealId ==>
              Step(st, e).value.sealedId.Some? && Step(st, e).value.sealedId.value != "" && DecodeId(e).Some?
    ensures e.op != SealId ==> Step(st, e).value.sealedId == st.sealedId
  {
    hide Authorised, SeatsReset, HasTwin, Removable, RecordsOperator, Without, Document;
  }

  /** A chain is sealed exactly when a seal-id entry is on it, and then under an id that is not empty. */
  lemma {:induction false} SealedBy(chain: seq<Entry>)
    requires Accepted(chain)
    ensures Sealed(chain) <==> SealIn(chain).Some?
    ensures Sealed(chain) ==> Replay(chain).value.sealedId.value != ""
    decreases |chain|
  {
    hide Step;
    SealInIs(chain);
    if |chain| > 0 {
      var n := |chain| - 1;
      AcceptedPrefix(chain, n);
      SealedBy(chain[..n]);
      SealInIs(chain[..n]);
      StepSeals(Replay(chain[..n]).value, chain[n]);
      assert forall e <- chain :: e in chain[..n] || e == chain[n];
      assert forall e <- chain[..n] :: e in chain;
      if SealIn(chain[..n]).Some? && chain[n].op == SealId {
        assert chain[..|chain|] == chain;
        SealedOnce(chain, n, |chain|);
      }
    }
  }

  lemma SameSeal(a: seq<Entry>, b: seq<Entry>)
    requires Accepted(a) && Accepted(b) && Sealed(a) && Extends(b, a)
    ensures Sealed(b) && Replay(b).value.sealedId == Replay(a).value.sealedId
  {
    hide Step;
    assert a[..|a|] == a && b[..|b|] == b;
    SameEntriesSameState(a, b, |a|);
    SealedOnce(b, |a|, |b|);
  }

  lemma MarkIs(a: seq<Entry>) returns (at: nat)
    requires Accepted(a) && Sealed(a)
    ensures at < |a|
    ensures SealMarkOf(a) == Some(Plain(Replay(a).value.sealedId.value, at, EntryHash(a[at]), |a|,
                                        Some(EntryHash(a[|a| - 1]))))
    ensures Replay(a).value.sealedId.value != ""
  {
    hide Step, EntryHash, SealIn;
    SealedBy(a);
    SealInIs(a);
    assert a[..|a|] == a;
    PositionAt(a, |a|);
    var seal := SealIn(a).value;
    at :| 0 <= at < |a| && a[at] == seal;
    SeqAt(a, at);
  }

  /** The mark of a sealed chain admits exactly the accepted chains that continue it. */
  lemma MarkAdmitsExtensions(a: seq<Entry>, b: seq<Entry>)
    requires Accepted(a) && Accepted(b) && Sealed(a)
    ensures SealMarkOf(a).Some?
    ensures CheckOne(b, SealMarkOf(a).value) == Passes <==> Extends(b, a)
    ensures CheckOne(b, SealMarkOf(a).value) != Raises
  {
    hide Step, SealMarkOf, Replay;
    var at := MarkIs(a);
    assert b[..|b|] == b;
    PositionAt(b, |b|);
    var mark := SealMarkOf(a).value;
    if Extends(b, a) {
      SameSeal(a, b);
      assert Unsigned(a[at]) == Unsigned(b[at]) && Unsigned(a[|a| - 1]) == Unsigned(b[|a| - 1]);
    }
    if CheckOne(b, mark) == Passes {
      HashPinsHistory(a, b, |a| - 1, |a| - 1);
    }
  }

  lemma SeqAt(chain: seq<Entry>, i: nat)
    requires Accepted(chain) && i < |chain|
    ensures chain[i].seqNo == i
  {
    hide Authorised, Effect;
    StepAt(chain, i);
    PositionAt(chain, i);
  }

  // ------------------------------------------------------------------ the writer

  /** The two files. */
  datatype Disk = Disk(chain: seq<Entry>, mark: Option<Mark>)

  /** One append of which only the first `writes` file writes happen: a fault stops the rest. The answer tells a
      committed append, or one whose last mark write only lags, from an append that raised. */
  function Appended(d: Disk, e: Entry, writes: nat): (Disk, Result<State>)
    requires Accepted(d.chain)
  {
    var candidate := d.chain + [e];
    if Replay(candidate).Err? || Resolve(d.chain, d.mark).Err? then (d, Err)
    else
      var mark := Resolve(d.chain, d.mark).value;
      var next := SealMarkOf(candidate);
      if next.None? then
        if writes < 1 then (d, Err) else (d.(chain := candidate), Replay(candidate))
      else if writes < 1 then (d, Err)
      else if writes < 2 then (d.(mark := Some(InFlight(mark, next))), Err)
      else if writes < 3 then (Disk(candidate, Some(InFlight(mark, next))), Replay(candidate))
      else (Disk(candidate, next), Replay(candidate))
  }

  /** At start a mark in flight is replaced by the side the chain matches. */
  function Settled(d: Disk, writes: nat): (Disk, Result<()>)
    requires Accepted(d.chain)
  {
    if d.mark.None? || !d.mark.value.InFlight? then (d, Ok(()))
    else if Resolve(d.chain, d.mark).Err? || writes < 1 then (d, Err)
    else (d.(mark := Resolve(d.chain, d.mark).value), Ok(()))
  }

  // ------------------------------------------------------------------ what any mark at all admits

  /** With no mark recorded exactly the chains without a seal pass: a deleted mark is noticed. */
  lemma DeletedMark(chain: seq<Entry>)
    requires Accepted(chain)
    ensures Answers(chain, None) <==> Replay(chain).value.sealedId.None?
  {
    hide Replay;
  }

  /** An unreadable mark admits nothing, and neither does one whose sides are themselves unreadable or in flight. */
  lemma MalformedMark(chain: seq<Entry>, a: Mark, b: Mark)
    requires Accepted(chain) && !a.Plain? && !b.Plain?
    ensures !Answers(chain, Some(Malformed))
    ensures !Answers(chain, Some(InFlight(Some(a), Some(b))))
  {
    hide Replay;
  }

  /** A mark in flight admits what its new side admits, or else, unless reading that side raised, what its old side
      admits; an empty side admits exactly the chains without a seal. */
  lemma InFlightExactly(chain: seq<Entry>, prev: Option<Mark>, next: Option<Mark>)
    requires Accepted(chain)
    ensures Answers(chain, Some(InFlight(prev, next))) <==>
            (next.None? && Replay(chain).value.sealedId.None?) ||
            (next.Some? && CheckOne(chain, next.value) == Passes) ||
            (!(next.Some? && CheckOne(chain, next.value) == Raises) &&
             ((prev.None? && Replay(chain).value.sealedId.None?) ||
              (prev.Some? && CheckOne(chain, prev.value) == Passes)))
    ensures Answers(chain, Some(InFlight(None, None))) <==> Replay(chain).value.sealedId.None?
  {
    hide Replay, CheckOne;
  }

  /** The entry a mark's length points at: counted from the end when the length is not positive. */
  function Marked(chain: seq<Entry>, length: int): Option<Entry> {
    if 0 < length <= |chain| then Some(chain[length - 1])
    else if 0 <= -length < |chain| then Some(chain[|chain| + length - 1])
    else None
  }

  /** A plain mark, whoever wrote it, admits exactly the chains sealed under its id, at least as long as it says, with
      its tip at that length and its seal where it says. */
  lemma PlainExactly(chain: seq<Entry>, mark: Mark)
    requires Accepted(chain) && mark.Plain?
    ensures var st := Replay(chain).value;
            CheckOne(chain, mark) == Passes <==>
            st.sealedId == Some(mark.sealedId) && mark.length <= |chain| &&
            Marked(chain, mark.length).Some? && Some(EntryHash(Marked(chain, mark.length).value)) == mark.tip &&
            0 <= mark.sealSeq < |chain| && EntryHash(chain[mark.sealSeq]) == mark.sealHash
    ensures CheckOne(chain, mark) == Raises ==> mark.length <= -|chain|
  {
    hide EntryHash, Step;
    assert chain[..|chain|] == chain;
    PositionAt(chain, |chain|);
    SealedBy(chain);
    if |chain| == 0 {
      assert chain == [];
    }
  }

  /** What a mark resolves to is settled: it is not in flight, and resolves to itself. */
  lemma SettledResolves(chain: seq<Entry>, mark: Option<Mark>)
    requires Accepted(chain)
    ensures Resolve(chain, mark).Ok? ==>
              var plain := Resolve(chain, mark).value;
              (plain.Some? ==> plain.value.Plain?) && Resolve(chain, plain) == Resolve(chain, mark)
  {
    hide Replay, Subscript;
  }

  class Store {
    var chain: seq<Entry>
    var mark: Option<Mark>

    ghost function Now(): Disk
      reads this
    {
      Disk(chain, mark)
    }

    constructor ()
      ensures Now() == Disk([], None)
    {
      chain, mark := [], None;
    }

    /** append_genesis_chain_entry, with a fault after the first `writes` file writes. */
    method Append(e: Entry, writes: nat) returns (r: Result<State>)
      requires Accepted(chain)
      modifies this
      ensures (Now(), r) == Appended(old(Now()), e, writes)
    {
      hide Resolve, SealMarkOf;
      var candidate := chain + [e];
      var state :- ReplayState(candidate);
      var plain :- Resolve(chain, mark);
      var next := SealMarkOf(candidate);
      var left := writes;
      if next.Some? {
        if left == 0 {
          return Err;
        }
        mark, left := Some(InFlight(plain, next)), left - 1;
      }
      if left == 0 {
        return Err;
      }
      chain, left := candidate, left - 1;
      if next.Some? && left > 0 {
        mark := next;
      }
      return Ok(state);
    }

    /** settle_seal_mark, with the same kind of fault. */
    method Settle(writes: nat) returns (r: Result<()>)
      requires Accepted(chain)
      modifies this
      ensures (Now(), r) == Settled(old(Now()), writes)
      ensures chain == old(chain) && Resolve(chain, mark) == Resolve(chain, old(mark))
      ensures r.Ok? ==> mark.None? || !mark.value.InFlight?
      ensures r.Ok? <==> old(mark).None? || !old(mark).value.InFlight? || (writes > 0 && Answers(chain, old(mark)))
      ensures r.Err? || writes == 0 ==> mark == old(mark)
    {
      SettledResolves(chain, mark);
      hide Resolve;
      if mark.None? || !mark.value.InFlight? {
        return Ok(());
      }
      var plain :- Resolve(chain, mark);
      if writes == 0 {
        return Err;
      }
      mark := plain;
      return Ok(());
    }

    /** genesis_chain_state: the state, or an error for a chain that does not replay or has fallen behind. */
    method Read() returns (r: Result<State>)
      ensures r == if Accepted(chain) && Answers(chain, mark) then Replay(chain) else Err
      ensures r.Ok? && mark.None? ==> r.value.sealedId.None?
    {
      hide Resolve;
      var state :- ReplayState(chain);
      DeletedMark(chain);
      if !Answers(chain, mark) {
        return Err;
      }
      return Ok(state);
    }
  }

  // ------------------------------------------------------------------ every run

  /** A side the chain answers to by construction: nothing while unsealed, or the mark of some sealed prefix. */
  ghost predicate Own(chain: seq<Entry>, side: Option<Mark>)
    requires Accepted(chain)
  {
    if side.None? then !Sealed(chain)
    else exists n :: MarkedAt(chain, n, side)
  }

  ghost predicate MarkedAt(chain: seq<Entry>, n: int, side: Option<Mark>) {
    0 <= n <= |chain| && Accepted(chain[..n]) && Sealed(chain[..n]) && side == SealMarkOf(chain[..n])
  }

  /** A side the chain has not reached. */
  ghost predicate Ahead(chain: seq<Entry>, side: Option<Mark>)
    requires Accepted(chain)
  {
    side.Some? && side.value.Plain? && (!Sealed(chain) || side.value.length > |chain|)
  }

  ghost predicate Flat(mark: Option<Mark>) {
    mark.Some? ==> mark.value.Plain?
  }

  /** What holds of the two files between any two writes. */
  ghost predicate Safe(d: Disk) {
    Accepted(d.chain) &&
    match d.mark
    case Some(InFlight(prev, next)) =>
      Flat(prev) && Flat(next) && (Own(d.chain, next) || (Ahead(d.chain, next) && Own(d.chain, prev)))
    case _ => Own(d.chain, d.mark)
  }

  lemma SideVerdict(chain: seq<Entry>, side: Option<Mark>)
    requires Accepted(chain)
    ensures Own(chain, side) ==> CheckSide(chain, side) == Passes && Flat(side)
    ensures Ahead(chain, side) ==> CheckSide(chain, side) == Refuses
  {
    hide Replay;
    assert chain[..|chain|] == chain;
    PositionAt(chain, |chain|);
    if Own(chain, side) && side.Some? {
      var n :| MarkedAt(chain, n, side);
      PrefixExtends(chain, n);
      MarkAdmitsExtensions(chain[..n], chain);
    }
  }

  lemma PrefixExtends(chain: seq<Entry>, n: nat)
    requires n <= |chain|
    ensures Extends(chain, chain[..n])
  {
  }

  /** In a safe state the check passes, and what the mark resolves to is a flat mark of the chain itself. */
  lemma SafeAnswers(d: Disk)
    requires Safe(d)
    ensures Answers(d.chain, d.mark)
    ensures Own(d.chain, Resolve(d.chain, d.mark).value) && Flat(Resolve(d.chain, d.mark).value)
    ensures Safe(d.(mark := Resolve(d.chain, d.mark).value))
  {
    hide CheckSide, Ahead, Own, MarkedAt;
    match d.mark {
      case Some(InFlight(prev, next)) =>
        SideVerdict(d.chain, next);
        SideVerdict(d.chain, prev);
      case _ =>
        SideVerdict(d.chain, d.mark);
    }
  }

  lemma NewMark(chain: seq<Entry>, e: Entry)
    requires Accepted(chain) && Accepted(chain + [e])
    ensures Sealed(chain + [e]) <==> SealMarkOf(chain + [e]).Some?
    ensures SealMarkOf(chain + [e]).Some? ==> Ahead(chain, SealMarkOf(chain + [e]))
    ensures Own(chain + [e], SealMarkOf(chain + [e]))
    ensures Sealed(chain) ==> Sealed(chain + [e])
  {
    hide Step;
    var longer := chain + [e];
    assert longer[..|longer|] == longer && longer[..|longer| - 1] == chain;
    SealedBy(longer);
    PositionAt(longer, |longer|);
    if Sealed(chain) {
      SealedOnce(longer, |chain|, |longer|);
    }
    if Sealed(longer) {
      assert MarkedAt(longer, |longer|, SealMarkOf(longer));
    }
  }

  /** What an append leaves and answers. Refused without a write for an entry that does not replay or a chain that has
      fallen behind; an answer is given exactly when the longer chain is on disk; before the chain of a sealed candidate
      is written its mark stands beside it, and after three writes alone. */
  lemma AppendTells(d: Disk, e: Entry, writes: nat)
    requires Accepted(d.chain)
    ensures var (after, r) := Appended(d, e, writes);
            var candidate := d.chain + [e];
            if !Accepted(candidate) || !Answers(d.chain, d.mark) || writes == 0 then after == d && r == Err
            else
              && after.chain == (if r.Ok? then candidate else d.chain)
              && (r.Ok? ==> r == Replay(candidate))
              && (r.Ok? <==> writes >= if Sealed(candidate) then 2 else 1)
              && after.mark ==
                 if !Sealed(candidate) then d.mark
                 else if writes >= 3 then SealMarkOf(candidate)
                 else Some(InFlight(Resolve(d.chain, d.mark).value, SealMarkOf(candidate)))
  {
    hide Resolve, Replay;
    if Accepted(d.chain + [e]) {
      NewMark(d.chain, e);
    }
  }

  lemma AppendIsSafe(d: Disk, e: Entry, writes: nat)
    requires Safe(d)
    ensures Safe(Appended(d, e, writes).0)
  {
    hide CheckSide, Ahead, Own, Resolve, SealMarkOf, Replay, Sealed;
    var candidate := d.chain + [e];
    if Accepted(candidate) {
      SafeAnswers(d);
      NewMark(d.chain, e);
      var mark := Resolve(d.chain, d.mark).value;
      var next := SealMarkOf(candidate);
      AheadIsFlat(d.chain, next);
      if next.None? {
        UnsealedGrows(d, e);
      } else {
        InFlightIsSafe(d.chain, e, mark, next);
      }
    }
  }

  lemma AheadIsFlat(chain: seq<Entry>, side: Option<Mark>)
    requires Accepted(chain)
    ensures Ahead(chain, side) ==> Flat(side)
  {
  }

  /** Both sides of the chain write: before it the chain has not reached the new side, after it that side is its own. */
  lemma InFlightIsSafe(chain: seq<Entry>, e: Entry, mark: Option<Mark>, next: Option<Mark>)
    requires Accepted(chain) && Accepted(chain + [e]) && Own(chain, mark) && Flat(mark) && Flat(next)
    requires Ahead(chain, next) && Own(chain + [e], next) && next.Some?
    ensures Safe(Disk(chain, Some(InFlight(mark, next))))
    ensures Safe(Disk(chain + [e], Some(InFlight(mark, next))))
    ensures Safe(Disk(chain + [e], next))
  {
    hide CheckSide, Ahead, Own, Replay;
  }

  lemma UnsealedGrows(d: Disk, e: Entry)
    requires Safe(d) && Accepted(d.chain + [e]) && !Sealed(d.chain + [e])
    ensures Safe(d.(chain := d.chain + [e]))
  {
    hide Replay;
    NewMark(d.chain, e);
    assert !Sealed(d.chain);
    UnsealedOwn(d.chain);
  }

  lemma UnsealedOwn(chain: seq<Entry>)
    requires Accepted(chain) && !Sealed(chain)
    ensures forall side :: Own(chain, side) <==> side.None?
  {
    hide Step, SealMarkOf;
    forall side: Option<Mark> | side.Some?
      ensures !Own(chain, side)
    {
      if Own(chain, side) {
        var n :| MarkedAt(chain, n, side);
        assert chain[..|chain|] == chain;
        SealedOnce(chain, n, |chain|);
      }
    }
  }

  datatype Event = AppendEntry(e: Entry, writes: nat) | SettleAtStart(writes: nat)

  function Next(d: Disk, event: Event): Disk
    requires Accepted(d.chain)
  {
    match event
    case AppendEntry(e, writes) => Appended(d, e, writes).0
    case SettleAtStart(writes) => Settled(d, writes).0
  }

  lemma NextIsSafe(d: Disk, event: Event)
    requires Safe(d)
    ensures Safe(Next(d, event))
    ensures d.chain <= Next(d, event).chain
  {
    hide Resolve, Replay, SealMarkOf, Safe;
    SafeAnswers(d);
    SafeAccepted(d);
    match event {
      case AppendEntry(e, writes) => AppendIsSafe(d, e, writes);
      case SettleAtStart(_) =>
    }
  }

  lemma SafeAccepted(d: Disk)
    requires Safe(d)
    ensures Accepted(d.chain)
  {
  }

  /** The states a run goes through, from empty files. */
  ghost predicate Run(disks: seq<Disk>, events: seq<Event>) {
    |disks| == |events| + 1 && disks[0] == Disk([], None) &&
    forall i | 0 <= i < |events| :: Accepted(disks[i].chain) && disks[i + 1] == Next(disks[i], events[i])
  }

  /** Whatever appends and restarts happen and wherever each is cut off: the stored chain passes the stored mark, the
      mark resolves to a flat mark the chain answers to, and the chain only ever grows. */
  lemma {:induction false} EveryRunAnswers(disks: seq<Disk>, events: seq<Event>, i: nat, j: nat)
    requires Run(disks, events) && i <= j < |disks|
    ensures Safe(disks[j]) && Answers(disks[j].chain, disks[j].mark)
    ensures Flat(Resolve(disks[j].chain, disks[j].mark).value)
    ensures disks[i].chain <= disks[j].chain
    decreases j
  {
    hide Next, Resolve, Flat, Own;
    if j == 0 {
      EmptyIsSafe();
    } else {
      EveryRunAnswers(disks, events, if i < j then i else j - 1, j - 1);
      NextIsSafe(disks[j - 1], events[j - 1]);
      assert disks[j] == Next(disks[j - 1], events[j - 1]);
    }
    SafeAnswers(disks[j]);
  }

  lemma EmptyIsSafe()
    ensures Safe(Disk([], None))
  {
  }

  /** After an append whose three writes all happened, a stored chain that was swapped for another accepted one passes
      only if it continues the whole chain: nothing committed can be rolled back. */
  lemma CommittedIsPinned(d: Disk, e: Entry, other: seq<Entry>)
    requires Safe(d) && Appended(d, e, 3).1.Ok? && Accepted(other)
    requires Sealed(Appended(d, e, 3).0.chain)
    ensures Answers(other, Appended(d, e, 3).0.mark) <==> Extends(other, Appended(d, e, 3).0.chain)
  {
    hide Replay, Extends;
    var candidate := d.chain + [e];
    NewMark(d.chain, e);
    MarkAdmitsExtensions(candidate, other);
  }

  // ------------------------------------------------------------------ what was committed stays committed

  /** The mark of some sealed chain that continues `base`. */
  ghost predicate Beyond(side: Option<Mark>, base: seq<Entry>) {
    exists c :: MarksBeyond(side, base, c)
  }

  ghost predicate MarksBeyond(side: Option<Mark>, base: seq<Entry>, c: seq<Entry>) {
    Accepted(c) && Sealed(c) && base <= c && side == SealMarkOf(c)
  }

  /** Both sides of a mark in flight, or the plain mark, lie beyond `base`. */
  ghost predicate Pinned(mark: Option<Mark>, base: seq<Entry>) {
    match mark
    case Some(InFlight(prev, next)) => Beyond(prev, base) && Beyond(next, base)
    case _ => Beyond(mark, base)
  }

  lemma ResolvedIsBeyond(chain: seq<Entry>, mark: Option<Mark>, base: seq<Entry>)
    requires Accepted(chain) && Pinned(mark, base) && Resolve(chain, mark).Ok?
    ensures Beyond(Resolve(chain, mark).value, base)
    ensures exists side :: Beyond(side, base) && CheckSide(chain, side) == Passes
  {
    hide CheckSide, Beyond;
    assert CheckSide(chain, Resolve(chain, mark).value) == Passes;
  }

  lemma BeyondAdmits(side: Option<Mark>, base: seq<Entry>, other: seq<Entry>)
    requires Beyond(side, base) && Accepted(other) && CheckSide(other, side) == Passes
    ensures Extends(other, base)
  {
    hide Replay, CheckOne;
    var c :| MarksBeyond(side, base, c);
    MarkAdmitsExtensions(c, other);
    ExtendsPrefix(other, c, base);
  }

  lemma ExtendsPrefix(other: seq<Entry>, c: seq<Entry>, base: seq<Entry>)
    requires Extends(other, c) && base <= c
    ensures Extends(other, base)
  {
  }

  lemma BeyondIsPlain(side: Option<Mark>, base: seq<Entry>)
    requires Beyond(side, base)
    ensures side.Some? && side.value.Plain?
  {
    hide Replay;
    var c :| MarksBeyond(side, base, c);
    MarkAdmitsExtensions(c, c);
  }

  lemma NextIsPinned(d: Disk, event: Event, base: seq<Entry>)
    requires Safe(d) && Pinned(d.mark, base) && base <= d.chain && Sealed(d.chain)
    ensures Pinned(Next(d, event).mark, base)
    ensures base <= Next(d, event).chain && Sealed(Next(d, event).chain)
  {
    hide Resolve, Replay, SealMarkOf, Sealed, Beyond;
    SafeAnswers(d);
    ResolvedIsBeyond(d.chain, d.mark, base);
    BeyondIsPlain(Resolve(d.chain, d.mark).value, base);
    match event {
      case AppendEntry(e, writes) =>
        if Accepted(d.chain + [e]) {
          NewMark(d.chain, e);
          NewIsBeyond(d.chain, e, base);
          BeyondIsPlain(SealMarkOf(d.chain + [e]), base);
        }
      case SettleAtStart(_) =>
    }
  }

  lemma NewIsBeyond(chain: seq<Entry>, e: Entry, base: seq<Entry>)
    requires Accepted(chain) && Accepted(chain + [e]) && Sealed(chain + [e]) && base <= chain
    ensures Beyond(SealMarkOf(chain + [e]), base)
  {
    hide Replay, SealMarkOf;
    assert MarksBeyond(SealMarkOf(chain + [e]), base, chain + [e]);
  }

  lemma {:induction false} RunStaysPinned(disks: seq<Disk>, events: seq<Event>, i: nat, j: nat)
    requires Run(disks, events) && i <= j < |disks|
    requires Accepted(disks[i].chain) && Sealed(disks[i].chain) && disks[i].mark == SealMarkOf(disks[i].chain)
    ensures Accepted(disks[j].chain) && Sealed(disks[j].chain) && disks[i].chain <= disks[j].chain
    ensures Pinned(disks[j].mark, disks[i].chain)
    decreases j
  {
    hide Next, Replay, SealMarkOf, Sealed, Safe, Pinned;
    EveryRunAnswers(disks, events, i, j);
    SafeAccepted(disks[j]);
    if i == j {
      OwnIsPinned(disks[i].chain);
    } else {
      RunStaysPinned(disks, events, i, j - 1);
      EveryRunAnswers(disks, events, i, j - 1);
      NextIsPinned(disks[j - 1], events[j - 1], disks[i].chain);
      assert disks[j] == Next(disks[j - 1], events[j - 1]);
    }
  }

  lemma OwnIsPinned(chain: seq<Entry>)
    requires Accepted(chain) && Sealed(chain)
    ensures Pinned(SealMarkOf(chain), chain)
  {
    hide Replay, SealMarkOf;
    assert MarksBeyond(SealMarkOf(chain), chain, chain);
    BeyondIsPlain(SealMarkOf(chain), chain);
  }

  /** Once a sealed chain's own mark stands on disk, no later append or restart, wherever it is cut off, lets another
      chain pass that does not continue the chain as it was then. */
  lemma NeverRolledBack(disks: seq<Disk>, events: seq<Event>, i: nat, j: nat, other: seq<Entry>)
    requires Run(disks, events) && i <= j < |disks| && Accepted(other)
    requires Accepted(disks[i].chain) && Sealed(disks[i].chain) && disks[i].mark == SealMarkOf(disks[i].chain)
    ensures Answers(other, disks[j].mark) ==> Extends(other, disks[i].chain)
  {
    hide Run, Replay, SealMarkOf, Sealed, Pinned, Extends, CheckSide, Beyond;
    if Answers(other, disks[j].mark) {
      RunStaysPinned(disks, events, i, j);
      ResolvedIsBeyond(other, disks[j].mark, disks[i].chain);
      var side :| Beyond(side, disks[i].chain) && CheckSide(other, side) == Passes;
      BeyondAdmits(side, disks[i].chain, other);
    }
  }

  /** Whatever run a chain came from: with its mark removed it is read exactly when nothing on it was ever sealed. */
  lemma RemovalIsSeen(disks: seq<Disk>, events: seq<Event>, j: nat)
    requires Run(disks, events) && j < |disks|
    ensures Accepted(disks[j].chain)
    ensures Answers(disks[j].chain, None) <==> forall e <- disks[j].chain :: e.op != SealId
  {
    hide Run, Replay, Safe, Answers;
    EveryRunAnswers(disks, events, j, j);
    SafeAccepted(disks[j]);
    DeletedMark(disks[j].chain);
    SealedBy(disks[j].chain);
    SealInIs(disks[j].chain);
  }
}
