/** What an accepted genesis chain guarantees: tamper evidence, who signed each entry, and repair. */
module ChainProperties {
  import opened Wrappers
  import opened Digits
  import opened GenesisChain
  import Quorum

  predicate Accepted(chain: seq<Entry>) {
    Replay(chain).Ok?
  }

  /** The state of an accepted chain after its first `n` entries. */
  function After(chain: seq<Entry>, n: nat): State
    requires Accepted(chain) && n <= |chain|
  {
    AcceptedPrefix(chain, n);
    Replay(chain[..n]).value
  }

  lemma AcceptedPrefix(chain: seq<Entry>, n: nat)
    requires Accepted(chain) && n <= |chain|
    ensures Accepted(chain[..n])
  {
    if Replay(chain[..n]).Err? {
      ReplayPrefix(chain, n);
    }
  }

  lemma StepAt(chain: seq<Entry>, n: nat)
    requires Accepted(chain) && n < |chain|
    ensures Step(After(chain, n), chain[n]) == Ok(After(chain, n + 1))
  {
    AcceptedPrefix(chain, n + 1);
    assert chain[..n + 1][..n] == chain[..n];
  }

  lemma {:induction false} PositionAt(chain: seq<Entry>, n: nat)
    requires Accepted(chain) && n <= |chain|
    ensures After(chain, n).length == n
    ensures After(chain, n).previous == if n == 0 then None else Some(chain[n - 1])
  {
    hide Authorised, Effect;
    if n > 0 {
      PositionAt(chain, n - 1);
      StepAt(chain, n - 1);
      EffectKeepsLength(After(chain, n - 1), chain[n - 1]);
    }
  }

  // ------------------------------------------------------------------ tamper evidence

  function Unsigned(e: Entry): Entry {
    e.(signatures := [])
  }

  function UnsignedState(st: State): State {
    st.(roster := Bare(st.roster),
        previous := if st.previous.None? then None else Some(Unsigned(st.previous.value)))
  }

  /** The roster without its signatures. */
  function Bare(roster: map<string, Entry>): map<string, Entry> {
    map kind | kind in roster :: Unsigned(roster[kind])
  }

  /** What an entry does never depends on its signatures, nor on those of the members before it. */
  lemma EffectIgnoresSignatures(st: State, e: Entry)
    requires Effect(st, e).Ok?
    ensures Effect(UnsignedState(st), Unsigned(e)) == Ok(UnsignedState(Effect(st, e).value))
  {
    hide HasTwin, Removable;
    var bare := Unsigned(e);
    if e.op == Remove {
      RemovableBare(st, e);
      BareRemoved(st.roster, e.kind);
    } else if e.op == Add || e.op == Reset {
      HasTwinBare(st.roster, e.kind, e.pubkey);
      BareSeated(st.roster, e);
    }
  }

  lemma BareRemoved(roster: map<string, Entry>, kind: string)
    ensures Bare(roster - {kind}) == Bare(roster) - {kind}
  {
  }

  lemma BareSeated(roster: map<string, Entry>, e: Entry)
    ensures Bare(roster[e.kind := e]) == Bare(roster)[e.kind := Unsigned(e)]
  {
  }

  lemma HasTwinBare(roster: map<string, Entry>, kind: string, pubkey: bytes)
    ensures HasTwin(Bare(roster), kind, pubkey) == HasTwin(roster, kind, pubkey)
  {
    if HasTwin(roster, kind, pubkey) {
      var other :| other in roster && other != kind && roster[other].pubkey == pubkey;
      assert other in Bare(roster) && Bare(roster)[other].pubkey == pubkey;
    }
  }

  lemma RemovableBare(st: State, e: Entry)
    ensures Removable(UnsignedState(st), Unsigned(e)) == Removable(st, e)
  {
    RosterRest(st.roster, Bare(st.roster), e.kind);
  }

  lemma RosterRest(a: map<string, Entry>, b: map<string, Entry>, kind: string)
    requires a.Keys == b.Keys
    ensures (a - {kind}).Keys == (b - {kind}).Keys && |a - {kind}| == |b - {kind}|
    ensures HoldsDevice(a - {kind}) == HoldsDevice(b - {kind})
  {
    var x, y := a - {kind}, b - {kind};
    assert x.Keys == y.Keys;
    assert |x| == |x.Keys| && |y| == |y.Keys|;
    if HoldsDevice(x) {
      var d :| d in x && IsDevice(d);
      assert d in y;
    }
    if HoldsDevice(y) {
      var d :| d in y && IsDevice(d);
      assert d in x;
    }
  }

  /** One entry hash pins its position and everything before it: two accepted chains that share an entry's hash, at
      whatever positions, share all of the chain up to it, signatures aside. */
  lemma {:induction false} HashPinsHistory(a: seq<Entry>, b: seq<Entry>, i: nat, j: nat)
    requires Accepted(a) && Accepted(b) && i < |a| && j < |b|
    requires EntryHash(a[i]) == EntryHash(b[j])
    ensures i == j && forall k | 0 <= k <= i :: Unsigned(a[k]) == Unsigned(b[k])
    decreases i
  {
    hide Authorised, Effect;
    PositionAt(a, i);
    PositionAt(b, j);
    StepAt(a, i);
    StepAt(b, j);
    if i > 0 {
      HashPinsHistory(a, b, i - 1, j - 1);
    }
  }

  /** Chains that agree up to `n`, signatures aside, replay there to states that agree, signatures aside. */
  lemma {:induction false} SameEntriesSameState(a: seq<Entry>, b: seq<Entry>, n: nat)
    requires Accepted(a) && Accepted(b) && n <= |a| && n <= |b|
    requires forall k | 0 <= k < n :: Unsigned(a[k]) == Unsigned(b[k])
    ensures UnsignedState(After(a, n)) == UnsignedState(After(b, n))
  {
    if n > 0 {
      SameEntriesSameState(a, b, n - 1);
      StepAt(a, n - 1);
      StepAt(b, n - 1);
      AdvanceUnsigned(After(a, n - 1), a[n - 1]);
      AdvanceUnsigned(After(b, n - 1), b[n - 1]);
    }
  }

  lemma AdvanceUnsigned(st: State, e: Entry)
    requires Step(st, e).Ok?
    ensures Effect(UnsignedState(st), Unsigned(e)).Ok?
    ensures UnsignedState(Step(st, e).value)
         == Advance(Effect(UnsignedState(st), Unsigned(e)).value, Unsigned(e))
  {
    hide Authorised, Effect;
    EffectIgnoresSignatures(st, e);
  }

  /** Two accepted chains with one tip hash are one chain, signatures aside, and grant the same authority. */
  lemma {:induction false} TamperEvidence(a: seq<Entry>, b: seq<Entry>)
    requires Accepted(a) && Accepted(b) && Tip(Replay(a).value) == Tip(Replay(b).value)
    ensures |a| == |b| && forall k | 0 <= k < |a| :: Unsigned(a[k]) == Unsigned(b[k])
    ensures UnsignedState(Replay(a).value) == UnsignedState(Replay(b).value)
  {
    hide Step;
    assert a[..|a|] == a && b[..|b|] == b;
    PositionAt(a, |a|);
    PositionAt(b, |b|);
    if |a| > 0 {
      HashPinsHistory(a, b, |a| - 1, |b| - 1);
    }
    SameEntriesSameState(a, b, |a|);
  }

  /** An edit that leaves any later entry as it was is never accepted. */
  lemma EditIsSeen(a: seq<Entry>, b: seq<Entry>, edited: nat, kept: nat)
    requires Accepted(a) && edited < kept < |a| && kept < |b|
    requires Unsigned(a[edited]) != Unsigned(b[edited]) && Unsigned(a[kept]) == Unsigned(b[kept])
    ensures !Accepted(b)
  {
    if Accepted(b) {
      HashPinsHistory(a, b, kept, kept);
    }
  }

  /** A signature good for an act in two accepted chains is over the same act, at the same place, under the same seal,
      after the same history: it cannot be carried to another chain or another position. */
  lemma SignatureBindsHistory(a: seq<Entry>, b: seq<Entry>, i: nat, j: nat, sig: Signature,
                              key: bytes, algorithm: string, key': bytes, algorithm': string)
    requires Accepted(a) && Accepted(b) && i < |a| && j < |b|
    requires Verify(key, algorithm, MessageFor(After(a, i), a[i]), sig)
    requires Verify(key', algorithm', MessageFor(After(b, j), b[j]), sig)
    ensures i == j && forall k | 0 <= k <= i :: Unsigned(a[k]) == Unsigned(b[k])
    ensures SealFor(After(a, i), a[i]) == SealFor(After(b, j), b[j])
    ensures key == key' && algorithm == algorithm'
  {
    HashPinsHistory(a, b, i, j);
  }

  // ------------------------------------------------------------------ who may act

  /** What every accepted prefix keeps about its members: each under its own kind, no two with one key, and a device
      among them only once one was ever sealed. */
  ghost predicate WellFormed(st: State) {
    Sound(st.roster, st.order, st.deviceEver)
  }

  ghost predicate Sound(roster: map<string, Entry>, order: seq<string>, deviceEver: bool) {
    Quorum.DistinctIds(order) && (forall kind :: kind in order <==> kind in roster) &&
    (forall kind <- roster :: roster[kind].kind == kind) &&
    (forall a, b | a in roster && b in roster && a != b :: roster[a].pubkey != roster[b].pubkey) &&
    (HoldsDevice(roster) ==> deviceEver)
  }

  lemma {:induction false} WithoutIs(order: seq<string>, kind: string)
    requires Quorum.DistinctIds(order)
    ensures Quorum.DistinctIds(Without(order, kind))
    ensures forall k :: k in Without(order, kind) <==> k in order && k != kind
  {
    if |order| > 0 {
      var n := |order| - 1;
      WithoutIs(order[..n], kind);
      assert forall k :: k in order <==> k in order[..n] || k == order[n];
      assert order[n] !in order[..n];
    }
  }

  lemma EffectKeepsWellFormed(st: State, e: Entry)
    requires WellFormed(st) && Effect(st, e).Ok?
    ensures WellFormed(Effect(st, e).value)
  {
    hide Document, SlotKind, Seat, DecodeId, RecordsOperator, HasTwin, Removable, Sound, Without, SeatsReset;
    if e.op == Remove {
      RemovedIsSound(st.roster, st.order, st.deviceEver, e.kind);
    } else if e.op == Add || e.op == Reset {
      SeatedIsSound(st.roster, st.order, st.deviceEver, e);
    }
  }

  lemma {:induction false} RemovedIsSound(roster: map<string, Entry>, order: seq<string>, deviceEver: bool,
                                          kind: string)
    requires Sound(roster, order, deviceEver)
    ensures Sound(roster - {kind}, Without(order, kind), deviceEver)
  {
    hide IsDevice;
    WithoutIs(order, kind);
    if HoldsDevice(roster - {kind}) {
      var d :| d in roster - {kind} && IsDevice(d);
      assert d in roster;
    }
  }

  lemma SeatedIsSound(roster: map<string, Entry>, order: seq<string>, deviceEver: bool, e: Entry)
    requires Sound(roster, order, deviceEver) && !HasTwin(roster, e.kind, e.pubkey)
    ensures Sound(roster[e.kind := e], if e.kind in roster then order else order + [e.kind],
                  deviceEver || IsDevice(e.kind))
  {
    hide IsDevice;
    var next := roster[e.kind := e];
    if HoldsDevice(next) && !IsDevice(e.kind) {
      var d :| d in next && IsDevice(d);
      assert d in roster;
    }
    forall a, b | a in next && b in next && a != b
      ensures next[a].pubkey != next[b].pubkey
    {
      if a == e.kind {
        assert b in roster && b != e.kind;
      }
      if b == e.kind {
        assert a in roster && a != e.kind;
      }
    }
  }

  /** Every accepted prefix is well formed. */
  lemma {:induction false} AcceptedIsWellFormed(chain: seq<Entry>, n: nat)
    requires Accepted(chain) && n <= |chain|
    ensures WellFormed(After(chain, n))
  {
    hide Authorised, Effect;
    if n > 0 {
      AcceptedIsWellFormed(chain, n - 1);
      StepAt(chain, n - 1);
      EffectKeepsWellFormed(After(chain, n - 1), chain[n - 1]);
    } else {
      assert !HoldsDevice(EMPTY.roster);
    }
  }

  /** Some signature on the entry is the member's own, over this message. */
  ghost predicate SignedBy(st: State, kind: string, sigs: seq<Signature>, message: Message) {
    kind in st.roster &&
    exists sig <- sigs :: Verify(st.roster[kind].pubkey, st.roster[kind].algorithm, message, sig)
  }

  ghost predicate SignedByDevice(st: State, sigs: seq<Signature>, message: Message) {
    exists kind <- st.roster :: IsDevice(kind) && SignedBy(st, kind, sigs, message)
  }

  /** Members are their own keys, so the kinds satisfied are exactly those that signed, in whatever order and however
      often. */
  lemma SatisfiedExactly(st: State, e: Entry, message: Message)
    requires WellFormed(st)
    ensures forall kind :: kind in SatisfiedKinds(st, e, message) <==> SignedBy(st, kind, e.signatures, message)
  {
    var accepts := Accepts(st.roster, message);
    assert Quorum.Exclusive(st.order, accepts, e.signatures) by {
      forall i, a, b | 0 <= i < |e.signatures| && a in st.order && b in st.order &&
                       accepts(a, e.signatures[i]) && accepts(b, e.signatures[i])
        ensures a == b
      {
      }
    }
    Quorum.Exact(st.order, accepts, e.signatures);
    forall kind
      ensures kind in SatisfiedKinds(st, e, message) <==> SignedBy(st, kind, e.signatures, message)
    {
      if SignedBy(st, kind, e.signatures, message) {
        var sig :| sig in e.signatures && Verify(st.roster[kind].pubkey, st.roster[kind].algorithm, message, sig);
        var i :| 0 <= i < |e.signatures| && e.signatures[i] == sig;
        assert accepts(kind, e.signatures[i]);
      }
      if kind in st.order && Quorum.Signed(accepts, kind, e.signatures) {
        var i :| 0 <= i < |e.signatures| && accepts(kind, e.signatures[i]);
        assert e.signatures[i] in e.signatures;
      }
    }
  }

  /** The threshold of a set that holds the passphrase: the passphrase signed, and once a device was ever sealed a
      device seated now signed too. */
  lemma ThresholdExactly(st: State, e: Entry, message: Message)
    requires WellFormed(st) && PASSPHRASE in st.roster
    ensures Threshold(st, e, message) <==>
            SignedBy(st, PASSPHRASE, e.signatures, message) &&
            (st.deviceEver ==> SignedByDevice(st, e.signatures, message))
  {
    hide SatisfiedKinds, Verify, IsDevice;
    SatisfiedExactly(st, e, message);
    assert |st.roster| > 0 by {
      assert PASSPHRASE in st.roster.Keys;
    }
    var satisfied := SatisfiedKinds(st, e, message);
    if SignedByDevice(st, e.signatures, message) {
      var kind :| kind in st.roster && IsDevice(kind) && SignedBy(st, kind, e.signatures, message);
      assert kind in satisfied;
    }
    if exists kind <- satisfied :: IsDevice(kind) {
      var kind :| kind in satisfied && IsDevice(kind);
      assert SignedBy(st, kind, e.signatures, message);
    }
  }

  /** A set with no passphrase is moved by a majority of its members, each counted once. */
  lemma MajorityExactly(st: State, e: Entry, message: Message)
    requires WellFormed(st) && PASSPHRASE !in st.roster && |st.roster| > 0
    ensures Threshold(st, e, message) <==>
            2 * |set kind | kind in st.roster && SignedBy(st, kind, e.signatures, message)| > |st.roster|
  {
    hide SatisfiedKinds, Verify;
    SatisfiedExactly(st, e, message);
    assert SatisfiedKinds(st, e, message) == set kind | kind in st.roster && SignedBy(st, kind, e.signatures, message);
  }

  /** So any two acts of such a set share a signer. */
  lemma MajoritiesMeet(st: State, a: Entry, m: Message, b: Entry, n: Message)
    requires WellFormed(st) && PASSPHRASE !in st.roster && Threshold(st, a, m) && Threshold(st, b, n)
    ensures exists kind :: SignedBy(st, kind, a.signatures, m) && SignedBy(st, kind, b.signatures, n)
  {
    hide Threshold, SignedBy;
    MajorityHolds(st, a, m);
    MajorityHolds(st, b, n);
    var x := set kind | kind in st.roster && SignedBy(st, kind, a.signatures, m);
    var y := set kind | kind in st.roster && SignedBy(st, kind, b.signatures, n);
    assert x + y <= st.roster.Keys;
    SubsetSize(x + y, st.roster.Keys);
    assert |x + y| + |x * y| == |x| + |y|;
    assert x * y != {};
    var kind :| kind in x * y;
  }

  lemma MajorityHolds(st: State, e: Entry, message: Message)
    requires WellFormed(st) && PASSPHRASE !in st.roster && Threshold(st, e, message)
    ensures 2 * |set kind | kind in st.roster && SignedBy(st, kind, e.signatures, message)| > |st.roster.Keys|
  {
    MajorityExactly(st, e, message);
    assert |st.roster| == |st.roster.Keys|;
  }

  lemma SubsetSize(a: set<string>, b: set<string>)
    requires a <= b
    ensures |a| <= |b|
  {
    assert a + (b - a) == b;
  }

  /** Both factors are seated. */
  ghost predicate TwoFactors(st: State) {
    PASSPHRASE in st.roster && HoldsDevice(st.roster)
  }

  lemma PassphraseIsNoDevice()
    ensures !IsDevice(PASSPHRASE)
  {
  }

  lemma EffectKeepsTwoFactors(st: State, e: Entry)
    requires WellFormed(st) && TwoFactors(st) && Effect(st, e).Ok?
    ensures TwoFactors(Effect(st, e).value)
  {
    hide Document, SlotKind, Seat, DecodeId, RecordsOperator, HasTwin, Removable, HoldsDevice, IsDevice, WellFormed,
         Without;
    if e.op == Remove {
      RemovalLeavesTwoFactors(st, e);
    } else if e.op == Add || e.op == Reset {
      SeatingKeepsDevices(st.roster, e);
    }
  }

  lemma RemovalLeavesTwoFactors(st: State, e: Entry)
    requires WellFormed(st) && TwoFactors(st) && Removable(st, e)
    ensures PASSPHRASE in st.roster - {e.kind} && HoldsDevice(st.roster - {e.kind})
  {
    hide IsDevice;
  }

  lemma SeatingKeepsDevices(roster: map<string, Entry>, e: Entry)
    requires HoldsDevice(roster)
    ensures HoldsDevice(roster[e.kind := e])
  {
    hide IsDevice;
    var d :| d in roster && IsDevice(d);
    assert d in roster[e.kind := e];
  }

  /** Once both factors are seated no accepted entry ever unseats one. */
  lemma {:induction false} TwoFactorsStay(chain: seq<Entry>, i: nat, j: nat)
    requires Accepted(chain) && i <= j <= |chain| && TwoFactors(After(chain, i))
    ensures TwoFactors(After(chain, j))
    decreases j
  {
    hide Authorised, Effect, HoldsDevice, WellFormed;
    if i < j {
      TwoFactorsStay(chain, i, j - 1);
      AcceptedIsWellFormed(chain, j - 1);
      StepAt(chain, j - 1);
      EffectKeepsTwoFactors(After(chain, j - 1), chain[j - 1]);
    }
  }

  /** The signatures an entry owes to the set as it stands: the passphrase over the act, and the second leg. */
  ghost predicate SignedByBothFactors(st: State, e: Entry) {
    var message := MessageFor(st, e);
    SignedBy(st, PASSPHRASE, e.signatures, message) &&
    if e.op == Reset then
      Document(e).Some? && Bound(Document(e).value) &&
      exists sig <- e.signatures :: Verify(e.pubkey, e.algorithm, Text(Document(e).value.challenge.value), sig)
    else SignedByDevice(st, e.signatures, message)
  }

  /** Both factors are needed from here on: the passphrase is seated and a device was sealed at some time. */
  ghost predicate NeedsBoth(st: State) {
    PASSPHRASE in st.roster && st.deviceEver
  }

  lemma EffectKeepsNeedsBoth(st: State, e: Entry)
    requires NeedsBoth(st) && Effect(st, e).Ok?
    ensures NeedsBoth(Effect(st, e).value)
  {
    hide IsDevice, Document, SlotKind, Seat, DecodeId, RecordsOperator, HasTwin, HoldsDevice, Without;
  }

  lemma {:induction false} NeedsBothStays(chain: seq<Entry>, i: nat, j: nat)
    requires Accepted(chain) && i <= j <= |chain| && NeedsBoth(After(chain, i))
    ensures NeedsBoth(After(chain, j))
    decreases j
  {
    hide Authorised, Effect;
    if i < j {
      NeedsBothStays(chain, i, j - 1);
      StepAt(chain, j - 1);
      EffectKeepsNeedsBoth(After(chain, j - 1), chain[j - 1]);
    }
  }

  lemma AuthorisedByBothFactors(st: State, e: Entry)
    requires WellFormed(st) && NeedsBoth(st) && e.seqNo != 0 && Authorised(st, e)
    ensures SignedByBothFactors(st, e)
  {
    hide Threshold, Verify, IsDevice, DecodeId, Bound;
    if e.op != Reset {
      ThresholdExactly(st, e, MessageFor(st, e));
    }
  }

  /** From the moment the passphrase is seated and any device was ever sealed, every entry of an accepted chain carries
      both: the then-current passphrase over the entry's own act, and a device seated at the time over the same act;
      or, for a reset, the fresh key over the challenge it bound. */
  lemma EveryActTakesBothFactors(chain: seq<Entry>, i: nat, j: nat)
    requires Accepted(chain) && i <= j < |chain| && NeedsBoth(After(chain, i))
    ensures SignedByBothFactors(After(chain, j), chain[j])
  {
    hide Authorised, Effect, SignedByBothFactors;
    NeedsBothStays(chain, i, j);
    AcceptedIsWellFormed(chain, j);
    StepAt(chain, j);
    PositionAt(chain, j);
    AuthorisedByBothFactors(After(chain, j), chain[j]);
  }

  // ------------------------------------------------------------------ what happens once

  lemma StepKeepsSeal(st: State, e: Entry)
    requires st.sealedId.Some? && st.length > 0 && Step(st, e).Ok?
    ensures e.op != SealId && Step(st, e).value.sealedId == st.sealedId
  {
    hide Threshold, ResetSigned, DecodeId, SeatsReset, HasTwin, Removable, RecordsOperator, Without;
  }

  /** The id is sealed at most once, and never changes. */
  lemma {:induction false} SealedOnce(chain: seq<Entry>, i: nat, j: nat)
    requires Accepted(chain) && i <= j <= |chain| && After(chain, i).sealedId.Some?
    ensures After(chain, j).sealedId == After(chain, i).sealedId
    ensures forall k | i <= k < j :: chain[k].op != SealId
    decreases j
  {
    hide Step;
    if i < j {
      SealedOnce(chain, i, j - 1);
      StepAt(chain, j - 1);
      PositionAt(chain, j - 1);
      if j - 1 == 0 {
        UnsealedAtFirst(chain);
      }
      StepKeepsSeal(After(chain, j - 1), chain[j - 1]);
    }
  }

  lemma UnsealedAtFirst(chain: seq<Entry>)
    requires Accepted(chain)
    ensures After(chain, 0) == EMPTY
  {
    assert chain[..0] == [];
  }

  lemma StepKeepsSeats(st: State, e: Entry)
    requires Step(st, e).Ok?
    ensures st.seats <= Step(st, e).value.seats
    ensures e.op == Reset ==>
              Document(e).Some? && Seat(Document(e).value) !in st.seats &&
              Seat(Document(e).value) in Step(st, e).value.seats
  {
    hide Authorised, DecodeId, Document, Seat, HasTwin, Removable, RecordsOperator, Without;
  }

  lemma {:induction false} SeatsStay(chain: seq<Entry>, i: nat, j: nat)
    requires Accepted(chain) && i <= j <= |chain|
    ensures After(chain, i).seats <= After(chain, j).seats
    decreases j
  {
    hide Step;
    if i < j {
      SeatsStay(chain, i, j - 1);
      StepAt(chain, j - 1);
      StepKeepsSeats(After(chain, j - 1), chain[j - 1]);
    }
  }

  /** Each reset intent seats each of its slots at most once. */
  lemma SeatedOnce(chain: seq<Entry>, i: nat, j: nat)
    requires Accepted(chain) && i < j < |chain| && chain[i].op == Reset && chain[j].op == Reset
    ensures Document(chain[i]).Some? && Document(chain[j]).Some?
    ensures Seat(Document(chain[i]).value) != Seat(Document(chain[j]).value)
  {
    hide Step, Document, Seat;
    StepAt(chain, i);
    StepAt(chain, j);
    StepKeepsSeats(After(chain, i), chain[i]);
    StepKeepsSeats(After(chain, j), chain[j]);
    SeatsStay(chain, i + 1, j);
  }

  // ------------------------------------------------------------------ what the state says, read off the entries

  predicate Touches(e: Entry, kind: string) {
    e.kind == kind && (e.op == Add || e.op == Reset || e.op == Remove)
  }

  /** The latest entry that seats or removes the kind. */
  function LastTouch(chain: seq<Entry>, kind: string): Option<Entry> {
    if |chain| == 0 then None
    else if Touches(chain[|chain| - 1], kind) then Some(chain[|chain| - 1])
    else LastTouch(chain[..|chain| - 1], kind)
  }

  function LastRotation(chain: seq<Entry>): Option<bytes> {
    if |chain| == 0 then None
    else if chain[|chain| - 1].op == Rotate then Some(chain[|chain| - 1].pubkey)
    else LastRotation(chain[..|chain| - 1])
  }

  /** The latest seal-id entry. */
  function LastSeal(chain: seq<Entry>): Option<Entry> {
    if |chain| == 0 then None
    else if chain[|chain| - 1].op == SealId then Some(chain[|chain| - 1])
    else LastSeal(chain[..|chain| - 1])
  }

  predicate SeatsDevice(e: Entry) {
    (e.op == Add || e.op == Reset) && IsDevice(e.kind)
  }

  ghost predicate ResetIn(chain: seq<Entry>, intent: string) {
    exists e <- chain :: e.op == Reset && Document(e).Some? && Document(e).value.intentId == intent
  }

  /** The member of a kind is its latest entry, unless that one removes it. */
  ghost predicate RosterTells(roster: map<string, Entry>, chain: seq<Entry>) {
    (forall kind :: kind in roster <==>
                    LastTouch(chain, kind).Some? && LastTouch(chain, kind).value.op != Remove) &&
    forall kind <- roster :: Some(roster[kind]) == LastTouch(chain, kind)
  }

  /** The resets listed are the intents of the reset entries. */
  ghost predicate ResetsTell(resets: seq<string>, chain: seq<Entry>) {
    forall intent :: intent in resets <==> ResetIn(chain, intent)
  }

  /** The sealed id is the seal entry's, and the operator key recorded with it is a point on the curve. */
  ghost predicate SealTells(st: State, seal: Option<Entry>) {
    if seal.None? then st.sealedId.None? && st.sealedOperatorKey.None?
    else
      st.sealedId.Some? && st.sealedId == DecodeId(seal.value) &&
      seal.value.meta.Some? && st.sealedOperatorKey.Some? &&
      st.sealedOperatorKey == seal.value.meta.value.operatorKey && OnSecp256k1(st.sealedOperatorKey.value)
  }

  function NextRoster(roster: map<string, Entry>, e: Entry): map<string, Entry> {
    if e.op == Add || e.op == Reset then roster[e.kind := e]
    else if e.op == Remove then roster - {e.kind}
    else roster
  }

  function NextResets(resets: seq<string>, e: Entry): seq<string> {
    if e.op == Reset && Document(e).Some? && Document(e).value.intentId !in resets
    then resets + [Document(e).value.intentId] else resets
  }

  lemma EffectShape(st: State, e: Entry)
    requires Effect(st, e).Ok?
    ensures var next := Effect(st, e).value;
            next.roster == NextRoster(st.roster, e) && next.resets == NextResets(st.resets, e) &&
            next.operatorKey == if e.op == Rotate then Some(e.pubkey) else st.operatorKey
  {
    hide HasTwin, Removable, DecodeId, RecordsOperator, Without, Document, Seat, IsDevice, SlotKind;
  }

  lemma EffectSeals(st: State, e: Entry, seal: Option<Entry>)
    requires Effect(st, e).Ok? && SealTells(st, seal)
    ensures SealTells(Effect(st, e).value, if e.op == SealId then Some(e) else seal)
    ensures Effect(st, e).value.deviceEver == (st.deviceEver || SeatsDevice(e))
  {
    hide HasTwin, Removable, DecodeId, OnSecp256k1, Without, Document, Seat, IsDevice, SlotKind;
  }

  lemma RosterStep(roster: map<string, Entry>, chain: seq<Entry>, e: Entry)
    requires RosterTells(roster, chain)
    ensures RosterTells(NextRoster(roster, e), chain + [e])
  {
    var longer := chain + [e];
    assert longer[..|longer| - 1] == chain && longer[|longer| - 1] == e;
    forall kind
      ensures LastTouch(longer, kind) == if Touches(e, kind) then Some(e) else LastTouch(chain, kind)
    {
    }
  }

  lemma ResetsStep(resets: seq<string>, chain: seq<Entry>, e: Entry)
    requires ResetsTell(resets, chain)
    ensures ResetsTell(NextResets(resets, e), chain + [e])
  {
    hide Document, ResetIn;
    forall intent
      ensures intent in NextResets(resets, e) <==> ResetIn(chain + [e], intent)
    {
      OneMoreReset(chain, e, intent);
    }
  }

  lemma OneMoreReset(chain: seq<Entry>, e: Entry, intent: string)
    ensures ResetIn(chain + [e], intent) <==>
            ResetIn(chain, intent) || (e.op == Reset && Document(e).Some? && Document(e).value.intentId == intent)
  {
    hide Document;
    assert forall x :: x in chain + [e] <==> x in chain || x == e;
  }

  /** What the replayed state says is what the entries say: each kind's member is its latest entry unless that removed
      it, the rotated key is the latest rotation's, and the resets listed are those of the reset entries. */
  lemma {:induction false} ReplayTells(chain: seq<Entry>)
    requires Accepted(chain)
    ensures var st := Replay(chain).value;
            RosterTells(st.roster, chain) && ResetsTell(st.resets, chain) && st.operatorKey == LastRotation(chain)
    decreases |chain|
  {
    hide Authorised, Effect, RosterTells, ResetsTell, NextRoster, NextResets;
    if |chain| == 0 {
      EmptyTells();
    } else {
      var n := |chain| - 1;
      AcceptedPrefix(chain, n);
      ReplayTells(chain[..n]);
      var st := Replay(chain[..n]).value;
      EffectShape(st, chain[n]);
      RosterStep(st.roster, chain[..n], chain[n]);
      ResetsStep(st.resets, chain[..n], chain[n]);
      assert chain[..n] + [chain[n]] == chain;
    }
  }

  /** The sealed id and operator key are those of the one seal entry, and a device was sealed exactly when some entry
      seated one. */
  lemma {:induction false} SealIsTold(chain: seq<Entry>)
    requires Accepted(chain)
    ensures SealTells(Replay(chain).value, LastSeal(chain))
    ensures Replay(chain).value.deviceEver <==> exists e <- chain :: SeatsDevice(e)
    decreases |chain|
  {
    hide Authorised, Effect, SealTells, SeatsDevice;
    if |chain| == 0 {
      EmptySeal();
    } else {
      var n := |chain| - 1;
      AcceptedPrefix(chain, n);
      SealIsTold(chain[..n]);
      var st := Replay(chain[..n]).value;
      EffectSeals(st, chain[n], LastSeal(chain[..n]));
      SealAdvances(Effect(st, chain[n]).value, chain[n], LastSeal(chain));
      assert forall e :: e in chain <==> e in chain[..n] || e == chain[n];
    }
  }

  lemma EmptySeal()
    ensures SealTells(EMPTY, None)
  {
  }

  lemma SealAdvances(st: State, e: Entry, seal: Option<Entry>)
    requires SealTells(st, seal)
    ensures SealTells(Advance(st, e), seal)
  {
    hide OnSecp256k1, DecodeId;
  }

  /** A chain that holds any entry holds a member: no accepted entry empties the set. */
  lemma NeverEmpty(chain: seq<Entry>)
    requires Accepted(chain) && |chain| > 0
    ensures |Replay(chain).value.roster| > 0
    decreases |chain|
  {
    hide Threshold, ResetSigned, Effect;
    var n := |chain| - 1;
    AcceptedPrefix(chain, n);
    var st := Replay(chain[..n]).value;
    EffectNeverEmpties(st, chain[n]);
    if n > 0 {
      NeverEmpty(chain[..n]);
    } else {
      assert chain[..n] == [];
    }
  }

  lemma EffectNeverEmpties(st: State, e: Entry)
    requires Effect(st, e).Ok?
    ensures |st.roster| > 0 || e.op == Add ==> |Effect(st, e).value.roster| > 0
  {
    hide HasTwin, HoldsDevice, DecodeId, RecordsOperator, Without, Document, Seat, SlotKind, IsDevice;
    var next := Effect(st, e).value;
    if e.op == Add || e.op == Reset {
      assert e.kind in next.roster.Keys;
    }
  }

  lemma EmptyTells()
    ensures RosterTells(map[], []) && ResetsTell([], [])
  {
  }

  // ------------------------------------------------------------------ repair

  /** The replacement of one member's key, unsigned. */
  function Replacement(st: State, kind: string, pubkey: bytes, algorithm: string): Entry {
    Entry(st.length, Add, kind, pubkey, algorithm, Tip(st), [], None)
  }

  function SignatureOf(member: Entry, message: Message): Signature {
    Signed(member.pubkey, member.algorithm, message, 0)
  }

  /** The replacement signed by two members. */
  function SignedReplacement(st: State, lost: string, pubkey: bytes, algorithm: string, a: string, b: string): Entry
    requires a in st.roster && b in st.roster
  {
    var e := Replacement(st, lost, pubkey, algorithm);
    var message := ActMessage(e, st.sealedId);
    e.(signatures := [SignatureOf(st.roster[a], message), SignatureOf(st.roster[b], message)])
  }

  /** With the passphrase and a surviving device, any other seat can be given a new key, and only a key that another
      member holds is refused. */
  lemma {:induction false} Repair(chain: seq<Entry>, lost: string, survivor: string, pubkey: bytes, algorithm: string)
    requires Accepted(chain) && |chain| > 0
    requires var st := Replay(chain).value;
             PASSPHRASE in st.roster && survivor in st.roster && IsDevice(survivor) &&
             Supported(st.roster[PASSPHRASE].algorithm) && Supported(st.roster[survivor].algorithm)
    ensures var st := Replay(chain).value;
            var e := SignedReplacement(st, lost, pubkey, algorithm, PASSPHRASE, survivor);
            (Accepted(chain + [e]) <==> !HasTwin(st.roster, lost, pubkey)) &&
            (Accepted(chain + [e]) ==> Replay(chain + [e]).value.roster == st.roster[lost := e])
  {
    var st := Replay(chain).value;
    var e := SignedReplacement(st, lost, pubkey, algorithm, PASSPHRASE, survivor);
    assert chain[..|chain|] == chain;
    AcceptedIsWellFormed(chain, |chain|);
    PositionAt(chain, |chain|);
    RepairAuthorised(st, lost, survivor, pubkey, algorithm);
    var longer := chain + [e];
    assert longer[..|longer| - 1] == chain && longer[|longer| - 1] == e;
    hide Authorised, HasTwin;
  }

  lemma RepairAuthorised(st: State, lost: string, survivor: string, pubkey: bytes,
                         algorithm: string)
    requires WellFormed(st) && st.length > 0
    requires PASSPHRASE in st.roster && survivor in st.roster && IsDevice(survivor) &&
             Supported(st.roster[PASSPHRASE].algorithm) && Supported(st.roster[survivor].algorithm)
    ensures Authorised(st, SignedReplacement(st, lost, pubkey, algorithm, PASSPHRASE, survivor))
  {
    hide Threshold, IsDevice, HoldsDevice, DecodeId, ResetSigned, WellFormed, Supported;
    var e := SignedReplacement(st, lost, pubkey, algorithm, PASSPHRASE, survivor);
    var message := MessageFor(st, e);
    assert e.signatures[0] in e.signatures && e.signatures[1] in e.signatures;
    assert Verify(st.roster[PASSPHRASE].pubkey, st.roster[PASSPHRASE].algorithm, message, e.signatures[0]);
    assert Verify(st.roster[survivor].pubkey, st.roster[survivor].algorithm, message, e.signatures[1]);
    assert SignedBy(st, PASSPHRASE, e.signatures, message) && SignedBy(st, survivor, e.signatures, message);
    ThresholdExactly(st, e, message);
  }
}
