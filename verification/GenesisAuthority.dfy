/** The gates of the top plane and of tier 3 over the sealed members: recto/bootloader/genesis_authority.py:103-197. */
module GenesisAuthority {
  import opened Wrappers
  import opened GenesisChain
  import opened ChainProperties
  import Quorum

  datatype TopPlaneResult = TopPlaneResult(met: bool, passphrase: bool, devices: set<string>)

  function Devices(order: seq<string>): seq<string> {
    if |order| == 0 then []
    else Devices(order[..|order| - 1]) + if IsDevice(order[|order| - 1]) then [order[|order| - 1]] else []
  }

  /** The members the gate asks, in order: the passphrase, then the devices as they are listed. */
  function Gate(st: State): seq<string> {
    [PASSPHRASE] + Devices(st.order)
  }

  /** An unsupported algorithm makes the set unusable; it is never left out of the count. */
  predicate Usable(st: State, kinds: seq<string>) {
    forall kind <- kinds :: kind in st.roster && Supported(st.roster[kind].algorithm)
  }

  lemma {:induction false} DevicesAre(order: seq<string>)
    requires Quorum.DistinctIds(order)
    ensures Quorum.DistinctIds(Devices(order))
    ensures forall kind :: kind in Devices(order) <==> kind in order && IsDevice(kind)
  {
    hide IsDevice;
    if |order| > 0 {
      var n := |order| - 1;
      DevicesAre(order[..n]);
      assert forall k :: k in order <==> k in order[..n] || k == order[n];
      assert order[n] !in order[..n];
    }
  }

  lemma GateIs(st: State)
    requires WellFormed(st)
    ensures Quorum.DistinctIds(Gate(st))
    ensures forall kind :: kind in Gate(st) <==> kind == PASSPHRASE || (kind in st.roster && IsDevice(kind))
  {
    DevicesAre(st.order);
    PassphraseIsNoDevice();
    hide IsDevice;
  }

  /** The set cannot carry the rule: no passphrase or no device is sealed, or one of them has an algorithm the
      verifier does not support. */
  ghost predicate CannotCarry(st: State) {
    || "passphrase" !in st.roster
    || ("recovery-phone" !in st.roster && "primary-phone" !in st.roster)
    || exists kind <- {"passphrase", "recovery-phone", "primary-phone"} ::
         kind in st.roster && st.roster[kind].algorithm !in {"ed25519", "ecdsa-p256"}
  }

  lemma CannotCarryIs(st: State)
    requires WellFormed(st)
    ensures CannotCarry(st) <==> PASSPHRASE !in st.roster || Devices(st.order) == [] || !Usable(st, Gate(st))
  {
    hide Devices;
    GateIs(st);
    DevicesAre(st.order);
    var devices := Devices(st.order);
    assert |devices| > 0 ==> devices[0] in devices;
    assert forall kind :: kind in Gate(st) <==> kind == PASSPHRASE || kind in devices;
    assert forall kind :: kind in devices <==>
                          kind in st.roster && (kind == "recovery-phone" || kind == "primary-phone");
  }

  method VerifyTopPlane(st: State, message: Message, sigs: seq<Signature>) returns (r: Result<TopPlaneResult>)
    ensures r.Err? <==> PASSPHRASE !in st.roster || Devices(st.order) == [] || !Usable(st, Gate(st))
    ensures WellFormed(st) ==> (r.Err? <==> CannotCarry(st))
    ensures r.Ok? ==>
              var satisfied := Quorum.Greedy(Gate(st), Accepts(st.roster, message), sigs);
              r.value.passphrase == (PASSPHRASE in satisfied) &&
              r.value.devices == (set kind <- satisfied | IsDevice(kind)) &&
              (r.value.met <==> r.value.passphrase && r.value.devices != {})
  {
    if WellFormed(st) {
      CannotCarryIs(st);
    }
    if |st.roster| == 0 || PASSPHRASE !in st.roster || Devices(st.order) == [] || !Usable(st, Gate(st)) {
      EmptyRoster(st.roster);
      return Err;
    }
    var satisfied, _ := Quorum.Attribute(Gate(st), Accepts(st.roster, message), sigs);
    var devices := set kind <- satisfied | IsDevice(kind);
    return Ok(TopPlaneResult(PASSPHRASE in satisfied && devices != {}, PASSPHRASE in satisfied, devices));
  }

  lemma EmptyRoster(roster: map<string, Entry>)
    ensures |roster| == 0 ==> PASSPHRASE !in roster
  {
    assert |roster| == |roster.Keys|;
  }

  /** The gate answers by exactly who signed, in whatever order and however often. */
  lemma GateExactly(st: State, message: Message, sigs: seq<Signature>)
    requires WellFormed(st) && PASSPHRASE in st.roster
    ensures forall kind :: kind in Quorum.Greedy(Gate(st), Accepts(st.roster, message), sigs) <==>
                           (kind == PASSPHRASE || IsDevice(kind)) && SignedBy(st, kind, sigs, message)
  {
    hide IsDevice, Verify;
    var accepts := Accepts(st.roster, message);
    GateIs(st);
    assert Quorum.Exclusive(Gate(st), accepts, sigs) by {
      KeysExclude(st, message, sigs);
    }
    Quorum.Exact(Gate(st), accepts, sigs);
    forall kind
      ensures Quorum.Signed(accepts, kind, sigs) <==> SignedBy(st, kind, sigs, message)
    {
      SignedIsSigned(st, kind, sigs, message);
    }
  }

  lemma KeysExclude(st: State, message: Message, sigs: seq<Signature>)
    requires WellFormed(st)
    ensures Quorum.Exclusive(Gate(st), Accepts(st.roster, message), sigs)
  {
  }

  lemma SignedIsSigned(st: State, kind: string, sigs: seq<Signature>, message: Message)
    ensures Quorum.Signed(Accepts(st.roster, message), kind, sigs) <==> SignedBy(st, kind, sigs, message)
  {
    var accepts := Accepts(st.roster, message);
    if SignedBy(st, kind, sigs, message) {
      var sig :| sig in sigs && Verify(st.roster[kind].pubkey, st.roster[kind].algorithm, message, sig);
      var i :| 0 <= i < |sigs| && sigs[i] == sig;
      assert accepts(kind, sigs[i]);
    }
    if Quorum.Signed(accepts, kind, sigs) {
      var i :| 0 <= i < |sigs| && accepts(kind, sigs[i]);
      assert sigs[i] in sigs;
    }
  }

  /** With the passphrase and a device seated the gate is met by exactly the signatures the chain's own threshold
      admits: one pair is both the act's authority and the chain's. */
  lemma GateAgreesWithChain(st: State, message: Message, e: Entry)
    requires WellFormed(st) && TwoFactors(st)
    ensures var satisfied := Quorum.Greedy(Gate(st), Accepts(st.roster, message), e.signatures);
            PASSPHRASE in satisfied && (set kind <- satisfied | IsDevice(kind)) != {} <==> Threshold(st, e, message)
  {
    hide IsDevice, Verify, Threshold, SignedBy;
    var satisfied := Quorum.Greedy(Gate(st), Accepts(st.roster, message), e.signatures);
    GateExactly(st, message, e.signatures);
    ThresholdExactly(st, e, message);
    var devices := set kind <- satisfied | IsDevice(kind);
    if SignedByDevice(st, e.signatures, message) {
      var kind :| kind in st.roster && IsDevice(kind) && SignedBy(st, kind, e.signatures, message);
      assert kind in devices;
    }
    if devices != {} {
      var kind :| kind in devices;
      InRoster(st, kind, e.signatures, message);
    }
  }

  lemma InRoster(st: State, kind: string, sigs: seq<Signature>, message: Message)
    ensures SignedBy(st, kind, sigs, message) ==> kind in st.roster
  {
  }

  // ------------------------------------------------------------------ tier 3

  predicate Empty(sig: Signature) {
    sig == Garbage([])
  }

  function Outcome(st: State, message: Message): (string, Signature) -> Quorum.Outcome {
    (kind: string, sig: Signature) =>
      if kind in st.roster && Verify(st.roster[kind].pubkey, st.roster[kind].algorithm, message, sig)
      then Quorum.Accepted else Quorum.Rejected
  }

  lemma {:induction false} AllListed(ids: seq<string>, s: set<string>)
    requires Quorum.DistinctIds(ids) && forall id :: id in ids <==> id in s
    ensures |ids| == |s|
  {
    if |ids| > 0 {
      var n := |ids| - 1;
      assert forall id :: id in ids[..n] <==> id in ids && id != ids[n];
      AllListed(ids[..n], s - {ids[n]});
    } else {
      assert s == {};
    }
  }

  /** The members as they are listed: as many as are sealed, and usable when every one of their algorithms is. */
  lemma RosterUsable(st: State)
    requires WellFormed(st)
    ensures |st.order| == |st.roster|
    ensures Usable(st, st.order) <==> forall kind <- st.roster :: st.roster[kind].algorithm in {"ed25519", "ecdsa-p256"}
  {
    AllListed(st.order, st.roster.Keys);
    assert |st.roster| == |st.roster.Keys|;
  }

  /** k of the sealed members, of any kind. */
  method VerifyTier3(st: State, message: Message, sigs: seq<Signature>, k: int)
    returns (r: Result<Quorum.QuorumResult>)
    requires WellFormed(st)
    ensures r.Err? <==>
            || |st.roster| == 0 || k < 1 || k > |st.roster|
            || exists kind <- st.roster :: st.roster[kind].algorithm !in {"ed25519", "ecdsa-p256"}
    ensures r.Ok? ==> forall kind :: kind in r.value.satisfiedBy <==> SignedBy(st, kind, sigs, message)
    ensures r.Ok? ==> (r.value.met <==> |r.value.satisfiedBy| >= k)
  {
    RosterUsable(st);
    if |st.roster| == 0 || !Usable(st, st.order) {
      return Err;
    }
    r := Quorum.VerifyQuorum(st.order, Empty, Outcome(st, message), sigs, k);
    Tier3Exactly(st, message, sigs);
  }

  lemma Tier3Exactly(st: State, message: Message, sigs: seq<Signature>)
    requires WellFormed(st)
    ensures forall kind ::
              kind in Quorum.Greedy(st.order, Quorum.SafeAccepts(Empty, Outcome(st, message)), sigs) <==>
              SignedBy(st, kind, sigs, message)
  {
    hide WellFormed, Verify, SignedBy;
    var accepts := Quorum.SafeAccepts(Empty, Outcome(st, message));
    Tier3Excludes(st, message, sigs);
    Quorum.Exact(st.order, accepts, sigs);
    forall kind
      ensures Quorum.Signed(accepts, kind, sigs) <==> SignedBy(st, kind, sigs, message)
    {
      Tier3Signed(st, message, sigs, kind);
    }
    OrderIsRoster(st);
    forall kind
      ensures SignedBy(st, kind, sigs, message) ==> kind in st.order
    {
      InRoster(st, kind, sigs, message);
    }
  }

  lemma OrderIsRoster(st: State)
    requires WellFormed(st)
    ensures forall kind :: kind in st.order <==> kind in st.roster
  {
  }

  lemma Tier3Excludes(st: State, message: Message, sigs: seq<Signature>)
    requires WellFormed(st)
    ensures Quorum.Exclusive(st.order, Quorum.SafeAccepts(Empty, Outcome(st, message)), sigs)
  {
  }

  lemma Tier3Signed(st: State, message: Message, sigs: seq<Signature>, kind: string)
    ensures Quorum.Signed(Quorum.SafeAccepts(Empty, Outcome(st, message)), kind, sigs) <==>
            SignedBy(st, kind, sigs, message)
  {
    var accepts := Quorum.SafeAccepts(Empty, Outcome(st, message));
    if SignedBy(st, kind, sigs, message) {
      var sig :| sig in sigs && Verify(st.roster[kind].pubkey, st.roster[kind].algorithm, message, sig);
      var i :| 0 <= i < |sigs| && sigs[i] == sig;
      assert !Empty(sig) && Outcome(st, message)(kind, sig) == Quorum.Accepted;
      assert accepts(kind, sigs[i]);
    }
    if Quorum.Signed(accepts, kind, sigs) {
      var i :| 0 <= i < |sigs| && accepts(kind, sigs[i]);
      assert sigs[i] in sigs;
    }
  }
}
