/** The rules of the membership chain, set down from its description and not from its replay, and the proof that the
    replay accepts an entry exactly when the rules allow it (recto/bootloader/genesis_chain.py:8-81 and 310-440). */
module ChainRules {
  import opened Wrappers
  import opened Digits
  import opened GenesisChain
  import opened ChainProperties
  import CurvePoints

  const OWNER_DEVICES: set<string> := {"recovery-phone", "primary-phone"}

  /** Some signature is made with the key, over the message, under an algorithm the verifier knows. */
  ghost predicate Carries(sigs: seq<Signature>, key: bytes, algorithm: string, message: Message) {
    algorithm in {"ed25519", "ecdsa-p256"} && exists salt :: Signed(key, algorithm, message, salt) in sigs
  }

  ghost predicate Signs(st: State, kind: string, sigs: seq<Signature>, message: Message) {
    kind in st.roster && Carries(sigs, st.roster[kind].pubkey, st.roster[kind].algorithm, message)
  }

  /** An entry's fields as they are signed: bare before the seal, and by their digest with the sealed id from then on.
      */
  function SignedForm(e: Entry, seal: Option<string>): Message {
    var body := Body(e.seqNo, e.op, e.kind, e.pubkey, e.algorithm, e.prev, e.meta, seal);
    match seal
    case None => Raw(body)
    case Some(_) => Sha(Digest(body))
  }

  /** The passphrase, and once a device was ever sealed a device; without a passphrase a majority. */
  ghost predicate MayAct(st: State, sigs: seq<Signature>, message: Message) {
    if "passphrase" in st.roster then
      Signs(st, "passphrase", sigs, message) &&
      (st.deviceEver ==> exists d <- OWNER_DEVICES :: Signs(st, d, sigs, message))
    else 2 * |set kind | kind in st.roster && Signs(st, kind, sigs, message)| > |st.roster|
  }

  ghost predicate KeyFree(st: State, e: Entry) {
    forall other <- st.roster :: other != e.kind ==> st.roster[other].pubkey != e.pubkey
  }

  ghost predicate Printable(raw: bytes, id: string) {
    |raw| > 0 && |id| == |raw| && forall i | 0 <= i < |raw| :: 32 <= raw[i] <= 126 && id[i] as int == raw[i]
  }

  /** X and Y, 32 bytes each, with Y^2 = X^3 + 7 in the field of secp256k1. */
  ghost predicate CurvePoint(key: bytes) {
    var p := 0xFFFFFFFFFFFFFFFFFFFFFFFFFFFFFFFFFFFFFFFFFFFFFFFFFFFFFFFEFFFFFC2F;
    |key| == 64 &&
    var x, y := Value(256, key[..32]), Value(256, key[32..]);
    x < p && y < p && (y * y) % p == (x * x * x + 7) % p
  }

  ghost predicate AllowsRemove(st: State, e: Entry) {
    e.kind != "passphrase" && e.kind in st.roster &&
    e.pubkey == st.roster[e.kind].pubkey && e.algorithm == st.roster[e.kind].algorithm &&
    (exists other <- st.roster :: other != e.kind) &&
    ("passphrase" in st.roster && st.deviceEver ==> exists d <- OWNER_DEVICES :: d in st.roster && d != e.kind)
  }

  ghost predicate AllowsSeal(st: State, e: Entry) {
    st.sealedId.None? && (exists d <- OWNER_DEVICES :: d in st.roster) && e.kind == "bootloader-id" &&
    (exists id :: Printable(e.pubkey, id) && MayAct(st, e.signatures, SignedForm(e, Some(id)))) &&
    e.meta.Some? && e.meta.value.operatorKey.Some? && CurvePoint(e.meta.value.operatorKey.value)
  }

  /** The challenge is tied to the intent and the fresh key signed it; the kind is the slot's; the seat is not taken. */
  ghost predicate AllowsReset(st: State, e: Entry) {
    st.sealedId.Some? && Signs(st, "passphrase", e.signatures, SignedForm(e, st.sealedId)) &&
    e.meta.Some? && e.meta.value.reset.Some? &&
    var doc := e.meta.value.reset.value;
    doc.challenge.Some? &&
    "recto-reset-v1:" + doc.intentId + ":" <= doc.challenge.value &&
    (forall c <- doc.challenge.value :: c as int < 128) &&
    Carries(e.signatures, e.pubkey, e.algorithm, Text(doc.challenge.value)) &&
    ((doc.slot == Some("primary") && e.kind == "primary-phone") ||
     (doc.slot == Some("recovery") && e.kind == "recovery-phone")) &&
    (doc.intentId, doc.slot.value) !in st.seats
  }

  ghost predicate Allows(st: State, e: Entry) {
    match e.op
    case Add => MayAct(st, e.signatures, SignedForm(e, st.sealedId)) && KeyFree(st, e)
    case Reset => AllowsReset(st, e) && KeyFree(st, e)
    case Remove => MayAct(st, e.signatures, SignedForm(e, st.sealedId)) && AllowsRemove(st, e)
    case SealId => AllowsSeal(st, e)
    case Rotate =>
      MayAct(st, e.signatures, SignedForm(e, st.sealedId)) && e.kind == "operator" && |e.pubkey| == 64
  }

  // ------------------------------------------------------------------ the replay keeps the rules

  lemma CarriesIs(sigs: seq<Signature>, key: bytes, algorithm: string, message: Message)
    ensures Carries(sigs, key, algorithm, message) <==> exists sig <- sigs :: Verify(key, algorithm, message, sig)
  {
    if exists sig <- sigs :: Verify(key, algorithm, message, sig) {
      var sig :| sig in sigs && Verify(key, algorithm, message, sig);
      assert Signed(key, algorithm, message, sig.salt) in sigs;
    }
    if Carries(sigs, key, algorithm, message) {
      var salt :| Signed(key, algorithm, message, salt) in sigs;
      assert Verify(key, algorithm, message, Signed(key, algorithm, message, salt));
    }
  }

  lemma SignsIs(st: State, kind: string, sigs: seq<Signature>, message: Message)
    ensures Signs(st, kind, sigs, message) <==> SignedBy(st, kind, sigs, message)
  {
    hide Verify, Carries;
    if kind in st.roster {
      CarriesIs(sigs, st.roster[kind].pubkey, st.roster[kind].algorithm, message);
    }
  }

  lemma DevicesAre(kind: string)
    ensures IsDevice(kind) <==> kind in OWNER_DEVICES
  {
  }

  lemma DeviceHeld(roster: map<string, Entry>)
    ensures HoldsDevice(roster) <==> exists d <- OWNER_DEVICES :: d in roster
  {
    hide IsDevice;
    forall kind
      ensures IsDevice(kind) <==> kind in OWNER_DEVICES
    {
      DevicesAre(kind);
    }
  }

  lemma DeviceSigns(st: State, sigs: seq<Signature>, message: Message)
    ensures SignedByDevice(st, sigs, message) <==> exists d <- OWNER_DEVICES :: Signs(st, d, sigs, message)
  {
    hide IsDevice, SignedBy, Carries;
    forall kind
      ensures (IsDevice(kind) <==> kind in OWNER_DEVICES) &&
              (Signs(st, kind, sigs, message) <==> SignedBy(st, kind, sigs, message))
    {
      DevicesAre(kind);
      SignsIs(st, kind, sigs, message);
    }
  }

  lemma MayActIs(st: State, e: Entry, message: Message)
    requires WellFormed(st) && |st.roster| > 0
    ensures Threshold(st, e, message) <==> MayAct(st, e.signatures, message)
  {
    hide Threshold, SignedBy, Signs, SignedByDevice, WellFormed;
    if PASSPHRASE in st.roster {
      ThresholdExactly(st, e, message);
      SignsIs(st, "passphrase", e.signatures, message);
      DeviceSigns(st, e.signatures, message);
    } else {
      MajorityExactly(st, e, message);
      forall kind
        ensures Signs(st, kind, e.signatures, message) <==> SignedBy(st, kind, e.signatures, message)
      {
        SignsIs(st, kind, e.signatures, message);
      }
      assert (set kind | kind in st.roster && Signs(st, kind, e.signatures, message))
          == (set kind | kind in st.roster && SignedBy(st, kind, e.signatures, message));
    }
  }

  lemma IdIs(e: Entry, id: string)
    ensures DecodeId(e) == Some(id) <==> e.kind == "bootloader-id" && Printable(e.pubkey, id)
  {
    assert forall i | 0 <= i < |e.pubkey| :: e.pubkey[i] in e.pubkey;
    if e.kind == "bootloader-id" && Printable(e.pubkey, id) {
      assert forall b <- e.pubkey :: 32 <= b < 127;
      assert DecodeId(e).value == id;
    }
  }

  lemma CurvePointIs(key: bytes)
    ensures OnSecp256k1(key) <==> CurvePoint(key)
  {
  }

  lemma SealAllowed(st: State, e: Entry)
    requires WellFormed(st) && |st.roster| > 0 && e.op == SealId && e.seqNo != 0
    ensures Authorised(st, e) && Effect(st, e).Ok? <==> AllowsSeal(st, e)
  {
    hide Threshold, MayAct, HoldsDevice, DecodeId, OnSecp256k1, CurvePoint, Printable, WellFormed;
    DeviceHeld(st.roster);
    if e.meta.Some? && e.meta.value.operatorKey.Some? {
      CurvePointIs(e.meta.value.operatorKey.value);
    }
    if DecodeId(e).Some? {
      IdIs(e, DecodeId(e).value);
      MayActIs(st, e, MessageFor(st, e));
    }
    if AllowsSeal(st, e) {
      var id :| Printable(e.pubkey, id) && MayAct(st, e.signatures, SignedForm(e, Some(id)));
      IdIs(e, id);
      MayActIs(st, e, MessageFor(st, e));
    }
  }

  lemma RemoveAllowed(st: State, e: Entry)
    ensures Removable(st, e) <==> AllowsRemove(st, e)
  {
    hide HoldsDevice;
    var rest := st.roster - {e.kind};
    DeviceHeld(rest);
    OtherMember(st.roster, e.kind);
    assert forall d :: d in rest <==> d in st.roster && d != e.kind;
  }

  lemma OtherMember(roster: map<string, Entry>, kind: string)
    ensures |roster - {kind}| > 0 <==> exists other <- roster :: other != kind
  {
    var rest := roster - {kind};
    assert |rest| == |rest.Keys|;
    if exists other <- roster :: other != kind {
      var other :| other in roster && other != kind;
      assert other in rest.Keys;
    }
    if |rest.Keys| > 0 {
      var other :| other in rest.Keys;
    }
  }

  lemma KeyFreeIs(st: State, e: Entry)
    ensures HasTwin(st.roster, e.kind, e.pubkey) <==> !KeyFree(st, e)
  {
  }

  lemma ResetAllowed(st: State, e: Entry)
    requires e.op == Reset && e.seqNo != 0
    ensures Authorised(st, e) && SeatsReset(st, e) <==> AllowsReset(st, e)
  {
    hide Verify, Carries, IsDevice;
    CarriesIs(if PASSPHRASE in st.roster then e.signatures else [],
              if PASSPHRASE in st.roster then st.roster[PASSPHRASE].pubkey else [],
              if PASSPHRASE in st.roster then st.roster[PASSPHRASE].algorithm else "", MessageFor(st, e));
    if e.meta.Some? && e.meta.value.reset.Some? && e.meta.value.reset.value.challenge.Some? {
      CarriesIs(e.signatures, e.pubkey, e.algorithm, Text(e.meta.value.reset.value.challenge.value));
    }
    DevicesAre(e.kind);
  }

  lemma StepAllowed(st: State, e: Entry)
    requires WellFormed(st) && |st.roster| > 0 && e.seqNo != 0
    ensures Authorised(st, e) && Effect(st, e).Ok? <==> Allows(st, e)
  {
    hide Threshold, MayAct, WellFormed, AllowsSeal, AllowsReset, AllowsRemove, KeyFree, HasTwin, Removable, ResetSigned,
         SeatsReset, Seated, NoteReset, DecodeId, RecordsOperator, Without;
    KeyFreeIs(st, e);
    match e.op {
      case SealId => SealAllowed(st, e);
      case Reset => ResetAllowed(st, e);
      case Remove => RemoveAllowed(st, e); MayActIs(st, e, MessageFor(st, e));
      case _ => MayActIs(st, e, MessageFor(st, e));
    }
  }

  /** An accepted chain can be extended by an entry exactly when the entry names its place and its predecessor's hash
      and the rules allow it; the first entry is an unsigned add. */
  lemma ExtendsExactly(chain: seq<Entry>, e: Entry)
    requires Accepted(chain)
    ensures Accepted(chain + [e]) <==>
            e.seqNo == |chain| &&
            if chain == [] then e.prev == None && e.op == Add && e.signatures == []
            else
              var last := chain[|chain| - 1];
              e.prev == Some(Digest(Body(last.seqNo, last.op, last.kind, last.pubkey, last.algorithm, last.prev,
                                         last.meta, None))) &&
              Allows(Replay(chain).value, e)
  {
    hide Authorised, Effect, Allows, WellFormed;
    var longer := chain + [e];
    assert longer[..|longer| - 1] == chain && longer[|longer| - 1] == e && chain[..|chain|] == chain;
    PositionAt(chain, |chain|);
    if chain == [] {
      if e.seqNo == 0 {
        FirstAllowed(e);
      }
    } else {
      AcceptedIsWellFormed(chain, |chain|);
      NeverEmpty(chain);
      if e.seqNo == |chain| {
        StepAllowed(Replay(chain).value, e);
      }
    }
  }

  lemma FirstAllowed(e: Entry)
    requires e.seqNo == 0
    ensures Authorised(EMPTY, e) && Effect(EMPTY, e).Ok? <==> e.op == Add && e.signatures == []
  {
  }

  // ------------------------------------------------------------------ rule by rule, at any place of an accepted chain

  lemma AllowedAt(chain: seq<Entry>, j: nat)
    requires Accepted(chain) && j < |chain|
    ensures chain[j].seqNo == j
    ensures j == 0 ==> chain[j].op == Add && chain[j].signatures == [] && chain[j].prev == None
    ensures j > 0 ==>
              chain[j].prev == Some(EntryHash(chain[j - 1])) && Allows(After(chain, j), chain[j])
  {
    hide Allows;
    AcceptedPrefix(chain, j);
    AcceptedPrefix(chain, j + 1);
    assert chain[..j] + [chain[j]] == chain[..j + 1];
    ExtendsExactly(chain[..j], chain[j]);
  }

  /** The seal follows a device, carries a printable id, and is signed over the digest with that id inside. */
  lemma SealTakesDevice(chain: seq<Entry>, j: nat)
    requires Accepted(chain) && j < |chain| && chain[j].op == SealId
    ensures j > 0 && After(chain, j).sealedId.None?
    ensures "recovery-phone" in After(chain, j).roster || "primary-phone" in After(chain, j).roster
    ensures chain[j].kind == "bootloader-id" && exists id :: Printable(chain[j].pubkey, id)
  {
    hide MayAct, Printable, CurvePoint;
    AllowedAt(chain, j);
  }

  /** A reset comes after the seal, under the passphrase, with the fresh key's signature over a challenge that names the
      intent, and seats the phone of its slot. */
  lemma ResetIsBound(chain: seq<Entry>, j: nat)
    requires Accepted(chain) && j < |chain| && chain[j].op == Reset
    ensures j > 0 && After(chain, j).sealedId.Some?
    ensures Signs(After(chain, j), "passphrase", chain[j].signatures, SignedForm(chain[j], After(chain, j).sealedId))
    ensures chain[j].meta.Some? && chain[j].meta.value.reset.Some?
    ensures var doc := chain[j].meta.value.reset.value;
            doc.challenge.Some? && "recto-reset-v1:" + doc.intentId + ":" <= doc.challenge.value &&
            Carries(chain[j].signatures, chain[j].pubkey, chain[j].algorithm, Text(doc.challenge.value)) &&
            ((doc.slot == Some("primary") && chain[j].kind == "primary-phone") ||
             (doc.slot == Some("recovery") && chain[j].kind == "recovery-phone"))
  {
    hide Carries, Signs, SignedForm;
    AllowedAt(chain, j);
  }

  /** Every other entry that follows is signed as the set stood: by the passphrase, and by a device once one was ever
      sealed, or by a majority of a set without a passphrase. */
  lemma EntryIsSigned(chain: seq<Entry>, j: nat)
    requires Accepted(chain) && 0 < j < |chain| && chain[j].op != Reset && chain[j].op != SealId
    ensures MayAct(After(chain, j), chain[j].signatures, SignedForm(chain[j], After(chain, j).sealedId))
  {
    hide MayAct;
    AllowedAt(chain, j);
  }

  /** A removal names the member it removes, never the passphrase, and leaves a member, and a device beside a passphrase
      once there ever was one. */
  lemma RemovalIsSafe(chain: seq<Entry>, j: nat)
    requires Accepted(chain) && j < |chain| && chain[j].op == Remove
    ensures j > 0 && AllowsRemove(After(chain, j), chain[j])
  {
    hide AllowsRemove, MayAct;
    AllowedAt(chain, j);
  }
}
