/** The genesis membership chain: an append-only, hash-linked, signed log whose replay is the only source of authority
    (recto/bootloader/genesis_chain.py). Hashes and signatures are symbolic: a digest is a constructor over what was
    hashed, a signature a constructor over the key and the message. */
module GenesisChain {
  import opened Wrappers
  import opened Digits
  import Quorum
  import CurvePoints

  // ------------------------------------------------------------------ entries, hashes, messages, signatures

  datatype Op = Add | Remove | SealId | Rotate | Reset

  /** What a reset reads from its meta; absent when a field it needs is missing or of the wrong kind. */
  datatype ResetDoc = ResetDoc(intentId: string, challenge: Option<string>, slot: Option<string>)

  /** An entry's meta: its text, with what the two readers of that text make of it. */
  datatype Meta = Meta(text: string, reset: Option<ResetDoc>, operatorKey: Option<bytes>)

  datatype Hash = Digest(body: Body) | Foreign(text: string)

  /** The signed fields. The sealed id takes part in what is signed, never in an entry's hash. */
  datatype Body = Body(seqNo: int, op: Op, kind: string, pubkey: bytes, algorithm: string, prev: Option<Hash>,
                       meta: Option<Meta>, sealedId: Option<string>)

  datatype Message = Raw(body: Body) | Sha(digest: Hash) | Text(text: string)

  datatype Signature = Signed(key: bytes, algorithm: string, message: Message, salt: nat) | Garbage(data: bytes)

  datatype Entry = Entry(seqNo: int, op: Op, kind: string, pubkey: bytes, algorithm: string, prev: Option<Hash>,
                         signatures: seq<Signature>, meta: Option<Meta>)

  const PASSPHRASE: string := "passphrase"

  predicate IsDevice(kind: string) {
    kind == "recovery-phone" || kind == "primary-phone"
  }

  predicate Supported(algorithm: string) {
    algorithm == "ed25519" || algorithm == "ecdsa-p256"
  }

  function SigningBody(e: Entry, sealedId: Option<string>): Body {
    Body(e.seqNo, e.op, e.kind, e.pubkey, e.algorithm, e.prev, e.meta, sealedId)
  }

  function EntryHash(e: Entry): Hash {
    Digest(SigningBody(e, None))
  }

  /** The raw signing bytes before the seal; from the seal on, the digest with the sealed id inside. */
  function ActMessage(e: Entry, sealedId: Option<string>): Message {
    if sealedId.None? then Raw(SigningBody(e, None)) else Sha(Digest(SigningBody(e, sealedId)))
  }

  predicate Verify(key: bytes, algorithm: string, message: Message, sig: Signature) {
    Supported(algorithm) && sig.Signed? && sig.key == key && sig.algorithm == algorithm && sig.message == message
  }

  // ------------------------------------------------------------------ the state a replay builds

  /** `roster` and `order` are one Python dict: the entry of each kind, and the order kinds were first inserted in. */
  datatype State = State(roster: map<string, Entry>, order: seq<string>, sealedId: Option<string>,
                         operatorKey: Option<bytes>, sealedOperatorKey: Option<bytes>, deviceEver: bool,
                         resets: seq<string>, seats: set<(string, string)>, length: nat, previous: Option<Entry>)

  const EMPTY: State := State(map[], [], None, None, None, false, [], {}, 0, None)

  function Tip(st: State): Option<Hash> {
    if st.previous.None? then None else Some(EntryHash(st.previous.value))
  }

  predicate HoldsDevice(roster: map<string, Entry>) {
    exists kind <- roster :: IsDevice(kind)
  }

  function Without(order: seq<string>, kind: string): (r: seq<string>)
  {
    if |order| == 0 then []
    else Without(order[..|order| - 1], kind) + (if order[|order| - 1] == kind then [] else [order[|order| - 1]])
  }

  // ------------------------------------------------------------------ authority

  function Accepts(roster: map<string, Entry>, message: Message): (string, Signature) -> bool {
    (kind: string, sig: Signature) =>
      kind in roster && Verify(roster[kind].pubkey, roster[kind].algorithm, message, sig)
  }

  /** The member kinds some signature was attributed to. */
  function SatisfiedKinds(st: State, e: Entry, message: Message): set<string> {
    Quorum.Greedy(st.order, Accepts(st.roster, message), e.signatures)
  }

  function RequiredSignatures(n: nat): nat {
    n / 2 + 1
  }

  /** The passphrase and a device; the passphrase alone while no device was ever sealed; a majority of a set with no
      passphrase. */
  predicate Threshold(st: State, e: Entry, message: Message) {
    var satisfied := SatisfiedKinds(st, e, message);
    |st.roster| > 0 &&
    if PASSPHRASE !in st.roster then |satisfied| >= RequiredSignatures(|st.roster|)
    else PASSPHRASE in satisfied && (st.deviceEver ==> exists kind <- satisfied :: IsDevice(kind))
  }

  function Document(e: Entry): Option<ResetDoc> {
    if e.meta.None? then None else e.meta.value.reset
  }

  predicate Bound(doc: ResetDoc) {
    doc.challenge.Some? && "recto-reset-v1:" + doc.intentId + ":" <= doc.challenge.value
  }

  predicate Ascii(text: string) {
    forall c <- text :: c as int < 128
  }

  /** The passphrase over the act, and the fresh key over the challenge the reset bound. */
  predicate ResetSigned(st: State, e: Entry, message: Message) {
    PASSPHRASE in st.roster &&
    (exists sig <- e.signatures ::
       Verify(st.roster[PASSPHRASE].pubkey, st.roster[PASSPHRASE].algorithm, message, sig)) &&
    Document(e).Some? && Bound(Document(e).value) && Ascii(Document(e).value.challenge.value) &&
    exists sig <- e.signatures :: Verify(e.pubkey, e.algorithm, Text(Document(e).value.challenge.value), sig)
  }

  /** The id a seal-id entry carries: printable ASCII, not empty. */
  function DecodeId(e: Entry): Option<string> {
    if e.kind == "bootloader-id" && |e.pubkey| > 0 && forall b <- e.pubkey :: 32 <= b < 127
    then Some(seq(|e.pubkey|, i requires 0 <= i < |e.pubkey| => e.pubkey[i] as char))
    else None
  }

  /** The seal an entry is signed under: a seal-id entry is signed over its own id. */
  function SealFor(st: State, e: Entry): Option<string> {
    if e.op == SealId then DecodeId(e) else st.sealedId
  }

  function MessageFor(st: State, e: Entry): Message {
    ActMessage(e, SealFor(st, e))
  }

  predicate Authorised(st: State, e: Entry) {
    if e.seqNo == 0 then e.op == Add && e.signatures == []
    else
      (e.op == SealId ==> st.sealedId.None? && HoldsDevice(st.roster) && DecodeId(e).Some?) &&
      (e.op == Reset ==> st.sealedId.Some?) &&
      if e.op == Reset then ResetSigned(st, e, MessageFor(st, e)) else Threshold(st, e, MessageFor(st, e))
  }

  // ------------------------------------------------------------------ what an entry does

  function SlotKind(slot: Option<string>): Option<string> {
    if slot == Some("primary") then Some("primary-phone")
    else if slot == Some("recovery") then Some("recovery-phone")
    else None
  }

  predicate SeatsReset(st: State, e: Entry) {
    IsDevice(e.kind) && Document(e).Some? && SlotKind(Document(e).value.slot) == Some(e.kind) &&
    Seat(Document(e).value) !in st.seats
  }

  function Seat(doc: ResetDoc): (string, string) {
    (doc.intentId, if doc.slot.Some? then doc.slot.value else "")
  }

  predicate HasTwin(roster: map<string, Entry>, kind: string, pubkey: bytes) {
    exists other <- roster :: other != kind && roster[other].pubkey == pubkey
  }

  function Seated(st: State, e: Entry): State {
    st.(roster := st.roster[e.kind := e],
        order := if e.kind in st.roster then st.order else st.order + [e.kind],
        deviceEver := st.deviceEver || IsDevice(e.kind))
  }

  function NoteReset(st: State, e: Entry): State {
    if e.op == Reset && Document(e).Some? then
      var doc := Document(e).value;
      st.(seats := st.seats + {Seat(doc)},
          resets := if doc.intentId in st.resets then st.resets else st.resets + [doc.intentId])
    else st
  }

  predicate Removable(st: State, e: Entry) {
    e.kind in st.roster && e.pubkey == st.roster[e.kind].pubkey && e.algorithm == st.roster[e.kind].algorithm &&
    e.kind != PASSPHRASE &&
    var rest := st.roster - {e.kind};
    |rest| > 0 && !(st.deviceEver && PASSPHRASE in rest && !HoldsDevice(rest))
  }

  /** An operator key: a point on secp256k1, X then Y. */
  predicate OnSecp256k1(key: bytes) {
    |key| == 64 &&
    CurvePoints.OnCurve(CurvePoints.SECP256K1, CurvePoints.Affine(Value(256, key[..32]), Value(256, key[32..])))
  }

  predicate RecordsOperator(e: Entry) {
    e.meta.Some? && e.meta.value.operatorKey.Some? && OnSecp256k1(e.meta.value.operatorKey.value)
  }

  function Effect(st: State, e: Entry): Result<State> {
    match e.op
    case Add =>
      if HasTwin(st.roster, e.kind, e.pubkey) then Err else Ok(Seated(st, e))
    case Reset =>
      if !SeatsReset(st, e) || HasTwin(st.roster, e.kind, e.pubkey) then Err else Ok(Seated(NoteReset(st, e), e))
    case Remove =>
      if Removable(st, e) then Ok(st.(roster := st.roster - {e.kind}, order := Without(st.order, e.kind))) else Err
    case SealId =>
      if DecodeId(e).Some? && RecordsOperator(e)
      then Ok(st.(sealedId := DecodeId(e), sealedOperatorKey := e.meta.value.operatorKey))
      else Err
    case Rotate =>
      if e.kind == "operator" && |e.pubkey| == 64 then Ok(st.(operatorKey := Some(e.pubkey))) else Err
  }

  predicate Follows(st: State, e: Entry) {
    e.seqNo == st.length && e.prev == Tip(st)
  }

  function Advance(st: State, e: Entry): State {
    st.(length := st.length + 1, previous := Some(e))
  }

  function Step(st: State, e: Entry): Result<State> {
    if Follows(st, e) && Authorised(st, e) then
      var next :- Effect(st, e);
      Ok(Advance(next, e))
    else Err
  }

  /** The state a whole chain replays to; any break anywhere is an error. */
  function Replay(entries: seq<Entry>): Result<State> {
    if |entries| == 0 then Ok(EMPTY)
    else
      var before :- Replay(entries[..|entries| - 1]);
      Step(before, entries[|entries| - 1])
  }

  // ------------------------------------------------------------------ the loop of the source

  lemma {:induction false} ReplayPrefix(entries: seq<Entry>, n: nat)
    requires n <= |entries| && Replay(entries[..n]).Err?
    ensures Replay(entries).Err?
    decreases |entries|
  {
    if n < |entries| {
      assert entries[..|entries| - 1][..n] == entries[..n];
      ReplayPrefix(entries[..|entries| - 1], n);
    } else {
      assert entries[..n] == entries;
    }
  }

  /** Whether an entry may be read at all: the checks before its effect. */
  method CheckAuthority(st: State, e: Entry) returns (ok: bool)
    ensures ok <==> Authorised(st, e)
  {
    if e.seqNo == 0 {
      return e.op == Add && e.signatures == [];
    }
    var seal := st.sealedId;
    if e.op == SealId {
      if st.sealedId.Some? || !HoldsDevice(st.roster) || DecodeId(e).None? {
        return false;
      }
      seal := DecodeId(e);
    } else if e.op == Reset && st.sealedId.None? {
      return false;
    }
    var message := ActMessage(e, seal);
    if e.op == Reset {
      return ResetSigned(st, e, message);
    }
    if |st.roster| == 0 {
      return false;
    }
    var satisfied, _ := Quorum.Attribute(st.order, Accepts(st.roster, message), e.signatures);
    if PASSPHRASE !in st.roster {
      return |satisfied| >= RequiredSignatures(|st.roster|);
    }
    return PASSPHRASE in satisfied && (st.deviceEver ==> exists kind <- satisfied :: IsDevice(kind));
  }

  /** The effect of an authorised entry, as the loop updates its locals. */
  method Apply(st: State, entry: Entry) returns (r: Result<State>)
    ensures r == Effect(st, entry)
    ensures r.Ok? <==>
              match entry.op
              case Add => !HasTwin(st.roster, entry.kind, entry.pubkey)
              case Reset => !HasTwin(st.roster, entry.kind, entry.pubkey) && SeatsReset(st, entry)
              case Remove => Removable(st, entry)
              case SealId => DecodeId(entry).Some? && RecordsOperator(entry)
              case Rotate => entry.kind == "operator" && |entry.pubkey| == 64
    ensures r.Ok? ==>
              r.value.roster - {entry.kind} == st.roster - {entry.kind} &&
              (entry.op == Add || entry.op == Reset ==>
                 entry.kind in r.value.roster && r.value.roster[entry.kind] == entry &&
                 (IsDevice(entry.kind) ==> r.value.deviceEver)) &&
              (entry.op == Remove ==> entry.kind !in r.value.roster) &&
              (entry.op == SealId || entry.op == Rotate ==> r.value.roster == st.roster) &&
              (st.deviceEver ==> r.value.deviceEver) && st.seats <= r.value.seats &&
              r.value.length == st.length && r.value.previous == st.previous
  {
    var members, order, deviceEver := st.roster, st.order, st.deviceEver;
    if entry.op == Add || entry.op == Reset {
      var resets, seats := st.resets, st.seats;
      if entry.op == Reset {
        if !SeatsReset(st, entry) {
          return Err;
        }
        var doc := Document(entry).value;
        seats := seats + {Seat(doc)};
        if doc.intentId !in resets {
          resets := resets + [doc.intentId];
        }
      }
      if HasTwin(members, entry.kind, entry.pubkey) {
        return Err;
      }
      if entry.kind !in members {
        order := order + [entry.kind];
      }
      members := members[entry.kind := entry];
      if IsDevice(entry.kind) {
        deviceEver := true;
      }
      return Ok(st.(roster := members, order := order, deviceEver := deviceEver, resets := resets, seats := seats));
    } else if entry.op == Remove {
      if entry.kind !in members || entry.pubkey != members[entry.kind].pubkey
         || entry.algorithm != members[entry.kind].algorithm || entry.kind == PASSPHRASE {
        return Err;
      }
      members := members - {entry.kind};
      order := Without(order, entry.kind);
      if |members| == 0 || (deviceEver && PASSPHRASE in members && !HoldsDevice(members)) {
        return Err;
      }
      return Ok(st.(roster := members, order := order));
    } else if entry.op == SealId {
      if DecodeId(entry).None? || !RecordsOperator(entry) {
        return Err;
      }
      return Ok(st.(sealedId := DecodeId(entry), sealedOperatorKey := entry.meta.value.operatorKey));
    } else {
      if entry.kind != "operator" || |entry.pubkey| != 64 {
        return Err;
      }
      return Ok(st.(operatorKey := Some(entry.pubkey)));
    }
  }

  method ReplayState(entries: seq<Entry>) returns (r: Result<State>)
    ensures r == Replay(entries)
  {
    hide Authorised, Effect;
    var st := EMPTY;
    for index := 0 to |entries|
      invariant Replay(entries[..index]) == Ok(st) && st.length == index
    {
      var entry := entries[index];
      ghost var taken := entries[..index + 1];
      assert taken[..index] == entries[..index] && taken[index] == entry;
      assert Replay(taken) == Step(st, entry);
      if Step(st, entry).Err? {
        ReplayPrefix(entries, index + 1);
      }
      if entry.seqNo != index || entry.prev != Tip(st) {
        return Err;
      }
      var authorised := CheckAuthority(st, entry);
      if !authorised {
        return Err;
      }
      EffectKeepsLength(st, entry);
      var next :- Apply(st, entry);
      st := Advance(next, entry);
    }
    assert entries[..|entries|] == entries;
    return Ok(st);
  }

  lemma EffectKeepsLength(st: State, e: Entry)
    ensures Effect(st, e).Ok? ==> Effect(st, e).value.length == st.length
  {
  }
}
