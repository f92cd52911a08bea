/** The cluster registry: leases that lapse are read as orphaned whether or not a sweep has written it down
    (recto/bootloader/clusters.py:63-98 and 181-287). */
module Clusters {
  import opened Wrappers

  datatype Status = Active | Retired | Orphaned

  datatype TokenHash = Sha(token: string)

  datatype Record = Record(region: string, ordinal: string, color: string, status: Status, created: int,
                           endpoints: map<string, string>, metadata: map<string, string>, ttl: int,
                           lastHeartbeat: int, retiredAt: Option<int>, retiredReason: Option<string>,
                           tokenHash: TokenHash)

  type Records = map<string, Record>

  predicate Lapsed(r: Record, now: int) {
    now - r.lastHeartbeat > r.ttl
  }

  /** The status with the lease applied. */
  function EffectiveStatus(r: Record, now: int): Status {
    if r.status != Active then r.status else if Lapsed(r, now) then Orphaned else Active
  }

  /** Everything a reader sees of a record: the effective status, and no token hash. */
  function PublicView(r: Record, now: int): Record {
    r.(status := EffectiveStatus(r, now), tokenHash := Sha(""))
  }

  function ListClusters(records: Records, now: int): Records {
    map id | id in records :: PublicView(records[id], now)
  }

  // ------------------------------------------------------------------ the operations

  /** The default lease, and what the host language takes for letters and digits and for lower case. */
  datatype Host = Host(lease: int, alphanumeric: char -> bool, lower: string -> string)

  /** Letters, digits and dashes, and not dashes alone. */
  predicate ValidName(host: Host, s: string) {
    (forall c <- s :: c == '-' || host.alphanumeric(c)) && exists c <- s :: c != '-'
  }

  datatype Op =
    | Register(region: string, ordinal: string, color: string, endpoints: map<string, string>,
               metadata: map<string, string>, ttl: Option<int>, token: string, now: int)
    | Heartbeat(id: string, token: string, endpoints: map<string, string>, metadata: map<string, string>, now: int)
    | Retire(id: string, token: string, reason: string, now: int)
    | Reap(now: int)

  function IdOf(host: Host, op: Op): string
    requires op.Register?
  {
    host.lower(op.region + "-" + op.ordinal + "-" + op.color)
  }

  function Authenticated(records: Records, id: string, token: string): Result<Record> {
    if id !in records || records[id].tokenHash != Sha(token) then Err else Ok(records[id])
  }

  function Swept(r: Record, now: int): Record {
    if r.status == Active && EffectiveStatus(r, now) == Orphaned then r.(status := Orphaned) else r
  }

  function Reaped(records: Records, now: int): Records {
    map id | id in records :: Swept(records[id], now)
  }

  /** One operation on a registry of the host: the records after it, or an error that leaves
      them as they were. */
  function Apply(records: Records, host: Host, op: Op): Result<Records> {
    match op
    case Register(region, ordinal, color, endpoints, metadata, lease, token, now) =>
      var id := IdOf(host, op);
      if !ValidName(host, region) || !ValidName(host, ordinal) || !ValidName(host, color) then Err
      else if id in records && records[id].status == Active then Err
      else
        Ok(records[id := Record(host.lower(region), host.lower(ordinal), host.lower(color), Active, now, endpoints,
                                metadata, if lease.None? || lease.value == 0 then host.lease else lease.value, now,
                                None, None, Sha(token))])
    case Heartbeat(id, token, endpoints, metadata, now) =>
      var r :- Authenticated(records, id, token);
      if r.status == Retired then Err
      else
        Ok(records[id := r.(status := Active, lastHeartbeat := now, endpoints := r.endpoints + endpoints,
                            metadata := r.metadata + metadata)])
    case Retire(id, token, reason, now) =>
      var r :- Authenticated(records, id, token);
      Ok(records[id := r.(status := Retired, retiredAt := Some(now), retiredReason := Some(reason))])
    case Reap(now) => Ok(Reaped(records, now))
  }

  function After(records: Records, host: Host, op: Op): Records {
    match Apply(records, host, op)
    case Ok(next) => next
    case Err => records
  }

  /** The record reads as active for exactly `lease` seconds from `now`. */
  ghost predicate ActiveFor(r: Record, now: int, lease: int) {
    forall later :: EffectiveStatus(r, later) == Active <==> later - now <= lease
  }

  /** The new entries are in, and every key they do not name keeps what it had. */
  ghost predicate Merges(before: map<string, string>, sent: map<string, string>, after: map<string, string>) {
    after.Keys == before.Keys + sent.Keys &&
    forall key <- after :: after[key] == if key in sent then sent[key] else before[key]
  }

  /** The records agree in every field but those named. */
  ghost predicate SameBut(a: Record, b: Record, fields: set<string>) {
    && a.region == b.region && a.ordinal == b.ordinal && a.color == b.color && a.created == b.created
    && a.ttl == b.ttl && a.tokenHash == b.tokenHash
    && ("status" in fields || a.status == b.status)
    && ("endpoints" in fields || a.endpoints == b.endpoints)
    && ("metadata" in fields || a.metadata == b.metadata)
    && ("lastHeartbeat" in fields || a.lastHeartbeat == b.lastHeartbeat)
    && ("retiredAt" in fields || a.retiredAt == b.retiredAt)
    && ("retiredReason" in fields || a.retiredReason == b.retiredReason)
  }

  ghost predicate OnlyTouches(before: Records, after: Records, id: string) {
    id in after && after - {id} == before - {id}
  }

  /** What `replace("-", "")` leaves. */
  function Undashed(s: string): string {
    if |s| == 0 then "" else (if s[0] == '-' then "" else [s[0]]) + Undashed(s[1..])
  }

  lemma {:induction false} UndashedIs(s: string)
    ensures forall c :: c in Undashed(s) <==> c in s && c != '-'
  {
    if |s| > 0 {
      UndashedIs(s[1..]);
      assert forall c :: c in s <==> c == s[0] || c in s[1..];
    }
  }

  /** A name is valid exactly when something is left of it without its dashes, and that is letters and digits only. */
  lemma ValidExactly(host: Host, s: string)
    ensures ValidName(host, s) <==>
            Undashed(s) != "" && forall c <- Undashed(s) :: host.alphanumeric(c)
  {
    UndashedIs(s);
    if Undashed(s) != "" {
      assert Undashed(s)[0] in Undashed(s);
    }
  }

  /** A listing has every record, says nothing of any token, and shows each as it is stored but for a lapsed lease,
      which it shows as orphaned. */
  lemma ListingShows(records: Records, now: int, id: string, token: TokenHash)
    requires id in records
    ensures ListClusters(records, now).Keys == records.Keys
    ensures ListClusters(records[id := records[id].(tokenHash := token)], now) == ListClusters(records, now)
    ensures var shown := ListClusters(records, now)[id];
            shown.(status := records[id].status, tokenHash := records[id].tokenHash) == records[id] &&
            shown.status == if records[id].status == Active && now > records[id].lastHeartbeat + records[id].ttl
                            then Orphaned else records[id].status
  {
    assert ListClusters(records[id := records[id].(tokenHash := token)], now) == ListClusters(records, now);
  }

  class ClusterRegistry {
    const host: Host
    var records: Records

    constructor (host: Host)
      ensures this.host == host && records == map[]
    {
      this.host := host;
      records := map[];
    }

    method DoRegister(op: Op) returns (r: Result<Record>)
      requires op.Register?
      modifies this
      ensures records == After(old(records), host, op)
      ensures r.Err? <==> !ValidName(host, op.region) || !ValidName(host, op.ordinal) || !ValidName(host, op.color) ||
                          (IdOf(host, op) in old(records) && old(records)[IdOf(host, op)].status == Active)
      ensures r.Err? ==> records == old(records)
      ensures r.Ok? ==> OnlyTouches(old(records), records, IdOf(host, op)) && r.value == records[IdOf(host, op)]
      ensures r.Ok? ==> IdOf(host, op) == host.lower(op.region + "-" + op.ordinal + "-" + op.color)
      ensures r.Ok? ==>
                r.value.region == host.lower(op.region) && r.value.ordinal == host.lower(op.ordinal) &&
                r.value.color == host.lower(op.color) &&
                r.value.tokenHash == Sha(op.token) && r.value.created == op.now &&
                r.value.endpoints == op.endpoints && r.value.metadata == op.metadata &&
                r.value.retiredAt.None? && r.value.retiredReason.None? &&
                ActiveFor(r.value, op.now, if op.ttl.None? || op.ttl.value == 0 then host.lease else op.ttl.value)
    {
      if !ValidName(host, op.region) || !ValidName(host, op.ordinal) || !ValidName(host, op.color) {
        return Err;
      }
      var id := IdOf(host, op);
      if id in records && records[id].status == Active {
        return Err;
      }
      var lease := if op.ttl.None? || op.ttl.value == 0 then host.lease else op.ttl.value;
      records := records[id := Record(host.lower(op.region), host.lower(op.ordinal), host.lower(op.color), Active,
                                      op.now, op.endpoints, op.metadata, lease, op.now, None, None, Sha(op.token))];
      return Ok(records[id]);
    }

    method DoHeartbeat(id: string, token: string, endpoints: map<string, string>, metadata: map<string, string>,
                       now: int) returns (r: Result<Record>)
      modifies this
      ensures records == After(old(records), host, Heartbeat(id, token, endpoints, metadata, now))
      ensures r.Err? <==> id !in old(records) || old(records)[id].tokenHash != Sha(token) ||
                          old(records)[id].status == Retired
      ensures r.Err? ==> records == old(records)
      ensures r.Ok? ==>
                OnlyTouches(old(records), records, id) && r.value == records[id] &&
                ActiveFor(r.value, now, old(records)[id].ttl) &&
                Merges(old(records)[id].endpoints, endpoints, r.value.endpoints) &&
                Merges(old(records)[id].metadata, metadata, r.value.metadata) &&
                SameBut(r.value, old(records)[id], {"status", "lastHeartbeat", "endpoints", "metadata"})
    {
      var rec :- Authenticated(records, id, token);
      if rec.status == Retired {
        return Err;
      }
      rec := rec.(status := Active, lastHeartbeat := now);
      rec := rec.(endpoints := rec.endpoints + endpoints, metadata := rec.metadata + metadata);
      records := records[id := rec];
      return Ok(rec);
    }

    method DoRetire(id: string, token: string, reason: string, now: int) returns (r: Result<Record>)
      modifies this
      ensures records == After(old(records), host, Retire(id, token, reason, now))
      ensures r.Err? <==> id !in old(records) || old(records)[id].tokenHash != Sha(token)
      ensures r.Err? ==> records == old(records)
      ensures r.Ok? ==>
                OnlyTouches(old(records), records, id) && r.value == records[id] &&
                (forall later :: EffectiveStatus(r.value, later) == Retired) &&
                r.value.retiredAt == Some(now) && r.value.retiredReason == Some(reason) &&
                SameBut(r.value, old(records)[id], {"status", "retiredAt", "retiredReason"})
    {
      var rec :- Authenticated(records, id, token);
      rec := rec.(status := Retired, retiredAt := Some(now), retiredReason := Some(reason));
      records := records[id := rec];
      return Ok(rec);
    }

    /** Writes down every lapsed lease, and says which: those read as orphaned from then on, whenever they are read. */
    method DoReap(now: int) returns (orphaned: set<string>)
      modifies this
      ensures records == After(old(records), host, Reap(now))
      ensures orphaned == set id | id in old(records) && old(records)[id].status == Active &&
                                   now > old(records)[id].lastHeartbeat + old(records)[id].ttl
      ensures records.Keys == old(records).Keys
      ensures forall id <- records | id !in orphaned :: records[id] == old(records)[id]
      ensures forall id <- orphaned :: SameBut(records[id], old(records)[id], {"status"}) &&
                                       forall later :: EffectiveStatus(records[id], later) == Orphaned
    {
      hide SameBut, Apply, After;
      orphaned := {};
      var rest := records.Keys;
      while rest != {}
        invariant rest <= old(records).Keys && records.Keys == old(records).Keys
        invariant forall id <- records :: records[id] == (if id in rest then old(records)[id]
                                                          else Swept(old(records)[id], now))
        invariant orphaned == set id | id in old(records) && id !in rest && old(records)[id].status == Active &&
                                       Lapsed(old(records)[id], now)
        decreases rest
      {
        var id :| id in rest;
        if records[id].status == Active && EffectiveStatus(records[id], now) == Orphaned {
          records := records[id := records[id].(status := Orphaned)];
          orphaned := orphaned + {id};
        }
        rest := rest - {id};
      }
      assert records == Reaped(old(records), now);
      ReapAfter(old(records), host, Reap(now));
      ReapedTells(old(records), now);
    }
  }

  lemma ReapedTells(before: Records, now: int)
    ensures forall id <- before ::
              if before[id].status == Active && now > before[id].lastHeartbeat + before[id].ttl
              then SameBut(Reaped(before, now)[id], before[id], {"status"}) &&
                   forall later :: EffectiveStatus(Reaped(before, now)[id], later) == Orphaned
              else Reaped(before, now)[id] == before[id]
  {
  }

  // ------------------------------------------------------------------ leases and tokens

  /** The records after a run of operations. */
  function Exec(host: Host, ops: seq<Op>): Records {
    if |ops| == 0 then map[] else After(Exec(host, ops[..|ops| - 1]), host, ops[|ops| - 1])
  }

  /** An accepted registration or heartbeat holds the lease for its length from that moment, and touches no other
      record. */
  lemma LeaseHolds(records: Records, host: Host, op: Op, later: int)
    requires (op.Register? || op.Heartbeat?) && Apply(records, host, op).Ok?
    ensures var id := if op.Register? then IdOf(host, op) else op.id;
            var after := After(records, host, op);
            var lease := if op.Heartbeat? then records[id].ttl
                         else if op.ttl.None? || op.ttl == Some(0) then host.lease else op.ttl.value;
            id in after && (EffectiveStatus(after[id], later) == Active <==> later - op.now <= lease) &&
            after - {id} == records - {id}
  {
    hide ValidName, IdOf;
  }

  /** The run registered this id with this token, and was accepted. */
  ghost predicate Registered(host: Host, ops: seq<Op>, id: string, token: string) {
    exists k :: 0 <= k < |ops| && RegisteredAt(host, ops, k, id, token)
  }

  ghost predicate RegisteredAt(host: Host, ops: seq<Op>, k: nat, id: string, token: string)
    requires k < |ops|
  {
    ops[k].Register? && IdOf(host, ops[k]) == id && ops[k].token == token &&
    Apply(Exec(host, ops[..k]), host, ops[k]).Ok?
  }

  lemma {:induction false} TokenRegistered(host: Host, ops: seq<Op>, id: string)
    requires id in Exec(host, ops)
    ensures Registered(host, ops, id, Exec(host, ops)[id].tokenHash.token)
  {
    if |ops| > 0 {
      var n := |ops| - 1;
      var token := Exec(host, ops)[id].tokenHash.token;
      TokenKept(Exec(host, ops[..n]), host, ops[n], id);
      if ops[n].Register? && IdOf(host, ops[n]) == id && Apply(Exec(host, ops[..n]), host, ops[n]).Ok? {
        assert RegisteredAt(host, ops, n, id, token);
      } else {
        TokenRegistered(host, ops[..n], id);
        RegisteredEarlier(host, ops, id, token);
      }
    }
  }

  lemma RegisteredEarlier(host: Host, ops: seq<Op>, id: string, token: string)
    requires |ops| > 0 && Registered(host, ops[..|ops| - 1], id, token)
    ensures Registered(host, ops, id, token)
  {
    hide Apply, Exec, IdOf;
    var init := ops[..|ops| - 1];
    var k :| 0 <= k < |init| && RegisteredAt(host, init, k, id, token);
    assert init[..k] == ops[..k];
    assert RegisteredAt(host, ops, k, id, token);
  }

  lemma TokenKept(records: Records, host: Host, op: Op, id: string)
    requires id in After(records, host, op)
    ensures if op.Register? && IdOf(host, op) == id && Apply(records, host, op).Ok?
            then After(records, host, op)[id].tokenHash == Sha(op.token)
            else id in records && After(records, host, op)[id].tokenHash == records[id].tokenHash
  {
    hide ValidName, IdOf, EffectiveStatus;
  }

  /** Renewing or retiring takes the token an accepted registration of the same id handed out. */
  lemma OnlyTheTokenActs(host: Host, ops: seq<Op>, op: Op)
    requires (op.Heartbeat? || op.Retire?) && Apply(Exec(host, ops), host, op).Ok?
    ensures Registered(host, ops, op.id, op.token)
  {
    TokenRegistered(host, ops, op.id);
  }

  // ------------------------------------------------------------------ a sweep changes nothing a reader sees

  function WithoutReaps(ops: seq<Op>): seq<Op> {
    if |ops| == 0 then []
    else WithoutReaps(ops[..|ops| - 1]) + if ops[|ops| - 1].Reap? then [] else [ops[|ops| - 1]]
  }

  ghost predicate Ordered(ops: seq<Op>) {
    forall i, j | 0 <= i < j < |ops| :: ops[i].now <= ops[j].now
  }

  /** The i-th operation is accepted and registers an id again that a sweep has written down as orphaned. */
  ghost predicate RegistersSwept(host: Host, ops: seq<Op>, i: int)
    requires 0 <= i < |ops|
  {
    var records := Exec(host, ops[..i]);
    ops[i].Register? && Apply(records, host, ops[i]).Ok? &&
    IdOf(host, ops[i]) in records && records[IdOf(host, ops[i])].status == Orphaned
  }

  ghost predicate NoneSwept(host: Host, ops: seq<Op>) {
    forall i | 0 <= i < |ops| :: !RegistersSwept(host, ops, i)
  }

  /** The records agree but for sweeps: where they differ, one is written down as orphaned and the other is a lease
      that has lapsed. */
  ghost predicate SweptAlike(swept: Records, lazy: Records, now: int) {
    swept.Keys == lazy.Keys &&
    forall id <- lazy ::
      swept[id] == lazy[id] ||
      (lazy[id].status == Active && Lapsed(lazy[id], now) && swept[id] == lazy[id].(status := Orphaned))
  }

  lemma AlikeLater(swept: Records, lazy: Records, now: int, later: int)
    requires SweptAlike(swept, lazy, now) && now <= later
    ensures SweptAlike(swept, lazy, later)
    ensures ListClusters(swept, later) == ListClusters(lazy, later)
  {
  }

  lemma ReapKeepsAlike(swept: Records, lazy: Records, now: int)
    requires SweptAlike(swept, lazy, now)
    ensures SweptAlike(Reaped(swept, now), lazy, now)
  {
  }

  lemma OpKeepsAlike(swept: Records, lazy: Records, host: Host, op: Op)
    requires SweptAlike(swept, lazy, op.now) && !op.Reap?
    requires op.Register? && Apply(swept, host, op).Ok? && IdOf(host, op) in swept ==>
               swept[IdOf(host, op)].status != Orphaned
    ensures Apply(swept, host, op).Ok? <==> Apply(lazy, host, op).Ok?
    ensures SweptAlike(After(swept, host, op), After(lazy, host, op), op.now)
  {
    hide ValidName, IdOf, Reaped;
  }

  /** Leaving every sweep out of a run that registers no swept id again leaves every later listing as it was. */
  lemma {:induction false} SweepsAreInvisible(host: Host, ops: seq<Op>, now: int)
    requires Ordered(ops) && NoneSwept(host, ops)
    requires |ops| > 0 ==> ops[|ops| - 1].now <= now
    ensures SweptAlike(Exec(host, ops), Exec(host, WithoutReaps(ops)), now)
    ensures ListClusters(Exec(host, ops), now) == ListClusters(Exec(host, WithoutReaps(ops)), now)
  {
    hide ListClusters, SweptAlike, Apply;
    if |ops| == 0 {
      NothingAlike(now);
    } else {
      var n := |ops| - 1;
      var init, op := ops[..n], ops[n];
      InitOf(host, ops);
      assert !RegistersSwept(host, ops, n);
      SweepsAreInvisible(host, init, op.now);
      var swept, lazy := Exec(host, init), Exec(host, WithoutReaps(init));
      if op.Reap? {
        ReapKeepsAlike(swept, lazy, op.now);
        ReapAfter(swept, host, op);
        assert WithoutReaps(init) + [] == WithoutReaps(init);
      } else {
        OpKeepsAlike(swept, lazy, host, op);
        LazyAfter(host, ops);
      }
      AlikeLater(Exec(host, ops), Exec(host, WithoutReaps(ops)), op.now, now);
    }
    AlikeLater(Exec(host, ops), Exec(host, WithoutReaps(ops)), now, now);
  }

  lemma LazyAfter(host: Host, ops: seq<Op>)
    requires |ops| > 0 && !ops[|ops| - 1].Reap?
    ensures var n := |ops| - 1;
            Exec(host, WithoutReaps(ops)) == After(Exec(host, WithoutReaps(ops[..n])), host, ops[n])
  {
    hide After;
    var n, rest := |ops| - 1, WithoutReaps(ops);
    assert rest[..|rest| - 1] == WithoutReaps(ops[..n]) && rest[|rest| - 1] == ops[n];
  }

  lemma ReapAfter(records: Records, host: Host, op: Op)
    requires op.Reap?
    ensures After(records, host, op) == Reaped(records, op.now)
  {
  }

  lemma NothingAlike(now: int)
    ensures SweptAlike(map[], map[], now)
  {
  }

  lemma InitOf(host: Host, ops: seq<Op>)
    requires |ops| > 0 && Ordered(ops) && NoneSwept(host, ops)
    ensures var n := |ops| - 1;
            Ordered(ops[..n]) && NoneSwept(host, ops[..n]) && (n > 0 ==> ops[..n][n - 1].now <= ops[n].now)
  {
    hide Exec, Apply;
    var n := |ops| - 1;
    forall i | 0 <= i < n
      ensures !RegistersSwept(host, ops[..n], i)
    {
      assert ops[..n][..i] == ops[..i];
      assert !RegistersSwept(host, ops, i);
    }
  }

  /** Registering a swept id again does tell the two apart: the swept registry accepts it, the other one still holds
      the lapsed lease and refuses; and unless that lease was negative the listings differ at once. */
  lemma ReRegistrationTells(swept: Records, lazy: Records, host: Host, op: Op)
    requires SweptAlike(swept, lazy, op.now) && op.Register? && Apply(swept, host, op).Ok?
    requires var id := IdOf(host, op);
             id in swept && swept[id].status == Orphaned && lazy[id].status != Orphaned
    ensures Apply(lazy, host, op).Err?
    ensures lazy[IdOf(host, op)].ttl >= 0 ==>
              ListClusters(After(swept, host, op), op.now) != ListClusters(After(lazy, host, op), op.now)
  {
    hide ValidName, IdOf;
    var id := IdOf(host, op);
    assert ListClusters(After(swept, host, op), op.now)[id].lastHeartbeat == op.now;
    assert ListClusters(lazy, op.now)[id].lastHeartbeat == lazy[id].lastHeartbeat;
  }

  /** No lease is asked for, or given by default, that lapses before it starts. */
  ghost predicate Leased(host: Host, ops: seq<Op>) {
    host.lease >= 0 && forall op <- ops :: op.Register? && op.ttl.Some? ==> op.ttl.value >= 0
  }

  /** Without sweeps nothing is ever written down as orphaned, and leases are as they were asked for. */
  lemma {:induction false} LazyRecords(host: Host, ops: seq<Op>, id: string)
    requires id in Exec(host, WithoutReaps(ops))
    ensures Exec(host, WithoutReaps(ops))[id].status != Orphaned
    ensures Leased(host, ops) ==> Exec(host, WithoutReaps(ops))[id].ttl >= 0
    decreases |ops|
  {
    hide ValidName, IdOf;
    if |ops| > 0 {
      var n := |ops| - 1;
      assert ops[n] in ops && forall op <- ops[..n] :: op in ops;
      if ops[n].Reap? {
        assert WithoutReaps(ops[..n]) + [] == WithoutReaps(ops[..n]);
        LazyRecords(host, ops[..n], id);
      } else {
        LazyAfter(host, ops);
        if id in Exec(host, WithoutReaps(ops[..n])) {
          LazyRecords(host, ops[..n], id);
        }
      }
    }
  }

  /** The last operation is accepted or refused as in the run without its sweeps. */
  ghost predicate SameAnswer(host: Host, ops: seq<Op>) {
    |ops| > 0 && !ops[|ops| - 1].Reap? ==>
      var init, op := ops[..|ops| - 1], ops[|ops| - 1];
      Apply(Exec(host, init), host, op).Ok? <==> Apply(Exec(host, WithoutReaps(init)), host, op).Ok?
  }

  /** Every listing from the last operation on is the listing of the run without its sweeps. */
  ghost predicate SameListing(host: Host, ops: seq<Op>) {
    forall now | |ops| > 0 ==> ops[|ops| - 1].now <= now ::
      ListClusters(Exec(host, ops), now) == ListClusters(Exec(host, WithoutReaps(ops)), now)
  }

  ghost predicate SameAnswers(host: Host, ops: seq<Op>) {
    forall n: nat | n <= |ops| :: SameAnswer(host, ops[..n])
  }

  ghost predicate SameListings(host: Host, ops: seq<Op>) {
    forall n: nat | n <= |ops| :: SameListing(host, ops[..n])
  }

  /** Sweeps show over exactly the runs that register again an id a sweep has written down: elsewhere every answer and
      every listing is what it is without them, there some answer is not, and with leases that are not negative some
      listing is not either. */
  lemma SweepsShowExactly(host: Host, ops: seq<Op>)
    requires Ordered(ops)
    ensures NoneSwept(host, ops) <==> SameAnswers(host, ops)
    ensures NoneSwept(host, ops) ==> SameListings(host, ops)
    ensures Leased(host, ops) ==> (SameListings(host, ops) <==> NoneSwept(host, ops))
  {
    hide SameAnswer, SameListing, RegistersSwept;
    if NoneSwept(host, ops) {
      forall n: nat | n <= |ops|
        ensures SameListing(host, ops[..n]) && SameAnswer(host, ops[..n])
      {
        PrefixNoneSwept(host, ops, n);
        UnsweptStage(host, ops[..n]);
      }
    } else {
      var i := FirstSwept(host, ops);
      SweptShows(host, ops, i);
    }
  }

  lemma UnsweptStage(host: Host, ops: seq<Op>)
    requires Ordered(ops) && NoneSwept(host, ops)
    ensures SameListing(host, ops) && SameAnswer(host, ops)
  {
    hide Exec, ListClusters, Apply, SweptAlike;
    forall now | |ops| > 0 ==> ops[|ops| - 1].now <= now
      ensures ListClusters(Exec(host, ops), now) == ListClusters(Exec(host, WithoutReaps(ops)), now)
    {
      SweepsAreInvisible(host, ops, now);
    }
    if |ops| > 0 && !ops[|ops| - 1].Reap? {
      var init, op := ops[..|ops| - 1], ops[|ops| - 1];
      InitOf(host, ops);
      SweepsAreInvisible(host, init, op.now);
      assert !RegistersSwept(host, ops, |ops| - 1);
      OpKeepsAlike(Exec(host, init), Exec(host, WithoutReaps(init)), host, op);
    }
  }

  /** With a negative lease the listings alone need not tell: registered, swept and registered again in one moment, the
      record is what it was. */
  lemma NegativeLeaseHides(host: Host, op: Op)
    requires op.Register? && op.ttl.Some? && op.ttl.value < 0
    requires ValidName(host, op.region) && ValidName(host, op.ordinal) && ValidName(host, op.color)
    ensures var ops := [op, Reap(op.now), op];
            Ordered(ops) && SameListings(host, ops) && !NoneSwept(host, ops)
  {
    hide Exec, Apply, WithoutReaps, SameListing, RegistersSwept;
    var ops := [op, Reap(op.now), op];
    var once := After(map[], host, op);
    SweptStages(host, op);
    SweptOnce(host, op);
    assert ops[..0] == [] && ops[..1] == [op] && ops[..2] == [op, Reap(op.now)] && ops[..3] == ops;
    StageListing(host, [], map[], map[], 0);
    StageListing(host, [op], once, once, op.now);
    StageListing(host, [op, Reap(op.now)], Reaped(once, op.now), once, op.now);
    StageListing(host, ops, once, once, op.now);
    SweptAgain(host, op);
  }

  /** The stages of that run, with and without the sweep. */
  lemma SweptStages(host: Host, op: Op)
    requires op.Register?
    ensures var once := After(map[], host, op);
            Exec(host, []) == map[] && WithoutReaps([]) == [] &&
            Exec(host, [op]) == once && WithoutReaps([op]) == [op] &&
            Exec(host, [op, Reap(op.now)]) == Reaped(once, op.now) && WithoutReaps([op, Reap(op.now)]) == [op] &&
            Exec(host, [op, Reap(op.now), op]) == After(Reaped(once, op.now), host, op) &&
            WithoutReaps([op, Reap(op.now), op]) == [op, op] &&
            Exec(host, [op, op]) == After(once, host, op)
  {
    hide Apply;
    var r := Reap(op.now);
    assert [op][..0] == [] && [op, r][..1] == [op] && [op, r, op][..2] == [op, r] && [op, op][..1] == [op];
    ReapAfter(After(map[], host, op), host, r);
  }

  lemma SweptOnce(host: Host, op: Op)
    requires op.Register? && op.ttl.Some? && op.ttl.value < 0
    requires ValidName(host, op.region) && ValidName(host, op.ordinal) && ValidName(host, op.color)
    ensures var once := After(map[], host, op);
            SweptAlike(Reaped(once, op.now), once, op.now) && After(once, host, op) == once &&
            After(Reaped(once, op.now), host, op) == once && SweptAlike(once, once, op.now)
  {
    hide ValidName;
  }

  lemma SweptAgain(host: Host, op: Op)
    requires op.Register? && op.ttl.Some? && op.ttl.value < 0
    requires ValidName(host, op.region) && ValidName(host, op.ordinal) && ValidName(host, op.color)
    ensures RegistersSwept(host, [op, Reap(op.now), op], 2)
  {
    hide ValidName, Exec;
    var ops := [op, Reap(op.now), op];
    SweptStages(host, op);
    assert ops[..2] == [op, Reap(op.now)];
  }

  lemma StageListing(host: Host, ops: seq<Op>, swept: Records, lazy: Records, from: int)
    requires Exec(host, ops) == swept && Exec(host, WithoutReaps(ops)) == lazy && SweptAlike(swept, lazy, from)
    requires if |ops| > 0 then from <= ops[|ops| - 1].now else swept == lazy
    ensures SameListing(host, ops)
  {
    hide Exec, WithoutReaps;
    SweptListing(swept, lazy, from);
  }

  lemma SweptListing(swept: Records, lazy: Records, from: int)
    requires SweptAlike(swept, lazy, from)
    ensures forall now | from <= now :: ListClusters(swept, now) == ListClusters(lazy, now)
  {
    forall now | from <= now
      ensures ListClusters(swept, now) == ListClusters(lazy, now)
    {
      AlikeLater(swept, lazy, from, now);
    }
  }

  lemma PrefixNoneSwept(host: Host, ops: seq<Op>, n: nat)
    requires n <= |ops| && Ordered(ops)
    requires forall i | 0 <= i < n :: !RegistersSwept(host, ops, i)
    ensures Ordered(ops[..n]) && NoneSwept(host, ops[..n])
  {
    hide Exec, Apply;
    forall i | 0 <= i < n
      ensures !RegistersSwept(host, ops[..n], i)
    {
      assert ops[..n][..i] == ops[..i];
      assert !RegistersSwept(host, ops, i);
    }
  }

  lemma FirstSwept(host: Host, ops: seq<Op>) returns (i: nat)
    requires !NoneSwept(host, ops)
    ensures i < |ops| && RegistersSwept(host, ops, i)
    ensures forall j | 0 <= j < i :: !RegistersSwept(host, ops, j)
  {
    hide RegistersSwept;
    i := 0;
    while !RegistersSwept(host, ops, i)
      invariant i < |ops| && forall j | 0 <= j < i :: !RegistersSwept(host, ops, j)
      decreases |ops| - i
    {
      var k :| 0 <= k < |ops| && RegistersSwept(host, ops, k);
      i := i + 1;
    }
  }

  /** At the first such registration the runs part. */
  lemma SweptShows(host: Host, ops: seq<Op>, i: nat)
    requires Ordered(ops) && i < |ops| && RegistersSwept(host, ops, i)
    requires forall j | 0 <= j < i :: !RegistersSwept(host, ops, j)
    ensures !SameAnswer(host, ops[..i + 1])
    ensures Leased(host, ops) ==> !SameListing(host, ops[..i + 1])
  {
    hide ListClusters, Apply, WithoutReaps;
    var before, op := ops[..i], ops[i];
    var stage := ops[..i + 1];
    assert stage[..i] == before && stage[i] == op;
    PrefixNoneSwept(host, ops, i);
    SweepsAreInvisible(host, before, op.now);
    assert Leased(host, ops) ==> Leased(host, before) by {
      assert forall x <- before :: x in ops;
    }
    var swept, lazy := Exec(host, before), Exec(host, WithoutReaps(before));
    AlikeKeys(swept, lazy, op.now);
    LazyRecords(host, before, IdOf(host, op));
    ReRegistrationTells(swept, lazy, host, op);
    LazyAfter(host, stage);
    assert Leased(host, ops) ==>
      ListClusters(Exec(host, stage), op.now) != ListClusters(Exec(host, WithoutReaps(stage)), op.now);
  }

  lemma AlikeKeys(swept: Records, lazy: Records, now: int)
    requires SweptAlike(swept, lazy, now)
    ensures swept.Keys == lazy.Keys
  {
  }

  /** A retired record stays retired until its id is registered again. */
  lemma {:induction false} RetiredStays(host: Host, ops: seq<Op>, id: string, i: nat)
    requires i <= |ops| && id in Exec(host, ops[..i]) && Exec(host, ops[..i])[id].status == Retired
    requires forall k | i <= k < |ops| && ops[k].Register? :: IdOf(host, ops[k]) != id
    ensures id in Exec(host, ops) && Exec(host, ops)[id].status == Retired
    decreases |ops|
  {
    hide ValidName, IdOf, EffectiveStatus;
    if i < |ops| {
      var n := |ops| - 1;
      assert ops[..n][..i] == ops[..i];
      RetiredStays(host, ops[..n], id, i);
    } else {
      assert ops[..i] == ops;
    }
  }
}
