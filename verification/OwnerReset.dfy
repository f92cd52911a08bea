/** The host's owner reset: a store update of several writes that may fail, or be cut off, at any of them
    (recto/cli.py:1358-1476 and recto/bootloader/owner_slots.py:233-248). */
module OwnerReset {
  import opened Wrappers

  datatype Genesis = Undecided | Open | Closed

  datatype Phone = Phone(id: string, ref: string, slot: string) {
    predicate Owner() {
      slot == "primary" || slot == "recovery"
    }
  }

  /** A request for an owner slot. */
  datatype Enroll = Enroll(requestId: string, approvedBy: Option<string>, occupant: Option<string>, refused: bool) {
    predicate Names(id: string) {
      approvedBy == Some(id) || occupant == Some(id)
    }
  }

  /** What the store holds. */
  datatype Books = Books(phones: seq<Phone>, genesis: Genesis, enrolls: seq<Enroll>)

  function Owners(phones: seq<Phone>): (rows: seq<Phone>)
    ensures forall p :: p in rows <==> p in phones && p.Owner()
    ensures |rows| <= |phones|
  {
    if |phones| == 0 then []
    else (if phones[0].Owner() then [phones[0]] else []) + Owners(phones[1..])
  }

  function Members(phones: seq<Phone>): seq<Phone> {
    if |phones| == 0 then []
    else (if phones[0].Owner() then [] else [phones[0]]) + Members(phones[1..])
  }

  function Drop(phones: seq<Phone>, id: string): seq<Phone> {
    if |phones| == 0 then []
    else (if phones[0].id == id then [] else [phones[0]]) + Drop(phones[1..], id)
  }

  ghost predicate Distinct(phones: seq<Phone>) {
    forall i, j | 0 <= i < j < |phones| :: phones[i].id != phones[j].id
  }

  /** Open genesis means no owner phone. */
  predicate Sound(b: Books) {
    b.genesis == Open ==> Owners(b.phones) == []
  }

  ghost predicate Voided(enrolls: seq<Enroll>, id: string) {
    forall e <- enrolls :: e.Names(id) ==> e.refused
  }

  // ------------------------------------------------------------------ what the command is given, and what it reports

  datatype Args = Args(everyOwnerLost: bool, slot: Option<string>, confirm: Option<string>, reopen: bool)

  /** What Python's split() takes for white space. */
  predicate Space(c: char) {
    var n := c as int;
    9 <= n <= 13 || 28 <= n <= 32 || n == 0x85 || n == 0xA0 || n == 0x1680 || 0x2000 <= n <= 0x200A ||
    n == 0x2028 || n == 0x2029 || n == 0x202F || n == 0x205F || n == 0x3000
  }

  /** A ref as it was pasted, without its white space. */
  function NormRef(ref: string): string {
    if |ref| == 0 then "" else (if Space(ref[0]) then "" else [ref[0]]) + NormRef(ref[1..])
  }

  function Split(text: string): (r: seq<string>)
    ensures |r| >= 1
  {
    if |text| == 0 then [""]
    else
      var rest := Split(text[1..]);
      if text[0] == ',' then [""] + rest else [[text[0]] + rest[0]] + rest[1..]
  }

  function Join(items: seq<string>): string {
    if |items| == 0 then ""
    else if |items| == 1 then items[0]
    else items[0] + "," + Join(items[1..])
  }

  function NormAll(items: seq<string>): (r: seq<string>)
    ensures |r| == |items|
  {
    if |items| == 0 then [] else [NormRef(items[0])] + NormAll(items[1..])
  }

  /** What a `--confirm` of the every-owner-lost path names. */
  function Items(confirm: string): seq<string> {
    NormAll(Split(confirm))
  }

  datatype Phase = Voiding | Revoking

  /** Refused before any write, finished, or cut off by the store, with the progress the report is written from. */
  datatype Outcome =
    | Refused
    | Finished
    | Failed(closed: bool, removed: seq<Phone>, removing: Option<Phone>, phase: Option<Phase>, held: seq<string>)

  // ------------------------------------------------------------------ the writes

  /** The books, how many more writes the store takes, and whether every write so far was taken. */
  datatype Run = Run(books: Books, left: nat, ok: bool)

  function RefuseFrom(b: Books, id: string, i: nat, left: nat): Run
    decreases |b.enrolls| - i
  {
    if i >= |b.enrolls| then Run(b, left, true)
    else if b.enrolls[i].refused || !b.enrolls[i].Names(id) then RefuseFrom(b, id, i + 1, left)
    else if left == 0 then Run(b, 0, false)
    else RefuseFrom(b.(enrolls := b.enrolls[i := b.enrolls[i].(refused := true)]), id, i + 1, left - 1)
  }

  function Refs(phones: seq<Phone>): seq<string> {
    if |phones| == 0 then []
    else
      var rest := Refs(phones[..|phones| - 1]);
      if phones[|phones| - 1].ref in rest then rest else rest + [phones[|phones| - 1].ref]
  }

  /** The loop over the targets from `i` on, and the reopening after it. */
  function RemoveFrom(b: Books, targets: seq<Phone>, i: nat, left: nat): (Books, Outcome)
    requires i <= |targets|
    decreases |targets| - i
  {
    if i == |targets| then
      if left == 0 then (b, Failed(true, targets, None, if i > 0 then Some(Revoking) else None, LastHeld(targets)))
      else (b.(genesis := Open), Finished)
    else
      var voided := RefuseFrom(b, targets[i].id, 0, left);
      if !voided.ok then
        (voided.books, Failed(true, targets[..i], Some(targets[i]), Some(Voiding), Refs(targets[i..])))
      else if voided.left == 0 then
        (voided.books, Failed(true, targets[..i], Some(targets[i]), Some(Revoking), Refs(targets[i..])))
      else
        RemoveFrom(voided.books.(phones := Drop(voided.books.phones, targets[i].id)), targets, i + 1, voided.left - 1)
  }

  /** What the report's list of held refs was last set to. */
  function LastHeld(targets: seq<Phone>): seq<string> {
    if |targets| == 0 then [] else Refs(targets[|targets| - 1..])
  }

  function Named(rows: seq<Phone>, items: seq<string>): seq<Phone> {
    if |rows| == 0 then []
    else (if rows[0].ref in items || rows[0].id in items then [rows[0]] else []) + Named(rows[1..], items)
  }

  predicate Unique(items: seq<string>) {
    forall i, j | 0 <= i < j < |items| :: items[i] != items[j]
  }

  /** The confirm check of the every-owner-lost path. */
  predicate Confirms(rows: seq<Phone>, items: seq<string>) {
    var targets := Named(rows, items);
    |targets| == |rows| && Unique(items) &&
    forall item <- items :: exists p <- targets :: p.ref == item || p.id == item
  }

  predicate NamesEveryOwner(rows: seq<Phone>, args: Args) {
    args.slot.None? && args.reopen && args.confirm.Some? && args.confirm.value != "" &&
    "" !in Items(args.confirm.value) && rows != [] && Confirms(rows, Items(args.confirm.value))
  }

  function EveryOwnerLost(b: Books, args: Args, left: nat): (Books, Outcome) {
    var rows := Owners(b.phones);
    if !NamesEveryOwner(rows, args) then (b, Refused)
    else if left == 0 then (b, Failed(false, [], None, None, []))
    else RemoveFrom(b.(genesis := Closed), Named(rows, Items(args.confirm.value)), 0, left - 1)
  }

  function FirstNamed(rows: seq<Phone>, confirm: string): Option<Phone> {
    if |rows| == 0 then None
    else if rows[0].ref == confirm || rows[0].id == confirm then Some(rows[0])
    else FirstNamed(rows[1..], confirm)
  }

  /** The one path that removes a single phone: only the last owner phone, and only with genesis reopened. */
  function RemoveLast(b: Books, args: Args, left: nat): (Books, Outcome)
    requires args.slot.Some? && args.confirm.Some?
  {
    var rows := Owners(b.phones);
    var target := FirstNamed(rows, NormRef(args.confirm.value));
    if target.None? || target.value.slot != args.slot.value || Drop(rows, target.value.id) != [] || !args.reopen
    then (b, Refused)
    else if left == 0 then (b, Failed(false, [], None, None, []))
    else
      var voided := RefuseFrom(b.(genesis := Closed), target.value.id, 0, left - 1);
      if !voided.ok then (voided.books, Failed(true, [], target, Some(Voiding), []))
      else if voided.left == 0 then (voided.books, Failed(true, [], target, Some(Revoking), []))
      else
        var gone := voided.books.(phones := Drop(voided.books.phones, target.value.id));
        if voided.left == 1 then (gone, Failed(true, [target.value], None, Some(Revoking), []))
        else (gone.(genesis := Open), Finished)
  }

  /** The whole command on an unsealed store that takes `left` more writes. */
  function Reset(b: Books, args: Args, left: nat): (Books, Outcome) {
    if args.everyOwnerLost then EveryOwnerLost(b, args, left)
    else if args.slot.None? && args.confirm.None? then
      if !args.reopen || Owners(b.phones) != [] then (b, Refused)
      else if left == 0 then (b, Failed(false, [], None, None, []))
      else (b.(genesis := Open), Finished)
    else if args.slot.None? || args.confirm.None? then (b, Refused)
    else RemoveLast(b, args, left)
  }

  // ------------------------------------------------------------------ the store, and the command on it

  class Store {
    var phones: seq<Phone>
    var genesis: Genesis
    var enrolls: seq<Enroll>
    /** How many more writes the store takes before it fails. */
    var left: nat

    ghost function Now(): Books
      reads this
    {
      Books(phones, genesis, enrolls)
    }

    method SetOwnerGenesis(state: Genesis) returns (ok: bool)
      modifies this`genesis, this`left
      ensures ok == (old(left) > 0) && left == (if ok then old(left) - 1 else 0)
      ensures genesis == if ok then state else old(genesis)
    {
      if left == 0 {
        return false;
      }
      genesis, left := state, left - 1;
      return true;
    }

    method RevokePhone(id: string) returns (ok: bool)
      modifies this`phones, this`left
      ensures ok == (old(left) > 0) && left == (if ok then old(left) - 1 else 0)
      ensures phones == if ok then Drop(old(phones), id) else old(phones)
    {
      if left == 0 {
        return false;
      }
      phones, left := Drop(phones, id), left - 1;
      return true;
    }

    method VoidOwnerEnrollsFor(id: string) returns (ok: bool)
      modifies this`enrolls, this`left
      ensures Run(Now(), left, ok) == RefuseFrom(old(Now()), id, 0, old(left))
    {
      var i := 0;
      while i < |enrolls|
        invariant RefuseFrom(Now(), id, i, left) == RefuseFrom(old(Now()), id, 0, old(left))
        decreases |enrolls| - i
      {
        if !enrolls[i].refused && enrolls[i].Names(id) {
          if left == 0 {
            return false;
          }
          enrolls, left := enrolls[i := enrolls[i].(refused := true)], left - 1;
        }
        i := i + 1;
      }
      return true;
    }

    method RemoveEveryTarget(targets: seq<Phone>) returns (r: Outcome)
      modifies this
      ensures (Now(), r) == RemoveFrom(old(Now()), targets, 0, old(left))
    {
      hide RefuseFrom, Refs, Drop;
      var removed: seq<Phone>, held: seq<string> := [], [];
      var phase: Option<Phase> := None;
      for i := 0 to |targets|
        invariant removed == targets[..i] && (i > 0 ==> held == Refs(targets[i - 1..])) && (i == 0 ==> held == [])
        invariant phase == if i > 0 then Some(Revoking) else None
        invariant RemoveFrom(Now(), targets, i, left) == RemoveFrom(old(Now()), targets, 0, old(left))
      {
        held := Refs(targets[i..]);
        phase := Some(Voiding);
        var voided := VoidOwnerEnrollsFor(targets[i].id);
        if !voided {
          return Failed(true, removed, Some(targets[i]), phase, held);
        }
        phase := Some(Revoking);
        var revoked := RevokePhone(targets[i].id);
        if !revoked {
          return Failed(true, removed, Some(targets[i]), phase, held);
        }
        removed := removed + [targets[i]];
      }
      assert targets[..|targets|] == targets;
      var reopened := SetOwnerGenesis(Open);
      if !reopened {
        return Failed(true, removed, None, phase, held);
      }
      return Finished;
    }

    method OwnerReset(args: Args) returns (r: Outcome)
      modifies this
      ensures (Now(), r) == Reset(old(Now()), args, old(left))
    {
      hide RefuseFrom, RemoveFrom, Confirms, FirstNamed, Named;
      var rows := Owners(phones);
      if args.everyOwnerLost {
        if args.slot.Some? || !args.reopen || args.confirm.None? || args.confirm.value == "" {
          return Refused;
        }
        var items := Items(args.confirm.value);
        if "" in items || rows == [] || !Confirms(rows, items) {
          return Refused;
        }
        var closed := SetOwnerGenesis(Closed);
        if !closed {
          return Failed(false, [], None, None, []);
        }
        r := RemoveEveryTarget(Named(rows, items));
        return;
      }
      if args.slot.None? && args.confirm.None? {
        if !args.reopen || rows != [] {
          return Refused;
        }
        var reopened := SetOwnerGenesis(Open);
        return if reopened then Finished else Failed(false, [], None, None, []);
      }
      if args.slot.None? || args.confirm.None? {
        return Refused;
      }
      var target := FirstNamed(rows, NormRef(args.confirm.value));
      if target.None? || target.value.slot != args.slot.value || Drop(rows, target.value.id) != [] || !args.reopen {
        return Refused;
      }
      var closed := SetOwnerGenesis(Closed);
      if !closed {
        return Failed(false, [], None, None, []);
      }
      var voided := VoidOwnerEnrollsFor(target.value.id);
      if !voided {
        return Failed(true, [], target, Some(Voiding), []);
      }
      var revoked := RevokePhone(target.value.id);
      if !revoked {
        return Failed(true, [], target, Some(Revoking), []);
      }
      var reopened := SetOwnerGenesis(Open);
      return if reopened then Finished else Failed(true, [target.value], None, Some(Revoking), []);
    }
  }

  // ------------------------------------------------------------------ one removal

  /** A ref is derived from the key: not empty, and with neither commas nor white space. */
  predicate PlainRef(ref: string) {
    ref != "" && forall c <- ref :: c != ',' && !Space(c)
  }

  ghost predicate WellKept(phones: seq<Phone>) {
    Distinct(phones) && forall p <- phones :: PlainRef(p.ref)
  }

  /** Requests are only ever refused, never revived, dropped or changed, and only those that name one of the phones. */
  ghost predicate OnlyRefused(before: seq<Enroll>, after: seq<Enroll>, ids: set<string>) {
    |before| == |after| &&
    forall i | 0 <= i < |before| ::
      after[i] == before[i] || (after[i] == before[i].(refused := true) && exists id <- ids :: before[i].Names(id))
  }

  function Ids(phones: seq<Phone>): set<string> {
    set p <- phones :: p.id
  }

  lemma VoidedStays(before: seq<Enroll>, after: seq<Enroll>, id: string, ids: set<string>)
    requires Voided(before, id) && OnlyRefused(before, after, ids)
    ensures Voided(after, id)
  {
    forall e | e in after && e.Names(id)
      ensures e.refused
    {
      var i :| 0 <= i < |after| && after[i] == e;
      assert before[i] in before;
    }
  }

  lemma OnlyRefusedTrans(a: seq<Enroll>, b: seq<Enroll>, c: seq<Enroll>, ids: set<string>)
    requires OnlyRefused(a, b, ids) && OnlyRefused(b, c, ids)
    ensures OnlyRefused(a, c, ids)
  {
    forall i | 0 <= i < |a|
      ensures c[i] == a[i] || (c[i] == a[i].(refused := true) && exists id <- ids :: a[i].Names(id))
    {
      assert b[i] == a[i] || b[i] == a[i].(refused := true);
    }
  }

  lemma OnlyRefusedMore(a: seq<Enroll>, b: seq<Enroll>, ids: set<string>, more: set<string>)
    requires OnlyRefused(a, b, ids) && ids <= more
    ensures OnlyRefused(a, b, more)
  {
  }

  function Pending(enrolls: seq<Enroll>): nat {
    if |enrolls| == 0 then 0
    else Pending(enrolls[..|enrolls| - 1]) + if enrolls[|enrolls| - 1].refused then 0 else 1
  }

  lemma PendingRefused(enrolls: seq<Enroll>, i: nat)
    requires i < |enrolls| && !enrolls[i].refused
    ensures Pending(enrolls) == Pending(enrolls[i := enrolls[i].(refused := true)]) + 1
  {
    var n := |enrolls| - 1;
    var after := enrolls[i := enrolls[i].(refused := true)];
    if i == n {
      assert after[..n] == enrolls[..n];
    } else {
      PendingRefused(enrolls[..n], i);
      assert after[..n] == enrolls[..n][i := enrolls[..n][i].(refused := true)];
    }
  }

  /** Refusing a phone's requests touches nothing else; it gets through exactly when none that names the phone is
      left. */
  lemma {:induction false} RefuseIs(b: Books, id: string, i: nat, left: nat)
    requires i <= |b.enrolls| && forall k | 0 <= k < i :: b.enrolls[k].Names(id) ==> b.enrolls[k].refused
    ensures var r := RefuseFrom(b, id, i, left);
            r.books.phones == b.phones && r.books.genesis == b.genesis &&
            OnlyRefused(b.enrolls, r.books.enrolls, {id}) && (!r.ok ==> r.left == 0) &&
            (r.ok <==> Voided(r.books.enrolls, id)) &&
            (r.ok ==> r.left + Pending(b.enrolls) == left + Pending(r.books.enrolls)) &&
            (left >= Pending(b.enrolls) ==> r.ok)
    decreases |b.enrolls| - i
  {
    hide Pending;
    if i < |b.enrolls| {
      if b.enrolls[i].refused || !b.enrolls[i].Names(id) {
        RefuseIs(b, id, i + 1, left);
      } else {
        PendingRefused(b.enrolls, i);
        if left > 0 {
          var next := b.(enrolls := b.enrolls[i := b.enrolls[i].(refused := true)]);
          assert RefuseFrom(b, id, i, left) == RefuseFrom(next, id, i + 1, left - 1);
          assert OnlyRefused(b.enrolls, next.enrolls, {id});
          RefuseIs(next, id, i + 1, left - 1);
          OnlyRefusedTrans(b.enrolls, next.enrolls, RefuseFrom(next, id, i + 1, left - 1).books.enrolls, {id});
        }
      }
    }
  }

  lemma {:induction false} DropIs(phones: seq<Phone>, id: string)
    requires WellKept(phones)
    ensures WellKept(Drop(phones, id))
    ensures forall p :: p in Drop(phones, id) <==> p in phones && p.id != id
  {
    if |phones| > 0 {
      DropIs(phones[1..], id);
      var rest := Drop(phones[1..], id);
      assert forall p :: p in phones <==> p == phones[0] || p in phones[1..];
      forall p | p in rest
        ensures p.id != phones[0].id
      {
        var i :| 0 <= i < |phones[1..]| && phones[1..][i] == p;
        assert phones[i + 1] == p;
      }
      DistinctCons(phones[0], rest);
    }
  }

  lemma DistinctCons(p: Phone, rest: seq<Phone>)
    requires Distinct(rest) && forall q <- rest :: q.id != p.id
    ensures Distinct([p] + rest)
  {
  }

  lemma {:induction false} DropAbsent(phones: seq<Phone>, id: string)
    requires forall p <- phones :: p.id != id
    ensures Drop(phones, id) == phones
  {
    if |phones| > 0 {
      DropAbsent(phones[1..], id);
    }
  }

  lemma Unlist(p: Phone, rest: seq<Phone>)
    ensures Owners([p] + rest) == if p.Owner() then [p] + Owners(rest) else Owners(rest)
    ensures Members([p] + rest) == if p.Owner() then Members(rest) else [p] + Members(rest)
    ensures forall id :: Drop([p] + rest, id) == if p.id == id then Drop(rest, id) else [p] + Drop(rest, id)
  {
    assert ([p] + rest)[1..] == rest;
  }

  lemma FirstAlone(p: Phone, rest: seq<Phone>)
    requires WellKept([p] + rest)
    ensures WellKept(rest) && forall q <- rest :: q.id != p.id
  {
    var phones := [p] + rest;
    forall q | q in rest
      ensures q in phones && q.id != p.id
    {
      var i :| 0 <= i < |rest| && rest[i] == q;
      assert phones[i + 1] == q && phones[0] == p;
    }
    forall i, j | 0 <= i < j < |rest|
      ensures rest[i].id != rest[j].id
    {
      assert phones[i + 1] == rest[i] && phones[j + 1] == rest[j];
    }
  }

  /** Removing the first owner listed leaves the other owners in order, and every member. */
  lemma {:induction false} DropFirstOwner(phones: seq<Phone>)
    requires WellKept(phones) && Owners(phones) != []
    ensures Owners(Drop(phones, Owners(phones)[0].id)) == Owners(phones)[1..]
    ensures Members(Drop(phones, Owners(phones)[0].id)) == Members(phones)
  {
    hide WellKept, Owners, Members, Drop;
    if phones == [] {
      NoneListed();
    } else {
      var p, rest := phones[0], phones[1..];
      assert phones == [p] + rest;
      Unlist(p, rest);
      FirstAlone(p, rest);
      var id := Owners(phones)[0].id;
      if p.Owner() {
        assert Owners(phones)[1..] == Owners(rest);
        DropAbsent(rest, id);
      } else {
        var first := Owners(rest)[0];
        assert first in Owners(rest);
        DropFirstOwner(rest);
        Unlist(p, Drop(rest, id));
      }
    }
  }

  lemma NoneListed()
    ensures Owners([]) == []
  {
  }

  // ------------------------------------------------------------------ the loop

  /** The report of a run cut off after the closed marker was written: the phones removed and the owners left are the
      owners there were, the phone in the report is the first one left, and its requests are all refused exactly when
      the report says the removal itself failed. */
  ghost predicate Tells(rows: seq<Phone>, after: Books, r: Outcome)
    requires r.Failed?
  {
    r.closed && after.genesis == Closed && rows == r.removed + Owners(after.phones) &&
    (r.removing == if Owners(after.phones) == [] then None else Some(Owners(after.phones)[0])) &&
    (r.removing.Some? ==>
       r.phase == if Voided(after.enrolls, r.removing.value.id) then Some(Revoking) else Some(Voiding)) &&
    (r.removing.None? ==> r.phase == Some(Revoking))
  }

  /** How far a run got, from the books and the report alone: the owners left are the targets not reported removed, and
      every phone reported removed had its requests refused. */
  ghost predicate GotThrough(phones: seq<Phone>, enrolls: seq<Enroll>, targets: seq<Phone>, removed: seq<Phone>) {
    removed <= targets && Owners(phones) == targets[|removed|..] &&
    forall p <- removed :: Voided(enrolls, p.id)
  }

  lemma SameRequests(enrolls: seq<Enroll>, ids: set<string>)
    ensures OnlyRefused(enrolls, enrolls, ids)
  {
  }

  lemma {:induction false} RemoveFromIs(b: Books, targets: seq<Phone>, i: nat, left: nat)
    requires WellKept(b.phones) && i <= |targets| && b.genesis == Closed
    requires GotThrough(b.phones, b.enrolls, targets, targets[..i])
    ensures var (after, r) := RemoveFrom(b, targets, i, left);
            WellKept(after.phones) && Members(after.phones) == Members(b.phones) &&
            OnlyRefused(b.enrolls, after.enrolls, Ids(targets)) && !r.Refused? &&
            (r.Failed? ==> after.genesis == Closed && r.closed &&
                           GotThrough(after.phones, after.enrolls, targets, r.removed)) &&
            (r.Failed? && r.removing.Some? ==>
               && |r.removed| < |targets| && r.held == Refs(targets[|r.removed|..])
               && r.removing.value == targets[|r.removed|]
               && r.phase == (if Voided(after.enrolls, targets[|r.removed|].id) then Some(Revoking)
                              else Some(Voiding))) &&
            (r.Failed? && r.removing.None? ==> r.removed == targets) &&
            (r.Failed? && r.removing.None? && targets != [] ==> r.phase == Some(Revoking)) &&
            (r.Finished? ==> after.genesis == Open && GotThrough(after.phones, after.enrolls, targets, targets)) &&
            (left > |targets| - i + Pending(b.enrolls) ==> r.Finished?)
    decreases |targets| - i
  {
    hide RefuseFrom, Refs, WellKept, GotThrough, OnlyRefused, Owners, Members, Drop, Pending, Voided, Ids;
    if i == |targets| {
      SameRequests(b.enrolls, Ids(targets));
      assert targets[..i] == targets;
    } else {
      RemoveOne(b, targets, i, left);
      var voided := RefuseFrom(b, targets[i].id, 0, left);
      if voided.ok && voided.left > 0 {
        var next := voided.books.(phones := Drop(voided.books.phones, targets[i].id));
        RemoveFromIs(next, targets, i + 1, voided.left - 1);
        OnlyRefusedTrans(b.enrolls, next.enrolls, RemoveFrom(next, targets, i + 1, voided.left - 1).0.enrolls,
                         Ids(targets));
      }
    }
  }

  lemma RemoveOne(b: Books, targets: seq<Phone>, i: nat, left: nat)
    requires WellKept(b.phones) && i < |targets| && GotThrough(b.phones, b.enrolls, targets, targets[..i])
    ensures var voided := RefuseFrom(b, targets[i].id, 0, left);
            var next := voided.books.(phones := Drop(voided.books.phones, targets[i].id));
            voided.books.phones == b.phones && voided.books.genesis == b.genesis &&
            GotThrough(voided.books.phones, voided.books.enrolls, targets, targets[..i]) &&
            OnlyRefused(b.enrolls, voided.books.enrolls, Ids(targets)) &&
            (voided.ok <==> Voided(voided.books.enrolls, targets[i].id)) &&
            (voided.ok ==> WellKept(next.phones) && Members(next.phones) == Members(b.phones) &&
                           GotThrough(next.phones, next.enrolls, targets, targets[..i + 1])) &&
            (voided.ok ==> voided.left + Pending(b.enrolls) == left + Pending(voided.books.enrolls)) &&
            (left >= Pending(b.enrolls) ==> voided.ok)
  {
    var id := targets[i].id;
    var voided := RefuseFrom(b, id, 0, left);
    RefuseIs(b, id, 0, left);
    forall p | p in targets[..i]
      ensures Voided(voided.books.enrolls, p.id)
    {
      VoidedStays(b.enrolls, voided.books.enrolls, p.id, {id});
    }
    assert targets[i] in targets;
    OnlyRefusedMore(b.enrolls, voided.books.enrolls, {id}, Ids(targets));
    assert Owners(b.phones)[0] == targets[i];
    DropIs(b.phones, id);
    DropFirstOwner(b.phones);
    assert targets[i..][1..] == targets[i + 1..];
    assert forall p <- targets[..i + 1] :: p in targets[..i] || p == targets[i];
  }

  lemma {:induction false} NamedAll(rows: seq<Phone>, items: seq<string>)
    ensures |Named(rows, items)| <= |rows|
    ensures |Named(rows, items)| == |rows| <==> forall p <- rows :: p.ref in items || p.id in items
    ensures |Named(rows, items)| == |rows| ==> Named(rows, items) == rows
  {
    if |rows| > 0 {
      NamedAll(rows[1..], items);
      assert forall p :: p in rows <==> p == rows[0] || p in rows[1..];
    }
  }

  /** The check passes exactly when every owner row is named, no item is repeated, and every item names a row. */
  lemma ConfirmsExactly(rows: seq<Phone>, items: seq<string>)
    ensures Confirms(rows, items) <==>
            Unique(items) && (forall p <- rows :: p.ref in items || p.id in items) &&
            forall item <- items :: exists p <- rows :: p.ref == item || p.id == item
  {
    NamedAll(rows, items);
  }

  // ------------------------------------------------------------------ the command

  lemma GoneIsVoided(phones: seq<Phone>, enrolls: seq<Enroll>, targets: seq<Phone>,
                     removed: seq<Phone>)
    requires GotThrough(phones, enrolls, targets, removed)
    ensures forall p <- targets :: p in Owners(phones) || Voided(enrolls, p.id)
  {
    hide Owners, Voided;
    forall p | p in targets
      ensures p in Owners(phones) || Voided(enrolls, p.id)
    {
      var i :| 0 <= i < |targets| && targets[i] == p;
      if i < |removed| {
        assert removed[i] == p;
      } else {
        assert targets[|removed|..][i - |removed|] == p;
      }
    }
  }

  lemma ConfirmedNamesAll(rows: seq<Phone>, args: Args)
    requires NamesEveryOwner(rows, args)
    ensures Named(rows, Items(args.confirm.value)) == rows && rows != []
  {
    NamedAll(rows, Items(args.confirm.value));
  }

  /** Whatever the outcome: open genesis still means no owner phone, members are untouched, and an owner phone that is
      gone had every request naming it refused. */
  ghost predicate Kept(b: Books, after: Books) {
    Sound(after) && WellKept(after.phones) && Members(after.phones) == Members(b.phones) &&
    OnlyRefused(b.enrolls, after.enrolls, Ids(Owners(b.phones))) &&
    forall p <- Owners(b.phones) :: p in Owners(after.phones) || Voided(after.enrolls, p.id)
  }

  /** The report of the every-owner-lost path tells what is left. */
  ghost predicate ReportsRest(after: Books, r: Outcome) {
    (r.Finished? ==> Owners(after.phones) == [] && after.genesis == Open) &&
    (r.Failed? && r.removing.Some? ==> r.held == Refs(Owners(after.phones)) && Owners(after.phones) != []) &&
    (r.Failed? && r.closed && r.removing.None? ==> Owners(after.phones) == [])
  }

  lemma LostRun(b: Books, left: nat)
    requires WellKept(b.phones) && b.genesis == Closed
    ensures var (after, r) := RemoveFrom(b, Owners(b.phones), 0, left);
            Kept(b, after) && ReportsRest(after, r) && !r.Refused? &&
            (r.Failed? && Owners(b.phones) != [] ==> Tells(Owners(b.phones), after, r)) &&
            (left > |Owners(b.phones)| + Pending(b.enrolls) ==> r.Finished?)
  {
    hide RemoveFrom, Refs, Owners, Members, Voided, WellKept, OnlyRefused, Pending, GotThrough;
    var rows := Owners(b.phones);
    GotNothing(b.phones, b.enrolls);
    RemoveFromIs(b, rows, 0, left);
    var (after, r) := RemoveFrom(b, rows, 0, left);
    var removed := if r.Failed? then r.removed else rows;
    OwnersLeft(after.phones, after.enrolls, rows, removed);
  }

  lemma EveryOwnerLostIs(b: Books, args: Args, left: nat)
    requires WellKept(b.phones) && Sound(b)
    ensures var (after, r) := EveryOwnerLost(b, args, left);
            Kept(b, after) && (r.Refused? ==> after == b) &&
            (r.Refused? <==> !NamesEveryOwner(Owners(b.phones), args)) && ReportsRest(after, r) &&
            (r.Failed? && left > 0 ==> Tells(Owners(b.phones), after, r)) &&
            (!r.Refused? && left > 1 + |Owners(b.phones)| + Pending(b.enrolls) ==> r.Finished?)
  {
    hide RemoveFrom, Refs, NamesEveryOwner, Voided, WellKept, Pending, ReportsRest, Kept, Tells;
    UntouchedIsKept(b);
    if NamesEveryOwner(Owners(b.phones), args) && left > 0 {
      ConfirmedNamesAll(Owners(b.phones), args);
      LostRun(b.(genesis := Closed), left - 1);
      KeptFromClosed(b, RemoveFrom(b.(genesis := Closed), Owners(b.phones), 0, left - 1).0);
    }
  }

  lemma UntouchedIsKept(b: Books)
    requires WellKept(b.phones) && Sound(b)
    ensures Kept(b, b) && ReportsRest(b, Refused) && ReportsRest(b, Failed(false, [], None, None, []))
  {
  }

  lemma KeptFromClosed(b: Books, after: Books)
    requires Kept(b.(genesis := Closed), after)
    ensures Kept(b, after)
  {
  }

  lemma GotNothing(phones: seq<Phone>, enrolls: seq<Enroll>)
    ensures GotThrough(phones, enrolls, Owners(phones), Owners(phones)[..0])
  {
    assert Owners(phones)[..0] == [];
  }

  lemma OwnersLeft(phones: seq<Phone>, enrolls: seq<Enroll>, targets: seq<Phone>,
                   removed: seq<Phone>)
    requires GotThrough(phones, enrolls, targets, removed)
    ensures |removed| <= |targets| && Owners(phones) == targets[|removed|..] && targets == removed + Owners(phones)
    ensures Owners(phones) == [] <==> |removed| == |targets|
    ensures forall p <- targets :: p in Owners(phones) || Voided(enrolls, p.id)
  {
    GoneIsVoided(phones, enrolls, targets, removed);
  }

  lemma {:induction false} OwnersWellKept(phones: seq<Phone>)
    requires WellKept(phones)
    ensures WellKept(Owners(phones))
  {
    if |phones| > 0 {
      var p, rest := phones[0], phones[1..];
      assert phones == [p] + rest;
      FirstAlone(p, rest);
      OwnersWellKept(rest);
      Unlist(p, rest);
      if p.Owner() {
        DistinctCons(p, Owners(rest));
      }
    }
  }

  lemma {:induction false} FirstNamedIn(rows: seq<Phone>, confirm: string)
    ensures FirstNamed(rows, confirm).Some? ==> FirstNamed(rows, confirm).value in rows
  {
    if |rows| > 0 {
      FirstNamedIn(rows[1..], confirm);
    }
  }

  /** A target with no other owner beside it is the only row. */
  lemma OnlyRow(rows: seq<Phone>, target: Phone)
    requires WellKept(rows) && target in rows && Drop(rows, target.id) == []
    ensures rows == [target]
  {
    DropIs(rows, target.id);
    assert |rows| > 1 ==> rows[0].id != rows[1].id;
    assert forall i | 0 <= i < |rows| :: rows[i] in rows && rows[i] !in Drop(rows, target.id);
  }

  /** The one owner phone there is holds the slot and goes by the name. */
  predicate SoleOwner(rows: seq<Phone>, slot: string, name: string) {
    |rows| == 1 && rows[0].slot == slot && (rows[0].ref == name || rows[0].id == name)
  }

  lemma SoleIsOnly(rows: seq<Phone>, slot: string, name: string)
    requires WellKept(rows)
    ensures SoleOwner(rows, slot, name) <==>
            FirstNamed(rows, name).Some? && FirstNamed(rows, name).value.slot == slot &&
            Drop(rows, FirstNamed(rows, name).value.id) == []
  {
    FirstNamedIn(rows, name);
    if FirstNamed(rows, name).Some? {
      FirstNamedIs(rows, name);
      if Drop(rows, FirstNamed(rows, name).value.id) == [] {
        OnlyRow(rows, FirstNamed(rows, name).value);
      }
    }
  }

  lemma {:induction false} FirstNamedIs(rows: seq<Phone>, name: string)
    requires FirstNamed(rows, name).Some?
    ensures FirstNamed(rows, name).value.ref == name || FirstNamed(rows, name).value.id == name
  {
    if rows[0].ref != name && rows[0].id != name {
      FirstNamedIs(rows[1..], name);
    }
  }

  /** Removing the last owner phone writes what removing every owner of a one-phone roster writes. */
  lemma RemoveLastIs(b: Books, args: Args, left: nat)
    requires WellKept(b.phones) && Sound(b) && args.slot.Some? && args.confirm.Some?
    ensures var (after, r) := RemoveLast(b, args, left);
            Kept(b, after) && (r.Refused? ==> after == b) &&
            (r.Refused? <==>
               !(args.reopen && SoleOwner(Owners(b.phones), args.slot.value, NormRef(args.confirm.value)))) &&
            (r.Finished? ==> Owners(after.phones) == [] && after.genesis == Open) &&
            (r.Failed? && r.closed && r.removing.None? ==> Owners(after.phones) == []) &&
            (r.Failed? && left > 0 ==> Tells(Owners(b.phones), after, r))
  {
    hide WellKept, Sound, RemoveLast, RemoveFrom, Kept, ReportsRest, Owners, Voided, NormRef;
    UntouchedIsKept(b);
    RemoveLastWrites(b, args, left);
    var rows := Owners(b.phones);
    if args.reopen && SoleOwner(rows, args.slot.value, NormRef(args.confirm.value)) && left > 0 {
      var closed := b.(genesis := Closed);
      var (after, r) := RemoveFrom(closed, rows, 0, left - 1);
      LostRun(closed, left - 1);
      KeptFromClosed(b, after);
      RestIs(after, r);
    }
  }

  /** A report that does not keep the refs still held. */
  function Forget(r: Outcome): Outcome {
    if r.Failed? then r.(held := []) else r
  }

  lemma RemoveLastWrites(b: Books, args: Args, left: nat)
    requires WellKept(b.phones) && args.slot.Some? && args.confirm.Some?
    ensures var rows := Owners(b.phones);
            if !(args.reopen && SoleOwner(rows, args.slot.value, NormRef(args.confirm.value)))
            then RemoveLast(b, args, left) == (b, Refused)
            else if left == 0 then RemoveLast(b, args, left) == (b, Failed(false, [], None, None, []))
            else
              var (after, r) := RemoveLast(b, args, left);
              var (after', r') := RemoveFrom(b.(genesis := Closed), rows, 0, left - 1);
              after == after' && r == Forget(r')
  {
    hide WellKept, FirstNamed, SoleOwner, Drop, RefuseFrom, RemoveFrom, Owners;
    var rows := Owners(b.phones);
    var name := NormRef(args.confirm.value);
    FirstNamedIn(rows, name);
    OwnersWellKept(b.phones);
    SoleIsOnly(rows, args.slot.value, name);
    if args.reopen && SoleOwner(rows, args.slot.value, name) && left > 0 {
      var target := FirstNamed(rows, name).value;
      OnlyRow(rows, target);
      OneTarget(b.(genesis := Closed), target, left - 1);
    }
  }

  lemma OneTarget(b: Books, p: Phone, left: nat)
    ensures var voided := RefuseFrom(b, p.id, 0, left);
            var gone := voided.books.(phones := Drop(voided.books.phones, p.id));
            var (after, r) := RemoveFrom(b, [p], 0, left);
            if !voided.ok then after == voided.books && Forget(r) == Failed(true, [], Some(p), Some(Voiding), [])
            else if voided.left == 0 then
              after == voided.books && Forget(r) == Failed(true, [], Some(p), Some(Revoking), [])
            else if voided.left == 1 then after == gone && Forget(r) == Failed(true, [p], None, Some(Revoking), [])
            else after == gone.(genesis := Open) && r.Finished?
  {
    hide RefuseFrom, Drop, Refs;
  }

  /** Every path and every point at which the store may fail or the command be cut off keeps what it must. */
  lemma EveryCutKeeps(b: Books, args: Args, left: nat)
    requires WellKept(b.phones) && Sound(b)
    ensures var (after, r) := Reset(b, args, left);
            Kept(b, after) && (r.Refused? ==> after == b) &&
            (r.Finished? ==> Owners(after.phones) == [] && after.genesis == Open)
  {
    hide WellKept, Voided, Members, RemoveLast, EveryOwnerLost, ReportsRest, NamesEveryOwner;
    UntouchedIsKept(b);
    if args.everyOwnerLost {
      EveryOwnerLostIs(b, args, left);
      RestIs(EveryOwnerLost(b, args, left).0, EveryOwnerLost(b, args, left).1);
    } else if args.slot.Some? && args.confirm.Some? {
      RemoveLastIs(b, args, left);
    }
  }

  /** What the report of a failure says is what happened, on every path and wherever the store failed: nothing was
      closed and nothing changed exactly when not one write landed; otherwise the phones it lists as removed and the
      owners left are the owners there were, the phone it was removing is the first one left, and the step it stopped
      in tells whether every request naming that phone was refused. */
  lemma ReportTells(b: Books, args: Args, left: nat)
    requires WellKept(b.phones) && Sound(b)
    ensures left == 0 ==> Reset(b, args, left).0 == b && !Reset(b, args, left).1.Finished?
    ensures var (after, r) := Reset(b, args, left);
            r.Failed? ==>
              && (r.closed <==> left > 0)
              && (!r.closed ==> after == b && r.removed == [] && r.removing.None? && r.phase.None?)
              && (r.closed ==> Tells(Owners(b.phones), after, r))
  {
    hide WellKept, Sound, Kept, EveryOwnerLost, RemoveLast, ReportsRest, Voided, Owners, NamesEveryOwner;
    if args.everyOwnerLost {
      EveryOwnerLostIs(b, args, left);
      NoWriteLost(b, args);
    } else if args.slot.Some? && args.confirm.Some? {
      RemoveLastIs(b, args, left);
      NoWriteLast(b, args);
    }
  }

  lemma NoWriteLost(b: Books, args: Args)
    ensures var (after, r) := EveryOwnerLost(b, args, 0);
            after == b && (r.Refused? || r == Failed(false, [], None, None, []))
  {
  }

  lemma NoWriteLast(b: Books, args: Args)
    requires args.slot.Some? && args.confirm.Some?
    ensures var (after, r) := RemoveLast(b, args, 0);
            after == b && (r.Refused? || r == Failed(false, [], None, None, []))
  {
  }

  lemma {:induction false} MembersAre(phones: seq<Phone>)
    ensures forall p :: p in Members(phones) <==> p in phones && !p.Owner()
  {
    if |phones| > 0 {
      MembersAre(phones[1..]);
      assert forall p :: p in phones <==> p == phones[0] || p in phones[1..];
    }
  }

  /** The phone holds one of the two owner slots. */
  predicate HoldsSlot(p: Phone) {
    p.slot in {"primary", "recovery"}
  }

  /** The request was approved by the phone, or names it as the occupant. */
  predicate Mentions(e: Enroll, p: Phone) {
    e.approvedBy == Some(p.id) || e.occupant == Some(p.id)
  }

  /** The same, phone by phone and request by request: no phone is added, a phone in neither owner slot stays, one
      that is gone has no open request that mentions it, a request changes only by being refused and only when it
      mentions an owner phone, and genesis stands open with no owner phone or not at all. */
  lemma CutByCut(b: Books, args: Args, left: nat)
    requires WellKept(b.phones) && Sound(b)
    ensures var (after, r) := Reset(b, args, left);
            && (forall p <- after.phones :: p in b.phones)
            && (forall p <- b.phones | !HoldsSlot(p) :: p in after.phones)
            && (forall p <- b.phones | p !in after.phones :: forall e <- after.enrolls | Mentions(e, p) :: e.refused)
            && |after.enrolls| == |b.enrolls|
            && (forall i | 0 <= i < |b.enrolls| && after.enrolls[i] != b.enrolls[i] ::
                  after.enrolls[i] == b.enrolls[i].(refused := true) &&
                  exists p <- b.phones :: HoldsSlot(p) && Mentions(b.enrolls[i], p))
            && (r.Finished? || after.genesis == Open ==> forall p <- after.phones :: !HoldsSlot(p))
            && (r.Finished? ==> after.genesis == Open)
  {
    hide WellKept, Reset, Owners, Members;
    var (after, r) := Reset(b, args, left);
    EveryCutKeeps(b, args, left);
    ReportTells(b, args, left);
    MembersAre(b.phones);
    MembersAre(after.phones);
    forall i | 0 <= i < |b.enrolls| && after.enrolls[i] != b.enrolls[i]
      ensures after.enrolls[i] == b.enrolls[i].(refused := true)
      ensures exists p <- b.phones :: HoldsSlot(p) && Mentions(b.enrolls[i], p)
    {
      var id :| id in Ids(Owners(b.phones)) && b.enrolls[i].Names(id);
      var p :| p in Owners(b.phones) && p.id == id;
      assert HoldsSlot(p) && Mentions(b.enrolls[i], p);
    }
    forall p | p in b.phones && p !in after.phones
      ensures forall e <- after.enrolls | Mentions(e, p) :: e.refused
    {
      assert p in Owners(b.phones);
    }
  }

  /** Which commands are carried out, the rest being refused: the removal of every owner, with genesis to be reopened,
      no slot given, and each owner phone named once and nothing else; the reopening alone, with no owner phone left;
      and the removal of the one owner phone there is, by its slot and name, with genesis to be reopened. */
  lemma RefusedExactly(b: Books, args: Args, left: nat)
    requires WellKept(b.phones) && Sound(b)
    ensures !Reset(b, args, left).1.Refused? <==>
            var rows := Owners(b.phones);
            args.reopen &&
            match (args.everyOwnerLost, args.slot, args.confirm)
            case (true, None, Some(confirm)) =>
              && rows != [] && "" !in Items(confirm)
              && (forall p <- rows :: p.ref in Items(confirm) || p.id in Items(confirm))
              && (forall item <- Items(confirm) :: exists p <- rows :: p.ref == item || p.id == item)
              && forall i, j | 0 <= i < j < |Items(confirm)| :: Items(confirm)[i] != Items(confirm)[j]
            case (false, None, None) => rows == []
            case (false, Some(slot), Some(confirm)) =>
              && |rows| == 1 && rows[0].slot == slot
              && (rows[0].ref == NormRef(confirm) || rows[0].id == NormRef(confirm))
            case _ => false
  {
    hide WellKept, Sound, Kept, EveryOwnerLost, RemoveLast, ReportsRest, Tells, Owners, Confirms, Items, NormRef;
    if args.everyOwnerLost {
      EveryOwnerLostIs(b, args, left);
      if args.confirm.Some? {
        EmptyItem(args.confirm.value);
        ConfirmsExactly(Owners(b.phones), Items(args.confirm.value));
      }
    } else if args.slot.Some? && args.confirm.Some? {
      RemoveLastIs(b, args, left);
    }
  }

  lemma EmptyItem(confirm: string)
    ensures confirm == "" ==> "" in Items(confirm)
  {
    assert Items("") == [""];
  }

  lemma RestIs(after: Books, r: Outcome)
    requires ReportsRest(after, r)
    ensures r.Finished? ==> Owners(after.phones) == [] && after.genesis == Open
    ensures r.Failed? && r.closed && r.removing.None? ==> Owners(after.phones) == []
  {
  }

  lemma {:induction false} RefsAre(rows: seq<Phone>)
    requires forall p <- rows :: PlainRef(p.ref)
    ensures Unique(Refs(rows)) && forall ref <- Refs(rows) :: PlainRef(ref)
    ensures forall p <- rows :: p.ref in Refs(rows)
    ensures forall ref <- Refs(rows) :: exists p <- rows :: p.ref == ref
  {
    if |rows| > 0 {
      var n := |rows| - 1;
      RefsAre(rows[..n]);
      assert rows[n] in rows;
      assert forall p :: p in rows <==> p in rows[..n] || p == rows[n];
      forall ref | ref in Refs(rows)
        ensures exists p <- rows :: p.ref == ref
      {
        if ref in Refs(rows[..n]) {
          var p :| p in rows[..n] && p.ref == ref;
          assert p in rows;
        } else {
          assert rows[n].ref == ref;
        }
      }
    }
  }

  lemma {:induction false} SplitOne(item: string, rest: string)
    requires forall c <- item :: c != ','
    ensures Split(item) == [item]
    ensures Split(item + "," + rest) == [item] + Split(rest)
  {
    var text := item + "," + rest;
    if |item| > 0 {
      assert item[0] in item && forall c <- item[1..] :: c in item;
      SplitOne(item[1..], rest);
      assert [[item[0]] + item[1..]] + [] == [[item[0]] + item[1..]];
      assert text[1..] == item[1..] + "," + rest && text[0] == item[0];
      assert [item[0]] + item[1..] == item;
    } else {
      assert text[1..] == rest && text[0] == ',';
    }
  }

  lemma {:induction false} SplitJoin(items: seq<string>)
    requires |items| > 0 && forall item <- items :: PlainRef(item)
    ensures Split(Join(items)) == items && Join(items) != ""
  {
    hide Split;
    assert PlainRef(items[0]);
    if |items| == 1 {
      SplitOne(items[0], "");
    } else {
      SplitOne(items[0], Join(items[1..]));
      SplitJoin(items[1..]);
      assert items == [items[0]] + items[1..];
    }
  }

  lemma {:induction false} NormPlain(ref: string)
    requires PlainRef(ref) || ref == ""
    ensures NormRef(ref) == ref
  {
    if |ref| > 0 {
      assert ref[0] in ref && forall c <- ref[1..] :: c in ref;
      NormPlain(ref[1..]);
      assert [ref[0]] + ref[1..] == ref;
    }
  }

  /** The code points of white space, as the Unicode character database lists them, and the four separators 28 to 31. */
  const WHITE_SPACE: set<int> := {
    0x09, 0x0A, 0x0B, 0x0C, 0x0D, 0x1C, 0x1D, 0x1E, 0x1F, 0x20, 0x85, 0xA0, 0x1680, 0x2000, 0x2001, 0x2002, 0x2003,
    0x2004, 0x2005, 0x2006, 0x2007, 0x2008, 0x2009, 0x200A, 0x2028, 0x2029, 0x202F, 0x205F, 0x3000
  }

  lemma {:induction false} NormRefJoin(a: string, b: string)
    ensures NormRef(a + b) == NormRef(a) + NormRef(b)
  {
    if |a| == 0 {
      assert a + b == b;
    } else {
      assert (a + b)[1..] == a[1..] + b;
      NormRefJoin(a[1..], b);
    }
  }

  /** White space anywhere in a ref as it was pasted makes no difference, and nothing else is left out. */
  lemma PastedRef(a: string, c: char, b: string)
    ensures NormRef(a + [c] + b) == NormRef(a) + (if c as int in WHITE_SPACE then "" else [c]) + NormRef(b)
  {
    hide Space, NormRef;
    NormRefJoin(a + [c], b);
    NormRefJoin(a, [c]);
    OneLeft(c);
  }

  lemma OneLeft(c: char)
    ensures NormRef([c]) == if c as int in WHITE_SPACE then "" else [c]
  {
    hide Space;
    SpaceIs(c);
    assert NormRef([c][1..]) == "";
  }

  lemma SpaceIs(c: char)
    ensures Space(c) <==> c as int in WHITE_SPACE
  {
  }

  lemma {:induction false} NormAllPlain(items: seq<string>)
    requires forall item <- items :: PlainRef(item)
    ensures NormAll(items) == items
  {
    hide NormRef, PlainRef;
    if |items| > 0 {
      NormPlain(items[0]);
      NormAllPlain(items[1..]);
    }
  }

  /** Refs printed with commas between them are read back as they were. */
  lemma ItemsOfJoin(items: seq<string>)
    requires |items| > 0 && forall item <- items :: PlainRef(item)
    ensures Items(Join(items)) == items && Join(items) != ""
  {
    SplitJoin(items);
    NormAllPlain(items);
  }

  /** The command the report prints. */
  function Printed(held: seq<string>): Args {
    Args(true, None, Some(Join(held)), true)
  }

  /** The refs of the rows that are left, printed, confirm them. */
  lemma {:induction false} RefsConfirm(rows: seq<Phone>)
    requires rows != [] && forall p <- rows :: PlainRef(p.ref)
    ensures NamesEveryOwner(rows, Printed(Refs(rows)))
  {
    hide Confirms, Join, Items, Refs;
    RefsAre(rows);
    assert rows[0].ref in Refs(rows);
    assert "" !in Refs(rows);
    ItemsOfJoin(Refs(rows));
    ConfirmsExactly(rows, Refs(rows));
  }

  /** After the removal of some phones failed midway, the refs the report prints name exactly the owner rows left; the
      command it prints, read back, is accepted, and given enough writes it empties the slots and reopens genesis. */
  lemma RerunFinishes(b: Books, args: Args, left: nat, again: nat)
    requires WellKept(b.phones) && Sound(b) && args.everyOwnerLost
    requires Reset(b, args, left).1.Failed? && Reset(b, args, left).1.removing.Some?
    ensures var (after, r) := Reset(b, args, left);
            NamesEveryOwner(Owners(after.phones), Printed(r.held)) &&
            (again > 1 + |Owners(after.phones)| + Pending(after.enrolls) ==>
               var (done, end) := Reset(after, Printed(r.held), again);
               end.Finished? && Owners(done.phones) == [] && done.genesis == Open)
  {
    hide EveryOwnerLost, NamesEveryOwner, Refs, Join, PlainRef;
    var (after, r) := Reset(b, args, left);
    EveryOwnerLostIs(b, args, left);
    RefsConfirm(Owners(after.phones));
    EveryOwnerLostIs(after, Printed(r.held), again);
  }

  /** After everything was removed but genesis could not be reopened, the reopening alone finishes. */
  lemma ReopenFinishes(b: Books, args: Args, left: nat, again: nat)
    requires WellKept(b.phones) && Sound(b) && again > 0
    requires var r := Reset(b, args, left).1; r.Failed? && r.closed && r.removing.None?
    ensures var after := Reset(b, args, left).0;
            Reset(after, Args(false, None, None, true), again) == (after.(genesis := Open), Finished)
  {
    hide EveryOwnerLost, RemoveLast;
    if args.everyOwnerLost {
      EveryOwnerLostIs(b, args, left);
    } else if args.slot.Some? && args.confirm.Some? {
      RemoveLastIs(b, args, left);
    }
  }
}
