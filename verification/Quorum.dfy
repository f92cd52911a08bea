/** Greedy attribution of signatures to members, and the k-of-n count on top of it: recto/quorum.py:106-182. */
module Quorum {
  import opened Wrappers

  ghost predicate DistinctIds(ids: seq<string>) {
    forall i, j | 0 <= i < j < |ids| :: ids[i] != ids[j]
  }

  /** The first member in order that is not satisfied yet and accepts the signature. */
  function FirstMatch<S>(ids: seq<string>, accepts: (string, S) -> bool, satisfied: set<string>, sig: S): Option<string>
  {
    if |ids| == 0 then None
    else if ids[0] !in satisfied && accepts(ids[0], sig) then Some(ids[0])
    else FirstMatch(ids[1..], accepts, satisfied, sig)
  }

  /** The members satisfied after the signatures have been taken in order, each by at most one member. */
  function Greedy<S>(ids: seq<string>, accepts: (string, S) -> bool, sigs: seq<S>): set<string> {
    if |sigs| == 0 then {}
    else
      var before := Greedy(ids, accepts, sigs[..|sigs| - 1]);
      match FirstMatch(ids, accepts, before, sigs[|sigs| - 1])
      case None => before
      case Some(id) => before + {id}
  }

  function Unmatched<S>(ids: seq<string>, accepts: (string, S) -> bool, sigs: seq<S>): nat {
    if |sigs| == 0 then 0
    else
      var before := Greedy(ids, accepts, sigs[..|sigs| - 1]);
      Unmatched(ids, accepts, sigs[..|sigs| - 1])
      + if FirstMatch(ids, accepts, before, sigs[|sigs| - 1]).None? then 1 else 0
  }

  /** The two nested loops of the source. */
  method Attribute<S>(ids: seq<string>, accepts: (string, S) -> bool, sigs: seq<S>)
    returns (satisfied: set<string>, unmatched: nat)
    ensures satisfied == Greedy(ids, accepts, sigs) && unmatched == Unmatched(ids, accepts, sigs)
  {
    satisfied, unmatched := {}, 0;
    for n := 0 to |sigs|
      invariant satisfied == Greedy(ids, accepts, sigs[..n]) && unmatched == Unmatched(ids, accepts, sigs[..n])
    {
      assert sigs[..n + 1][..n] == sigs[..n];
      ghost var before := satisfied;
      var matched := false;
      var i := 0;
      while i < |ids|
        invariant i <= |ids| && satisfied == before && !matched
        invariant FirstMatch(ids, accepts, before, sigs[n]) == FirstMatch(ids[i..], accepts, before, sigs[n])
      {
        if ids[i] !in satisfied && accepts(ids[i], sigs[n]) {
          satisfied := satisfied + {ids[i]};
          matched := true;
          break;
        }
        i := i + 1;
      }
      if !matched {
        unmatched := unmatched + 1;
      }
    }
    assert sigs[..|sigs|] == sigs;
  }

  // ------------------------------------------------------------------ what greedy attribution finds

  lemma {:induction false} FirstMatchIs<S>(ids: seq<string>, accepts: (string, S) -> bool, satisfied: set<string>,
                                           sig: S)
    ensures var r := FirstMatch(ids, accepts, satisfied, sig);
            (r.Some? ==> r.value in ids && r.value !in satisfied && accepts(r.value, sig)) &&
            (r.None? ==> forall id <- ids :: id in satisfied || !accepts(id, sig))
  {
    if |ids| > 0 {
      FirstMatchIs(ids[1..], accepts, satisfied, sig);
      assert forall id <- ids :: id == ids[0] || id in ids[1..];
    }
  }

  /** Members satisfied plus signatures unmatched is the number of signatures: none counts twice, none is lost. */
  lemma {:induction false} Conservation<S>(ids: seq<string>, accepts: (string, S) -> bool, sigs: seq<S>)
    ensures |Greedy(ids, accepts, sigs)| + Unmatched(ids, accepts, sigs) == |sigs|
  {
    if |sigs| > 0 {
      var n := |sigs| - 1;
      Conservation(ids, accepts, sigs[..n]);
      FirstMatchIs(ids, accepts, Greedy(ids, accepts, sigs[..n]), sigs[n]);
    }
  }

  ghost predicate Signed<S>(accepts: (string, S) -> bool, id: string, sigs: seq<S>) {
    exists i :: 0 <= i < |sigs| && accepts(id, sigs[i])
  }

  /** Only members that accept some signature are satisfied, whatever the keys. */
  lemma {:induction false} Sound<S>(ids: seq<string>, accepts: (string, S) -> bool, sigs: seq<S>)
    ensures forall id <- Greedy(ids, accepts, sigs) :: id in ids && Signed(accepts, id, sigs)
  {
    if |sigs| > 0 {
      var n := |sigs| - 1;
      Sound(ids, accepts, sigs[..n]);
      FirstMatchIs(ids, accepts, Greedy(ids, accepts, sigs[..n]), sigs[n]);
      forall id <- Greedy(ids, accepts, sigs)
        ensures id in ids && Signed(accepts, id, sigs)
      {
        if id in Greedy(ids, accepts, sigs[..n]) {
          var i :| 0 <= i < n && accepts(id, sigs[..n][i]);
          assert accepts(id, sigs[i]);
        } else {
          assert accepts(id, sigs[n]);
        }
      }
    }
  }

  /** No signature is accepted by two members: what distinct keys give. */
  ghost predicate Exclusive<S>(ids: seq<string>, accepts: (string, S) -> bool, sigs: seq<S>) {
    forall i, a, b | 0 <= i < |sigs| && a in ids && b in ids && accepts(a, sigs[i]) && accepts(b, sigs[i]) :: a == b
  }

  /** With exclusive acceptance the satisfied members are exactly those some signature is valid for. */
  lemma {:induction false} Exact<S>(ids: seq<string>, accepts: (string, S) -> bool, sigs: seq<S>)
    requires Exclusive(ids, accepts, sigs)
    ensures forall id :: id in Greedy(ids, accepts, sigs) <==> id in ids && Signed(accepts, id, sigs)
  {
    Sound(ids, accepts, sigs);
    if |sigs| > 0 {
      var n := |sigs| - 1;
      var before := Greedy(ids, accepts, sigs[..n]);
      Exact(ids, accepts, sigs[..n]);
      FirstMatchIs(ids, accepts, before, sigs[n]);
      forall id | id in ids && Signed(accepts, id, sigs)
        ensures id in Greedy(ids, accepts, sigs)
      {
        var i :| 0 <= i < |sigs| && accepts(id, sigs[i]);
        if i < n {
          assert accepts(id, sigs[..n][i]);
          assert Signed(accepts, id, sigs[..n]);
        }
      }
    }
  }

  /** The order and the repetition of signatures do not matter then. */
  lemma OrderFree<S>(ids: seq<string>, accepts: (string, S) -> bool, a: seq<S>, b: seq<S>)
    requires Exclusive(ids, accepts, a) && (forall s :: s in a <==> s in b)
    ensures Greedy(ids, accepts, a) == Greedy(ids, accepts, b)
  {
    assert Exclusive(ids, accepts, b) by {
      forall i, x, y | 0 <= i < |b| && x in ids && y in ids && accepts(x, b[i]) && accepts(y, b[i])
        ensures x == y
      {
        assert b[i] in a;
      }
    }
    Exact(ids, accepts, a);
    Exact(ids, accepts, b);
    forall id
      ensures Signed(accepts, id, a) <==> Signed(accepts, id, b)
    {
      if Signed(accepts, id, a) {
        var i :| 0 <= i < |a| && accepts(id, a[i]);
        assert a[i] in b;
      }
      if Signed(accepts, id, b) {
        var i :| 0 <= i < |b| && accepts(id, b[i]);
        assert b[i] in a;
      }
    }
  }

  /** Verifiers of two members that hold one key: signature 0 is good for both, signature 1 only for "a". */
  predicate Overlapping(id: string, s: nat) {
    s == 0 || id == "a"
  }

  /** Without exclusive acceptance it does matter: one order satisfies two members and the other only one. */
  lemma OrderMatters()
    ensures Greedy(["a", "b"], Overlapping, [0, 1]) == {"a"}
    ensures Greedy(["a", "b"], Overlapping, [1, 0]) == {"a", "b"}
  {
    var ids := ["a", "b"];
    assert ids[1..] == ["b"] && ids[1..][1..] == [];
    forall satisfied: set<string>
      ensures FirstMatch(ids, Overlapping, satisfied, 0)
           == if "a" !in satisfied then Some("a") else if "b" !in satisfied then Some("b") else None
      ensures FirstMatch(ids, Overlapping, satisfied, 1) == if "a" !in satisfied then Some("a") else None
    {
      assert FirstMatch(["b"], Overlapping, satisfied, 0) == if "b" !in satisfied then Some("b") else None;
      assert FirstMatch(["b"], Overlapping, satisfied, 1) == None;
    }
    assert [1, 0][..1] == [1] && [0, 1][..1] == [0] && [0][..0] == [] && [1][..0] == [];
    assert Greedy(ids, Overlapping, [1]) == {"a"} && Greedy(ids, Overlapping, [0]) == {"a"};
  }

  // ------------------------------------------------------------------ k of n

  /** What calling a verifier can come to; raising is never an acceptance. */
  datatype Outcome = Accepted | Rejected | Raised

  datatype QuorumResult = QuorumResult(met: bool, k: int, satisfiedBy: set<string>, unmatched: nat)

  /** An empty signature is matched with nobody. */
  function SafeAccepts<S>(empty: S -> bool, verify: (string, S) -> Outcome): (string, S) -> bool {
    (id: string, sig: S) => !empty(sig) && verify(id, sig) == Accepted
  }

  /** Some signature that is not empty was accepted by the member's verifier: it neither refused nor raised. */
  ghost predicate Backed<S>(empty: S -> bool, verify: (string, S) -> Outcome, id: string, sigs: seq<S>) {
    exists sig <- sigs :: !empty(sig) && verify(id, sig) == Accepted
  }

  /** No signature is accepted by the verifiers of two members. */
  ghost predicate NoneShared<S>(ids: seq<string>, empty: S -> bool, verify: (string, S) -> Outcome, sigs: seq<S>) {
    forall i, a, b | 0 <= i < |sigs| && !empty(sigs[i]) && a in ids && b in ids &&
                     verify(a, sigs[i]) == Accepted && verify(b, sigs[i]) == Accepted :: a == b
  }

  lemma BackedIs<S>(empty: S -> bool, verify: (string, S) -> Outcome, id: string, sigs: seq<S>)
    ensures Signed(SafeAccepts(empty, verify), id, sigs) <==> Backed(empty, verify, id, sigs)
  {
    var accepts := SafeAccepts(empty, verify);
    if Signed(accepts, id, sigs) {
      var i :| 0 <= i < |sigs| && accepts(id, sigs[i]);
      assert sigs[i] in sigs;
    }
    if Backed(empty, verify, id, sigs) {
      var sig :| sig in sigs && !empty(sig) && verify(id, sig) == Accepted;
      var i :| 0 <= i < |sigs| && sigs[i] == sig;
      assert accepts(id, sigs[i]);
    }
  }

  /** The error is a quorum no signatures could ever meet. A member is satisfied only by a signature of its own that its
      verifier accepted, and by any such signature when no two members share one. */
  method VerifyQuorum<S>(ids: seq<string>, empty: S -> bool, verify: (string, S) -> Outcome, sigs: seq<S>, k: int)
    returns (r: Result<QuorumResult>)
    requires DistinctIds(ids)
    ensures r.Err? <==> k < 1 || k > |ids|
    ensures r.Ok? ==>
              r.value.k == k && r.value.satisfiedBy == Greedy(ids, SafeAccepts(empty, verify), sigs) &&
              r.value.unmatched == Unmatched(ids, SafeAccepts(empty, verify), sigs) &&
              (r.value.met <==> |r.value.satisfiedBy| >= k)
    ensures r.Ok? ==> forall id <- r.value.satisfiedBy :: id in ids && Backed(empty, verify, id, sigs)
    ensures r.Ok? && NoneShared(ids, empty, verify, sigs) ==>
              forall id :: id in r.value.satisfiedBy <==> id in ids && Backed(empty, verify, id, sigs)
  {
    if k < 1 || |ids| == 0 || k > |ids| {
      return Err;
    }
    var satisfied, unmatched := Attribute(ids, SafeAccepts(empty, verify), sigs);
    forall id
      ensures Signed(SafeAccepts(empty, verify), id, sigs) <==> Backed(empty, verify, id, sigs)
    {
      BackedIs(empty, verify, id, sigs);
    }
    Sound(ids, SafeAccepts(empty, verify), sigs);
    if NoneShared(ids, empty, verify, sigs) {
      Exact(ids, SafeAccepts(empty, verify), sigs);
    }
    return Ok(QuorumResult(|satisfied| >= k, k, satisfied, unmatched));
  }

  /** A quorum is met only by that many different members, each with an accepted signature of its own; presenting
      signatures again never adds a member. */
  lemma QuorumNeedsSigners<S>(ids: seq<string>, empty: S -> bool, verify: (string, S) -> Outcome,
                              sigs: seq<S>, k: nat)
    requires |Greedy(ids, SafeAccepts(empty, verify), sigs)| >= k
    ensures |sigs| >= k
    ensures exists signers: set<string> ::
              |signers| >= k && forall id <- signers :: id in ids && Backed(empty, verify, id, sigs)
  {
    Conservation(ids, SafeAccepts(empty, verify), sigs);
    Sound(ids, SafeAccepts(empty, verify), sigs);
    var signers := Greedy(ids, SafeAccepts(empty, verify), sigs);
    forall id | id in signers
      ensures id in ids && Backed(empty, verify, id, sigs)
    {
      BackedIs(empty, verify, id, sigs);
    }
  }
}
