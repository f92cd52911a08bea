/** What a capability clause resolves to, and the weight an operator is shown for it:
    recto/capability/manifest.py:55-207 and 215-310. */
module Capability {
  import opened Wrappers

  // ------------------------------------------------------------------ loading

  /** A field of the raw manifest: missing, of another type, or what it should be. */
  datatype Raw<+T> = Missing | OtherType | Given(value: T)

  datatype RawAction = RawAction(count: Raw<int>, description: Raw<string>)

  datatype RawGroup = RawGroup(actions: Raw<seq<string>>)

  datatype RawManifest = RawManifest(version: Raw<string>, actions: Raw<map<string, Raw<RawAction>>>,
                                     groups: Raw<map<string, Raw<RawGroup>>>)

  datatype Manifest = Manifest(version: string, counts: map<string, nat>, groups: map<string, seq<string>>)

  /** Every group names only actions of the table. */
  ghost predicate Valid(m: Manifest) {
    m.version != "" && forall g <- m.groups :: forall a <- m.groups[g] :: a in m.counts
  }

  predicate GoodAction(a: Raw<RawAction>) {
    a.Given? && a.value.count.Given? && a.value.count.value >= 0 && !a.value.description.OtherType?
  }

  function ActionsOf(g: RawGroup): seq<string> {
    if g.actions.Given? then g.actions.value else []
  }

  predicate GoodGroup(g: Raw<RawGroup>, actions: map<string, Raw<RawAction>>) {
    g.Given? && !g.value.actions.OtherType? && forall a <- ActionsOf(g.value) :: a in actions
  }

  function RawActions(raw: RawManifest): map<string, Raw<RawAction>> {
    if raw.actions.Given? then raw.actions.value else map[]
  }

  function RawGroups(raw: RawManifest): map<string, Raw<RawGroup>> {
    if raw.groups.Given? then raw.groups.value else map[]
  }

  /** A version, and tables for actions and groups where they are given; every action has a count that is not negative
      and no description but a text; every group lists, if anything, actions of the table. */
  ghost predicate Loadable(raw: RawManifest) {
    && raw.version.Given? && raw.version.value != "" && !raw.actions.OtherType? && !raw.groups.OtherType?
    && (forall key <- RawActions(raw) ::
          var a := RawActions(raw)[key];
          a.Given? && a.value.count.Given? && a.value.count.value >= 0 && !a.value.description.OtherType?)
    && forall key <- RawGroups(raw) ::
         var g := RawGroups(raw)[key];
         g.Given? && !g.value.actions.OtherType? && forall a <- ActionsOf(g.value) :: a in RawActions(raw)
  }

  /** Loading succeeds exactly on a well-shaped manifest, and what it gives is valid. */
  method LoadManifest(raw: RawManifest) returns (r: Result<Manifest>)
    ensures r.Ok? <==> Loadable(raw)
    ensures r.Ok? ==>
              Valid(r.value) && r.value.version == raw.version.value &&
              r.value.counts.Keys == RawActions(raw).Keys && r.value.groups.Keys == RawGroups(raw).Keys &&
              (forall key <- r.value.counts :: r.value.counts[key] == RawActions(raw)[key].value.count.value) &&
              forall key <- r.value.groups :: r.value.groups[key] == ActionsOf(RawGroups(raw)[key].value)
  {
    if !raw.version.Given? || raw.version.value == "" || raw.actions.OtherType? {
      return Err;
    }
    var rawActions := RawActions(raw);
    var actions: map<string, nat> := map[];
    var rest := rawActions.Keys;
    while rest != {}
      invariant rest <= rawActions.Keys && actions.Keys == rawActions.Keys - rest
      invariant forall key <- actions ::
                  GoodAction(rawActions[key]) && actions[key] == rawActions[key].value.count.value
      decreases rest
    {
      var key :| key in rest;
      if !GoodAction(rawActions[key]) {
        return Err;
      }
      actions := actions[key := rawActions[key].value.count.value];
      rest := rest - {key};
    }
    if raw.groups.OtherType? {
      return Err;
    }
    var rawGroups := RawGroups(raw);
    var groups: map<string, seq<string>> := map[];
    rest := rawGroups.Keys;
    while rest != {}
      invariant rest <= rawGroups.Keys && groups.Keys == rawGroups.Keys - rest
      invariant forall key <- groups ::
                  GoodGroup(rawGroups[key], rawActions) && groups[key] == ActionsOf(rawGroups[key].value)
      decreases rest
    {
      var key :| key in rest;
      if !GoodGroup(rawGroups[key], rawActions) {
        return Err;
      }
      groups := groups[key := ActionsOf(rawGroups[key].value)];
      rest := rest - {key};
    }
    return Ok(Manifest(raw.version.value, actions, groups));
  }

  // ------------------------------------------------------------------ resolving, and weighing

  datatype Clause = Clause(registryVersion: string, groups: seq<string>, allow: seq<string>, deny: seq<string>)

  /** The clauses both functions accept. */
  predicate Known(c: Clause, m: Manifest) {
    c.registryVersion == m.version && (forall g <- c.groups :: g in m.groups) && forall a <- c.allow :: a in m.counts
  }

  /** Every mention of an action: the groups one after another, then the actions allowed by name. */
  function GroupMentions(groups: seq<string>, m: Manifest): seq<string>
    requires forall g <- groups :: g in m.groups
  {
    if |groups| == 0 then []
    else GroupMentions(groups[..|groups| - 1], m) + m.groups[groups[|groups| - 1]]
  }

  function Mentions(c: Clause, m: Manifest): seq<string>
    requires Known(c, m)
  {
    GroupMentions(c.groups, m) + c.allow
  }

  ghost predicate Resolves(c: Clause, m: Manifest, s: set<string>)
    requires Known(c, m)
  {
    forall a :: a in s <==> a in Mentions(c, m) && a !in c.deny
  }

  /** The clause allows the action by name, or one of its groups holds it. */
  ghost predicate Grants(c: Clause, m: Manifest, action: string) {
    action in c.allow || exists g <- c.groups :: g in m.groups && action in m.groups[g]
  }

  /** The clause was written for this manifest, which has all its groups and all the actions it allows by name. */
  ghost predicate Fits(c: Clause, m: Manifest) {
    m.version == c.registryVersion && (set g <- c.groups) <= m.groups.Keys && (set a <- c.allow) <= m.counts.Keys
  }

  lemma FitsIs(c: Clause, m: Manifest)
    ensures Known(c, m) <==> Fits(c, m)
  {
    if Fits(c, m) {
      assert forall g <- c.groups :: g in (set g' <- c.groups);
      assert forall a <- c.allow :: a in (set a' <- c.allow);
    }
  }

  lemma {:induction false} GroupMentionsAre(groups: seq<string>, m: Manifest, action: string)
    requires forall g <- groups :: g in m.groups
    ensures action in GroupMentions(groups, m) <==> exists g <- groups :: action in m.groups[g]
  {
    if |groups| > 0 {
      var n := |groups| - 1;
      GroupMentionsAre(groups[..n], m, action);
      assert forall g :: g in groups <==> g in groups[..n] || g == groups[n];
    }
  }

  lemma MentionsAre(c: Clause, m: Manifest, action: string)
    requires Known(c, m)
    ensures action in Mentions(c, m) <==> Grants(c, m, action)
  {
    GroupMentionsAre(c.groups, m, action);
  }

  lemma ResolvedIs(c: Clause, m: Manifest, s: set<string>)
    requires Known(c, m) && Resolves(c, m, s)
    ensures forall a :: a in s <==> Grants(c, m, a) && a !in c.deny
  {
    hide Grants, Mentions;
    forall a
      ensures a in Mentions(c, m) <==> Grants(c, m, a)
    {
      MentionsAre(c, m, a);
    }
  }

  /** The actions of the first `n` groups. */
  ghost predicate Gathered(c: Clause, m: Manifest, n: nat, s: set<string>)
    requires n <= |c.groups|
  {
    (forall g <- c.groups[..n] :: g in m.groups) && forall a :: a in s <==> a in GroupMentions(c.groups[..n], m)
  }

  /** And the first `n` actions allowed by name. */
  ghost predicate Allowed(c: Clause, m: Manifest, n: nat, s: set<string>)
    requires n <= |c.allow|
  {
    (forall g <- c.groups :: g in m.groups) && (forall a <- c.allow[..n] :: a in m.counts) &&
    forall a :: a in s <==> a in GroupMentions(c.groups, m) || a in c.allow[..n]
  }

  lemma GatherOne(c: Clause, m: Manifest, n: nat, s: set<string>, more: set<string>)
    requires n < |c.groups| && Gathered(c, m, n, s) && c.groups[n] in m.groups
    requires forall a :: a in more <==> a in m.groups[c.groups[n]]
    ensures Gathered(c, m, n + 1, s + more)
  {
    assert c.groups[..n + 1][..n] == c.groups[..n];
  }

  lemma AllowOne(c: Clause, m: Manifest, n: nat, s: set<string>)
    requires n < |c.allow| && Allowed(c, m, n, s) && c.allow[n] in m.counts
    ensures Allowed(c, m, n + 1, s + {c.allow[n]})
  {
    assert c.allow[..n + 1] == c.allow[..n] + [c.allow[n]];
  }

  lemma AllGathered(c: Clause, m: Manifest, s: set<string>)
    requires Gathered(c, m, |c.groups|, s)
    ensures Allowed(c, m, 0, s)
  {
    assert c.groups[..|c.groups|] == c.groups;
  }

  lemma AllAllowed(c: Clause, m: Manifest, s: set<string>)
    requires Allowed(c, m, |c.allow|, s)
    ensures (forall g <- c.groups :: g in m.groups) && forall a <- c.allow :: a in m.counts
    ensures forall a :: a in s <==> a in GroupMentions(c.groups, m) + c.allow
  {
    assert c.allow[..|c.allow|] == c.allow;
  }

  lemma NothingGathered(c: Clause, m: Manifest)
    ensures Gathered(c, m, 0, {})
  {
  }

  method Subtract(permitted: set<string>, deny: seq<string>) returns (rest: set<string>)
    ensures forall a :: a in rest <==> a in permitted && a !in deny
  {
    rest := permitted;
    for i := 0 to |deny|
      invariant forall a :: a in rest <==> a in permitted && a !in deny[..i]
    {
      assert deny[..i + 1] == deny[..i] + [deny[i]];
      rest := rest - {deny[i]};
    }
    assert deny[..|deny|] == deny;
  }

  method ResolveActions(c: Clause, m: Manifest) returns (r: Result<set<string>>)
    ensures r.Ok? <==> Known(c, m)
    ensures r.Ok? ==> Resolves(c, m, r.value)
    ensures r.Ok? <==> Fits(c, m)
    ensures r.Ok? ==> forall a :: a in r.value <==> Grants(c, m, a) && a !in c.deny
  {
    hide Fits, Grants, Gathered, Allowed, GroupMentions;
    FitsIs(c, m);
    if c.registryVersion != m.version {
      return Err;
    }
    var permitted: set<string> := {};
    NothingGathered(c, m);
    for i := 0 to |c.groups|
      invariant Gathered(c, m, i, permitted)
    {
      if c.groups[i] !in m.groups {
        return Err;
      }
      var actions := m.groups[c.groups[i]];
      GatherOne(c, m, i, permitted, set a | a in actions);
      permitted := permitted + set a | a in actions;
    }
    AllGathered(c, m, permitted);
    for i := 0 to |c.allow|
      invariant Allowed(c, m, i, permitted)
    {
      if c.allow[i] !in m.counts {
        return Err;
      }
      AllowOne(c, m, i, permitted);
      permitted := permitted + {c.allow[i]};
    }
    AllAllowed(c, m, permitted);
    permitted := Subtract(permitted, c.deny);
    ResolvedIs(c, m, permitted);
    return Ok(permitted);
  }

  /** Unknown names fail closed; a ban inherited from the parent profile is subtracted too. */
  method EvaluateScope(action: string, c: Clause, m: Manifest, inherited: seq<string>) returns (permitted: bool)
    ensures permitted <==> Fits(c, m) && Grants(c, m, action) && action !in c.deny && action !in inherited
  {
    var r := ResolveActions(c, m);
    return r.Ok? && action in r.value && action !in inherited;
  }

  function Weight(mentions: seq<string>, m: Manifest): nat
    requires forall a <- mentions :: a in m.counts
  {
    if |mentions| == 0 then 0
    else Weight(mentions[..|mentions| - 1], m) + m.counts[mentions[|mentions| - 1]]
  }

  datatype GroupWeight = GroupWeight(key: string, weight: nat, actions: seq<(string, nat)>)

  datatype Breakdown = Breakdown(total: nat, groups: seq<GroupWeight>, extras: seq<(string, nat)>, denied: seq<string>)

  function Counted(actions: seq<string>, m: Manifest): (r: seq<(string, nat)>)
    requires forall a <- actions :: a in m.counts
  {
    seq(|actions|, i requires 0 <= i < |actions| => (actions[i], m.counts[actions[i]]))
  }

  /** The line shown for a group. */
  function WeighedGroup(key: string, m: Manifest): GroupWeight
    requires Valid(m) && key in m.groups
  {
    GroupWeight(key, Weight(m.groups[key], m), Counted(m.groups[key], m))
  }

  lemma {:induction false} MentionsCounted(groups: seq<string>, m: Manifest)
    requires Valid(m) && forall g <- groups :: g in m.groups
    ensures forall a <- GroupMentions(groups, m) :: a in m.counts
  {
    if |groups| > 0 {
      MentionsCounted(groups[..|groups| - 1], m);
    }
  }

  /** The sum of the counts shown on some lines. */
  function Sum(lines: seq<(string, nat)>): nat {
    if |lines| == 0 then 0 else lines[0].1 + Sum(lines[1..])
  }

  function GroupSum(groups: seq<GroupWeight>): nat {
    if |groups| == 0 then 0 else groups[0].weight + GroupSum(groups[1..])
  }

  /** Every weight shown is the sum of the lines under it. */
  predicate AddsUp(b: Breakdown) {
    b.total == GroupSum(b.groups) + Sum(b.extras) && forall g <- b.groups :: g.weight == Sum(g.actions)
  }

  /** Line by line the actions, in order, each with the manifest's count. */
  predicate Lists(lines: seq<(string, nat)>, actions: seq<string>, m: Manifest) {
    |lines| == |actions| &&
    forall i | 0 <= i < |actions| ::
      lines[i].0 == actions[i] && actions[i] in m.counts && lines[i].1 == m.counts[actions[i]]
  }

  lemma {:induction false} WeightFirst(actions: seq<string>, m: Manifest)
    requires |actions| > 0 && forall a <- actions :: a in m.counts
    ensures Weight(actions, m) == m.counts[actions[0]] + Weight(actions[1..], m)
  {
    assert actions == [actions[0]] + actions[1..];
    assert Weight([actions[0]], m) == m.counts[actions[0]] by {
      assert [actions[0]][..0] == [];
    }
    WeightAppend([actions[0]], actions[1..], m);
  }

  lemma {:induction false} SumCounted(actions: seq<string>, m: Manifest)
    requires forall a <- actions :: a in m.counts
    ensures Sum(Counted(actions, m)) == Weight(actions, m)
  {
    if |actions| > 0 {
      WeightFirst(actions, m);
      assert Counted(actions, m)[1..] == Counted(actions[1..], m);
      SumCounted(actions[1..], m);
    }
  }

  lemma {:induction false} GroupSumIs(groups: seq<string>, shown: seq<GroupWeight>, m: Manifest)
    requires Valid(m) && (forall g <- groups :: g in m.groups) && |shown| == |groups|
    requires forall i | 0 <= i < |groups| :: shown[i] == WeighedGroup(groups[i], m)
    ensures (forall a <- GroupMentions(groups, m) :: a in m.counts) &&
            GroupSum(shown) == Weight(GroupMentions(groups, m), m)
  {
    hide Counted, Weight;
    MentionsCounted(groups, m);
    if |groups| == 0 {
      NothingWeighs(m);
    } else {
      var n := |groups| - 1;
      GroupSumIs(groups[..n], shown[..n], m);
      GroupSumLast(shown);
      WeightAppend(GroupMentions(groups[..n], m), m.groups[groups[n]], m);
    }
  }

  lemma {:induction false} GroupSumLast(shown: seq<GroupWeight>)
    requires |shown| > 0
    ensures GroupSum(shown) == GroupSum(shown[..|shown| - 1]) + shown[|shown| - 1].weight
  {
    if |shown| > 1 {
      GroupSumLast(shown[1..]);
      assert shown[1..][..|shown| - 2] == shown[..|shown| - 1][1..];
    }
  }

  lemma LinesAddUp(c: Clause, m: Manifest, b: Breakdown)
    requires Valid(m) && Known(c, m) && |b.groups| == |c.groups|
    requires forall i | 0 <= i < |c.groups| :: b.groups[i] == WeighedGroup(c.groups[i], m)
    requires b.extras == Counted(c.allow, m)
    requires (forall a <- Mentions(c, m) :: a in m.counts) && b.total == Weight(Mentions(c, m), m)
    ensures AddsUp(b) && Lists(b.extras, c.allow, m)
    ensures forall i | 0 <= i < |c.groups| ::
              b.groups[i].key == c.groups[i] && Lists(b.groups[i].actions, m.groups[c.groups[i]], m)
  {
    hide Weight;
    GroupSumIs(c.groups, b.groups, m);
    SumCounted(c.allow, m);
    WeightAppend(GroupMentions(c.groups, m), c.allow, m);
    forall g | g in b.groups
      ensures g.weight == Sum(g.actions)
    {
      var i :| 0 <= i < |b.groups| && b.groups[i] == g;
      SumCounted(m.groups[c.groups[i]], m);
    }
  }

  method WeighGroup(key: string, m: Manifest) returns (g: GroupWeight)
    requires Valid(m) && key in m.groups
    ensures g == WeighedGroup(key, m)
  {
    var members := m.groups[key];
    var weight, actions: seq<(string, nat)> := 0, [];
    for j := 0 to |members|
      invariant weight == Weight(members[..j], m) && actions == Counted(members[..j], m)
    {
      assert members[j] in members;
      assert members[..j + 1][..j] == members[..j];
      actions := actions + [(members[j], m.counts[members[j]])];
      weight := weight + m.counts[members[j]];
    }
    assert members[..|members|] == members;
    return GroupWeight(key, weight, actions);
  }

  method WeighGroups(keys: seq<string>, m: Manifest) returns (ok: bool, total: nat, groups: seq<GroupWeight>)
    requires Valid(m)
    ensures ok <==> forall g <- keys :: g in m.groups
    ensures ok ==> (forall a <- GroupMentions(keys, m) :: a in m.counts) && total == Weight(GroupMentions(keys, m), m)
    ensures ok ==> |groups| == |keys| && forall i | 0 <= i < |keys| :: groups[i] == WeighedGroup(keys[i], m)
  {
    hide Weight, Counted, Valid;
    ok, total, groups := true, 0, [];
    NothingWeighs(m);
    for i := 0 to |keys|
      invariant |groups| == i && forall g <- keys[..i] :: g in m.groups
      invariant forall a <- GroupMentions(keys[..i], m) :: a in m.counts
      invariant total == Weight(GroupMentions(keys[..i], m), m)
      invariant forall k | 0 <= k < i :: keys[k] in m.groups && groups[k] == WeighedGroup(keys[k], m)
    {
      if keys[i] !in m.groups {
        assert keys[i] in keys;
        return false, total, groups;
      }
      assert keys[..i + 1][..i] == keys[..i] && keys[..i + 1][i] == keys[i];
      MentionsCounted(keys[..i + 1], m);
      GroupCounted(keys[i], m);
      var g := WeighGroup(keys[i], m);
      WeightAppend(GroupMentions(keys[..i], m), m.groups[keys[i]], m);
      groups := groups + [g];
      total := total + g.weight;
    }
    assert keys[..|keys|] == keys;
  }

  lemma NothingWeighs(m: Manifest)
    ensures Weight([], m) == 0
  {
  }

  lemma GroupCounted(key: string, m: Manifest)
    requires Valid(m) && key in m.groups
    ensures forall a <- m.groups[key] :: a in m.counts
  {
  }

  method WeighExtras(allow: seq<string>, m: Manifest) returns (ok: bool, total: nat, extras: seq<(string, nat)>)
    ensures ok <==> forall a <- allow :: a in m.counts
    ensures ok ==> total == Weight(allow, m) && extras == Counted(allow, m)
  {
    ok, total, extras := true, 0, [];
    for i := 0 to |allow|
      invariant forall a <- allow[..i] :: a in m.counts
      invariant extras == Counted(allow[..i], m) && total == Weight(allow[..i], m)
    {
      if allow[i] !in m.counts {
        return false, total, extras;
      }
      assert allow[..i + 1][..i] == allow[..i];
      extras := extras + [(allow[i], m.counts[allow[i]])];
      total := total + m.counts[allow[i]];
    }
    assert allow[..|allow|] == allow;
  }

  /** The weight shown: of every mention, however often, whether denied or not; and nothing is shown for a clause that
      does not resolve. */
  method ClauseWeightBreakdown(c: Clause, m: Manifest) returns (r: Result<Breakdown>)
    requires Valid(m)
    ensures r.Ok? <==> Known(c, m)
    ensures r.Ok? ==>
              (forall a <- Mentions(c, m) :: a in m.counts) && r.value.total == Weight(Mentions(c, m), m) &&
              r.value.extras == Counted(c.allow, m) && r.value.denied == c.deny &&
              |r.value.groups| == |c.groups| &&
              forall i | 0 <= i < |c.groups| :: r.value.groups[i] == WeighedGroup(c.groups[i], m)
    ensures r.Ok? ==> AddsUp(r.value)
    ensures r.Ok? ==> forall i | 0 <= i < |c.groups| ::
              r.value.groups[i].key == c.groups[i] && Lists(r.value.groups[i].actions, m.groups[c.groups[i]], m)
    ensures r.Ok? ==> Lists(r.value.extras, c.allow, m)
  {
    hide Weight, Counted, WeighedGroup, GroupMentions, AddsUp, Lists;
    if c.registryVersion != m.version {
      return Err;
    }
    var known, total, groups := WeighGroups(c.groups, m);
    if !known {
      return Err;
    }
    var allowed, more, extras := WeighExtras(c.allow, m);
    if !allowed {
      return Err;
    }
    WeightAppend(GroupMentions(c.groups, m), c.allow, m);
    LinesAddUp(c, m, Breakdown(total + more, groups, extras, c.deny));
    return Ok(Breakdown(total + more, groups, extras, c.deny));
  }

  lemma {:induction false} WeightAppend(a: seq<string>, b: seq<string>, m: Manifest)
    requires (forall x <- a :: x in m.counts) && (forall x <- b :: x in m.counts)
    ensures forall x <- a + b :: x in m.counts
    ensures Weight(a + b, m) == Weight(a, m) + Weight(b, m)
  {
    if |b| == 0 {
      assert a + b == a;
    } else {
      assert (a + b)[..|a + b| - 1] == a + b[..|b| - 1];
      WeightAppend(a, b[..|b| - 1], m);
    }
  }

  // ------------------------------------------------------------------ the weight never reads low

  /** The counts of a set, summed in any order. */
  ghost function SetWeight(s: set<string>, m: Manifest): nat
    requires s <= m.counts.Keys
    decreases s
  {
    if s == {} then 0
    else
      var a :| a in s;
      m.counts[a] + SetWeight(s - {a}, m)
  }

  lemma SetWeightTake(s: set<string>, m: Manifest, a: string)
    requires s <= m.counts.Keys && a in s
    ensures SetWeight(s, m) == m.counts[a] + SetWeight(s - {a}, m)
    decreases s
  {
    var b :| b in s && SetWeight(s, m) == m.counts[b] + SetWeight(s - {b}, m);
    if a != b {
      SetWeightTake(s - {b}, m, a);
      SetWeightTake(s - {a}, m, b);
      assert s - {b} - {a} == s - {a} - {b};
    }
  }

  /** The resolved part of some mentions. */
  function Kept(mentions: seq<string>, deny: seq<string>): set<string> {
    set a | a in mentions && a !in deny
  }

  /** Whether the i-th mention adds to what is resolved: not denied, and not mentioned before. */
  predicate Fresh(mentions: seq<string>, deny: seq<string>, i: nat)
    requires i < |mentions|
  {
    mentions[i] !in deny && mentions[i] !in mentions[..i]
  }

  /** The total is at least the weight of what is resolved, and equal to it exactly when every mention that is denied or
      repeated weighs nothing. */
  lemma {:induction false} NeverReadsLow(mentions: seq<string>, deny: seq<string>, m: Manifest)
    requires forall a <- mentions :: a in m.counts
    ensures Weight(mentions, m) >= SetWeight(Kept(mentions, deny), m)
    ensures Weight(mentions, m) == SetWeight(Kept(mentions, deny), m) <==>
            forall i | 0 <= i < |mentions| :: Fresh(mentions, deny, i) || m.counts[mentions[i]] == 0
  {
    if |mentions| > 0 {
      var n := |mentions| - 1;
      var init, last := mentions[..n], mentions[n];
      NeverReadsLow(init, deny, m);
      if Fresh(mentions, deny, n) {
        assert Kept(mentions, deny) - {last} == Kept(init, deny);
        SetWeightTake(Kept(mentions, deny), m, last);
      } else {
        assert Kept(mentions, deny) == Kept(init, deny);
      }
      FreshInit(mentions, deny);
    }
  }

  lemma FreshInit(mentions: seq<string>, deny: seq<string>)
    requires |mentions| > 0
    ensures forall i | 0 <= i < |mentions| - 1 ::
              Fresh(mentions, deny, i) == Fresh(mentions[..|mentions| - 1], deny, i)
  {
    forall i | 0 <= i < |mentions| - 1
      ensures Fresh(mentions, deny, i) == Fresh(mentions[..|mentions| - 1], deny, i)
    {
      assert mentions[..|mentions| - 1][..i] == mentions[..i];
    }
  }

  /** The shown total against the resolved set: refused together, and never below it. */
  lemma ShownAgainstResolved(c: Clause, m: Manifest, resolved: set<string>, total: nat)
    requires Valid(m) && Known(c, m) && Resolves(c, m, resolved)
    requires (forall a <- Mentions(c, m) :: a in m.counts) && total == Weight(Mentions(c, m), m)
    ensures resolved <= m.counts.Keys && total >= SetWeight(resolved, m)
    ensures total == SetWeight(resolved, m) <==>
            forall i | 0 <= i < |Mentions(c, m)| ::
              Fresh(Mentions(c, m), c.deny, i) || m.counts[Mentions(c, m)[i]] == 0
  {
    NeverReadsLow(Mentions(c, m), c.deny, m);
    assert resolved == Kept(Mentions(c, m), c.deny);
  }
}
