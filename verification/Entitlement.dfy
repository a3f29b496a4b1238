/**
 Entitlement resolution: the only matching policy of highest priority, or a denial.
 */
module Entitlement {
  import opened Basics

  datatype Policy = Policy(
    id: string,
    groupIds: set<string>,
    allowedModels: set<string>,
    keyRef: string,
    priority: int,
    appRoles: set<string>)

  /** What the caller's token claims. */
  datatype Claims = Claims(groupIds: set<string>, appRoles: set<string>)

  predicate Matches(p: Policy, claims: Claims) {
    p.groupIds * claims.groupIds != {} || p.appRoles * claims.appRoles != {}
  }

  function Matching(policies: seq<Policy>, claims: Claims): seq<Policy> {
    if policies == [] then []
    else (if Matches(policies[0], claims) then [policies[0]] else []) + Matching(policies[1..], claims)
  }

  function AtPriority(policies: seq<Policy>, priority: int): seq<Policy> {
    if policies == [] then []
    else (if policies[0].priority == priority then [policies[0]] else []) + AtPriority(policies[1..], priority)
  }

  function HighestPriority(policies: seq<Policy>): (highest: int)
    requires policies != []
    ensures forall p :: p in policies ==> p.priority <= highest
    ensures exists p :: p in policies && p.priority == highest
  {
    if |policies| == 1 then
      assert policies[0] in policies;
      policies[0].priority
    else
      var rest := HighestPriority(policies[1..]);
      assert policies[0] in policies;
      if policies[0].priority < rest then rest else policies[0].priority
  }

  function Resolve(policies: seq<Policy>, claims: Claims): Option<Policy> {
    var matches := Matching(policies, claims);
    if matches == [] then None
    else
      var winners := AtPriority(matches, HighestPriority(matches));
      if |winners| != 1 then None else Some(winners[0])
  }

  lemma {:induction false} MatchingCounts(policies: seq<Policy>, claims: Claims, p: Policy)
    ensures multiset(Matching(policies, claims))[p] == if Matches(p, claims) then multiset(policies)[p] else 0
  {
    if policies != [] {
      MatchingCounts(policies[1..], claims, p);
      assert policies == [policies[0]] + policies[1..];
    }
  }

  lemma {:induction false} AtPriorityCounts(policies: seq<Policy>, priority: int, p: Policy)
    ensures multiset(AtPriority(policies, priority))[p] == if p.priority == priority then multiset(policies)[p] else 0
  {
    if policies != [] {
      AtPriorityCounts(policies[1..], priority, p);
      assert policies == [policies[0]] + policies[1..];
    }
  }

  /** The policy matches, occurs once, and every other matching policy has a strictly lower priority. */
  ghost predicate Wins(policies: multiset<Policy>, claims: Claims, p: Policy) {
    && Matches(p, claims) && policies[p] == 1
    && forall q :: q in policies && q != p && Matches(q, claims) ==> q.priority < p.priority
  }

  lemma OnlyOne(winners: seq<Policy>, p: Policy)
    ensures winners == [p] <==> (multiset(winners)[p] == 1 && forall q :: q in multiset(winners) ==> q == p)
  {
    if multiset(winners)[p] == 1 && forall q :: q in multiset(winners) ==> q == p {
      assert multiset(winners) == multiset{p};
      assert |winners| == |multiset(winners)| == 1;
      assert winners[0] in multiset(winners);
    }
  }

  function Winners(policies: seq<Policy>, claims: Claims): seq<Policy> {
    var matches := Matching(policies, claims);
    if matches == [] then [] else AtPriority(matches, HighestPriority(matches))
  }

  /** A policy is among the winners if it matches and no matching policy outranks it. */
  lemma WinnersCount(policies: seq<Policy>, claims: Claims, p: Policy)
    ensures multiset(Winners(policies, claims))[p]
      == if Matches(p, claims) && (forall q :: q in policies && Matches(q, claims) ==> q.priority <= p.priority)
         then multiset(policies)[p] else 0
  {
    hide Matches, Matching, AtPriority, HighestPriority;
    var matches := Matching(policies, claims);
    MatchingMembers(policies, claims);
    MatchingCounts(policies, claims, p);
    if matches != [] {
      var highest := HighestPriority(matches);
      AtPriorityCounts(matches, highest, p);
      var top :| top in matches && top.priority == highest;
      assert p.priority == highest ==> forall q :: q in policies && Matches(q, claims) ==> q in matches;
      assert Matches(p, claims) && p !in policies ==> multiset(policies)[p] == 0;
    }
  }

  lemma MatchingMembers(policies: seq<Policy>, claims: Claims)
    ensures forall q :: q in Matching(policies, claims) <==> q in policies && Matches(q, claims)
  {
  }

  /** Resolution gives a policy exactly when that policy wins. */
  lemma ResolveGivesTheWinner(policies: seq<Policy>, claims: Claims, p: Policy)
    ensures Resolve(policies, claims) == Some(p) <==> Wins(multiset(policies), claims, p)
  {
    hide Matches, Matching, AtPriority, HighestPriority;
    var winners := Winners(policies, claims);
    OnlyOne(winners, p);
    WinnersCount(policies, claims, p);
    if winners == [p] || Wins(multiset(policies), claims, p) {
      forall q | q in multiset(policies) && q != p && Matches(q, claims)
        ensures q in multiset(winners) <==> forall o :: o in policies && Matches(o, claims) ==> o.priority <= q.priority
      {
        WinnersCount(policies, claims, q);
      }
      forall q | q in multiset(winners) ensures q in multiset(policies) && Matches(q, claims) {
        WinnersCount(policies, claims, q);
      }
    }
  }

  /** The same rule by position: every other matching position has a strictly lower priority. */
  lemma ResolveByPosition(policies: seq<Policy>, claims: Claims, i: nat)
    requires i < |policies| && Matches(policies[i], claims)
    ensures Resolve(policies, claims) == Some(policies[i])
      <==> forall j :: 0 <= j < |policies| && j != i && Matches(policies[j], claims)
             ==> policies[j].priority < policies[i].priority
  {
    hide Matches, Resolve;
    var p := policies[i];
    var others := Others(policies, i);
    assert policies == policies[..i] + [p] + policies[i + 1..];
    assert multiset(policies) == multiset(others) + multiset{p};
    ResolveGivesTheWinner(policies, claims, p);
    WinsAmongOthers(others, claims, p);
    OtherPositions(policies, i);
  }

  lemma WinsAmongOthers(others: seq<Policy>, claims: Claims, p: Policy)
    requires Matches(p, claims)
    ensures Wins(multiset(others) + multiset{p}, claims, p)
      <==> forall q :: q in others && Matches(q, claims) ==> q.priority < p.priority
  {
    hide Matches;
    assert forall q :: q in others <==> q in multiset(others);
  }

  function Others(policies: seq<Policy>, i: nat): seq<Policy>
    requires i < |policies|
  {
    policies[..i] + policies[i + 1..]
  }

  lemma OtherPositions(policies: seq<Policy>, i: nat)
    requires i < |policies|
    ensures forall q :: q in Others(policies, i) ==> exists j :: 0 <= j < |policies| && j != i && policies[j] == q
    ensures forall j :: 0 <= j < |policies| && j != i ==> policies[j] in Others(policies, i)
  {
    var others := Others(policies, i);
    forall q | q in others ensures exists j :: 0 <= j < |policies| && j != i && policies[j] == q {
      var n :| 0 <= n < |others| && others[n] == q;
      assert policies[if n < i then n else n + 1] == q;
    }
    forall j | 0 <= j < |policies| && j != i ensures policies[j] in others {
      assert policies[j] == others[if j < i then j else j - 1];
    }
  }

  /** The order of the policies does not matter. */
  lemma ResolveIgnoresOrder(policies: seq<Policy>, shuffled: seq<Policy>, claims: Claims)
    requires multiset(policies) == multiset(shuffled)
    ensures Resolve(policies, claims) == Resolve(shuffled, claims)
  {
    hide Resolve;
    match Resolve(policies, claims)
    case Some(p) =>
      ResolveGivesTheWinner(policies, claims, p);
      ResolveGivesTheWinner(shuffled, claims, p);
    case None =>
      match Resolve(shuffled, claims)
      case Some(p) =>
        ResolveGivesTheWinner(policies, claims, p);
        ResolveGivesTheWinner(shuffled, claims, p);
      case None =>
  }

  /** The policy cannot change the answer: it does not match, or a matching policy outranks it. */
  predicate Irrelevant(policies: seq<Policy>, claims: Claims, extra: Policy) {
    !Matches(extra, claims)
    || exists p :: p in policies && Matches(p, claims) && extra.priority < p.priority
  }

  /** Adding such a policy, anywhere, leaves the answer as it was. */
  lemma ResolveIgnoresIrrelevant(policies: seq<Policy>, longer: seq<Policy>, claims: Claims, extra: Policy)
    requires Irrelevant(policies, claims, extra) && multiset(longer) == multiset(policies) + multiset{extra}
    ensures Resolve(longer, claims) == Resolve(policies, claims)
  {
    hide Resolve;
    match Resolve(policies, claims)
    case Some(p) => IrrelevantWinner(policies, longer, claims, extra, p);
    case None =>
      match Resolve(longer, claims)
      case Some(p) => IrrelevantWinner(policies, longer, claims, extra, p);
      case None =>
  }

  lemma IrrelevantWinner(policies: seq<Policy>, longer: seq<Policy>, claims: Claims, extra: Policy, p: Policy)
    requires Irrelevant(policies, claims, extra) && multiset(longer) == multiset(policies) + multiset{extra}
    ensures Resolve(longer, claims) == Some(p) <==> Resolve(policies, claims) == Some(p)
  {
    hide Resolve;
    ResolveGivesTheWinner(policies, claims, p);
    ResolveGivesTheWinner(longer, claims, p);
    var few, many := multiset(policies), multiset(longer);
    assert forall q :: q in many <==> q in few || q == extra;
    if Matches(extra, claims) {
      var q :| q in policies && Matches(q, claims) && extra.priority < q.priority;
      assert q in few && q in many;
      assert Wins(few, claims, p) ==> q.priority <= p.priority;
      assert Wins(many, claims, p) ==> q.priority <= p.priority;
    }
  }

  /** A policy matches exactly a caller who is in one of its groups or has one of its roles. */
  lemma MatchesExactly(p: Policy, claims: Claims)
    ensures Matches(p, claims)
      <==> || (exists g :: g in p.groupIds && g in claims.groupIds)
           || (exists r :: r in p.appRoles && r in claims.appRoles)
  {
    if Matches(p, claims) {
      if p.groupIds * claims.groupIds != {} {
        var g :| g in p.groupIds * claims.groupIds;
      } else {
        var r :| r in p.appRoles * claims.appRoles;
      }
    }
    assert forall g :: g in p.groupIds && g in claims.groupIds ==> g in p.groupIds * claims.groupIds;
    assert forall r :: r in p.appRoles && r in claims.appRoles ==> r in p.appRoles * claims.appRoles;
  }
}
