/** The fleet's policy, the two thresholds derived from it, and the decision. */
module Quorum {
  import opened Basics
  import opened Postcard

  datatype PolicyError =
    | EmptyFleet
    | BlankMemberId
    | DuplicateMemberId
    | CompetenceOutOfRange
    | CompetenceRatioExceeded
    | FaultBudgetOutOfRange
    | NonPositiveCompetenceRatio

  const DEFAULT_BYZANTINE_BPS: u32 := 4_000

  type score = x: int | 0 <= x < 0x100

  datatype Policy = Policy(
    competences: map<text, score>, byzantineBps: u32, maxCompetenceRatio: u32, total: nat)
  {
    function Size(): nat {
      |competences|
    }

    /** Members the fault budget allows to be compromised, rounded down. */
    function MaxFaulty(): nat {
      byzantineBps * Size() / 10_000
    }

    function MinSigners(): nat {
      (Size() + MaxFaulty()) / 2 + 1
    }
  }

  // ---- sums over sets of members ----

  ghost function Sum(m: map<text, score>, s: set<text>): nat
    requires s <= m.Keys
  {
    if s == {} then 0
    else
      var x :| x in s;
      m[x] + Sum(m, s - {x})
  }

  lemma {:induction false} SumRemove(m: map<text, score>, s: set<text>, x: text)
    requires s <= m.Keys && x in s
    ensures Sum(m, s) == m[x] + Sum(m, s - {x})
    decreases |s|
  {
    var y :| y in s && Sum(m, s) == m[y] + Sum(m, s - {y});
    if y != x {
      SumRemove(m, s - {y}, x);
      SumRemove(m, s - {x}, y);
      assert s - {y} - {x} == s - {x} - {y};
    }
  }

  lemma {:induction false} SumUnion(m: map<text, score>, s: set<text>, t: set<text>)
    requires s <= m.Keys && t <= m.Keys && s !! t
    ensures Sum(m, s + t) == Sum(m, s) + Sum(m, t)
    decreases |s|
  {
    if s == {} {
      assert s + t == t;
    } else {
      var x :| x in s;
      SumRemove(m, s, x);
      SumRemove(m, s + t, x);
      assert s + t - {x} == (s - {x}) + t;
      SumUnion(m, s - {x}, t);
    }
  }

  lemma OneMore(n: nat, t: nat)
    ensures (n + 1) * t == n * t + t
  {
  }

  lemma {:induction false} SumAtLeast(m: map<text, score>, s: set<text>, t: nat)
    requires s <= m.Keys && forall x :: x in s ==> m[x] >= t
    ensures Sum(m, s) >= |s| * t
    decreases |s|
  {
    if s != {} {
      var x :| x in s;
      SumRemove(m, s, x);
      SumAtLeast(m, s - {x}, t);
      OneMore(|s - {x}|, t);
    }
  }

  lemma {:induction false} SumAtMost(m: map<text, score>, s: set<text>, t: nat)
    requires s <= m.Keys && forall x :: x in s ==> m[x] <= t
    ensures Sum(m, s) <= |s| * t
    decreases |s|
  {
    if s != {} {
      var x :| x in s;
      SumRemove(m, s, x);
      SumAtMost(m, s - {x}, t);
      OneMore(|s - {x}|, t);
    }
  }

  // ---- building a policy ----

  /** Nobody is worth more than `ratio` times anybody else. */
  ghost predicate WithinRatio(m: map<text, score>, ratio: nat) {
    forall a, b :: a in m && b in m ==> m[a] <= ratio * m[b]
  }

  ghost predicate Lawful(p: Policy) {
    p.byzantineBps < 10_000
    && p.maxCompetenceRatio >= 1
    && p.competences != map[]
    && (forall id :: id in p.competences ==> id != [] && 1 <= p.competences[id] <= 100)
    && WithinRatio(p.competences, p.maxCompetenceRatio)
    && p.total == Sum(p.competences, p.competences.Keys)
  }

  predicate Distinct(members: seq<(text, score)>) {
    forall i, j :: 0 <= i < j < |members| ==> members[i].0 != members[j].0
  }

  /** The map says exactly what the list says. */
  ghost predicate Lists(members: seq<(text, score)>, m: map<text, score>) {
    (forall i :: 0 <= i < |members| ==> members[i].0 in m && m[members[i].0] == members[i].1)
    && (forall id :: id in m ==> exists i :: 0 <= i < |members| && members[i].0 == id)
  }

  predicate Usable(member: (text, score)) {
    member.0 != [] && 1 <= member.1 <= 100
  }

  /** Which lists of members a lawful manifest may have. */
  ghost predicate Acceptable(members: seq<(text, score)>, bps: u32, ratio: u32) {
    bps < 10_000 && ratio >= 1 && members != []
    && (forall i :: 0 <= i < |members| ==> Usable(members[i]))
    && Distinct(members)
    && (forall i, j :: 0 <= i < |members| && 0 <= j < |members| ==>
      members[i].1 <= ratio * members[j].1)
  }

  /** What is wrong with the member in this place, if anything is. */
  function FaultAt(members: seq<(text, score)>, k: nat): Option<PolicyError>
    requires k < |members|
  {
    if members[k].0 == [] then Some(BlankMemberId)
    else if members[k].1 == 0 || members[k].1 > 100 then Some(CompetenceOutOfRange)
    else if exists j :: 0 <= j < k && members[j].0 == members[k].0 then Some(DuplicateMemberId)
    else None
  }

  predicate NoFaultBefore(members: seq<(text, score)>, k: nat)
    requires k <= |members|
  {
    forall j :: 0 <= j < k ==> FaultAt(members, j) == None
  }

  /** This is what is wrong with the first member that anything is wrong with. */
  ghost predicate FirstFault(members: seq<(text, score)>, error: PolicyError) {
    exists k :: 0 <= k < |members| && FaultAt(members, k) == Some(error) && NoFaultBefore(members, k)
  }

  lemma FaultlessIsUsable(members: seq<(text, score)>)
    ensures NoFaultBefore(members, |members|)
       <==> Distinct(members) && forall i :: 0 <= i < |members| ==> Usable(members[i])
  {
    if NoFaultBefore(members, |members|) {
      forall i, j | 0 <= i < j < |members|
        ensures members[i].0 != members[j].0
      {
        assert FaultAt(members, j) == None;
      }
      forall i | 0 <= i < |members|
        ensures Usable(members[i])
      {
        assert FaultAt(members, i) == None;
      }
    }
  }

  /** The members, checked one by one in the order they come. */
  method Collect(members: seq<(text, score)>) returns (r: Result<map<text, score>, PolicyError>)
    ensures r.Ok? <==> Distinct(members) && forall i :: 0 <= i < |members| ==> Usable(members[i])
    ensures r.Ok? ==> Lists(members, r.value)
    ensures r.Err? ==> FirstFault(members, r.error)
  {
    var competences: map<text, score> := map[];
    FaultlessIsUsable(members);
    for i := 0 to |members|
      invariant NoFaultBefore(members, i)
      invariant Lists(members[..i], competences)
    {
      var (id, s) := members[i];
      if id == [] {
        assert FaultAt(members, i) == Some(BlankMemberId);
        return Err(BlankMemberId);
      }
      if s == 0 || s > 100 {
        assert FaultAt(members, i) == Some(CompetenceOutOfRange);
        return Err(CompetenceOutOfRange);
      }
      if id in competences {
        var k :| 0 <= k < i && members[..i][k].0 == id;
        assert members[k].0 == members[i].0;
        assert FaultAt(members, i) == Some(DuplicateMemberId);
        return Err(DuplicateMemberId);
      }
      forall k | 0 <= k < i
        ensures members[k].0 != id
      {
        assert members[..i][k].0 in competences;
      }
      ListsSnoc(members, i, competences);
      competences := competences[id := s];
    }
    assert members[..|members|] == members;
    return Ok(competences);
  }

  lemma ListsSnoc(members: seq<(text, score)>, i: nat, m: map<text, score>)
    requires i < |members| && Lists(members[..i], m) && members[i].0 !in m
    ensures Lists(members[..i + 1], m[members[i].0 := members[i].1])
  {
    var after := m[members[i].0 := members[i].1];
    var longer := members[..i + 1];
    assert longer == members[..i] + [members[i]];
    forall id | id in after
      ensures exists k :: 0 <= k < |longer| && longer[k].0 == id
    {
      if id == members[i].0 {
        assert longer[i].0 == id;
      } else {
        var k :| 0 <= k < i && members[..i][k].0 == id;
        assert longer[k].0 == id;
      }
    }
  }

  /** The most and the least anybody is worth, and what all of them are. */
  method Extremes(m: map<text, score>) returns (highest: score, lowest: score, total: nat)
    requires m != map[]
    ensures forall id :: id in m ==> lowest <= m[id] <= highest
    ensures exists id :: id in m && m[id] == highest
    ensures exists id :: id in m && m[id] == lowest
    ensures total == Sum(m, m.Keys)
  {
    highest, lowest, total := 0, 255, 0;
    var left := m.Keys;
    while left != {}
      invariant left <= m.Keys
      invariant forall id :: id in m && id !in left ==> lowest <= m[id] <= highest
      invariant left == m.Keys || exists id :: id in m && m[id] == highest
      invariant left == m.Keys || exists id :: id in m && m[id] == lowest
      invariant left == m.Keys ==> highest == 0 && lowest == 255
      invariant total + Sum(m, left) == Sum(m, m.Keys)
      decreases left
    {
      var id :| id in left;
      SumRemove(m, left, id);
      total := total + m[id];
      highest := Max(highest, m[id]);
      lowest := Min(lowest, m[id]);
      left := left - {id};
    }
  }

  /** A policy with an explicit fault budget and competence cap: granted exactly
      to acceptable manifests, and then lawful. */
  method WithSettings(members: seq<(text, score)>, bps: u32, ratio: u32)
    returns (r: Result<Policy, PolicyError>)
    ensures r.Ok? <==> Acceptable(members, bps, ratio)
    ensures r.Ok? ==> Lawful(r.value) && Lists(members, r.value.competences)
    ensures r.Ok? ==> r.value.byzantineBps == bps && r.value.maxCompetenceRatio == ratio
    ensures r == Err(FaultBudgetOutOfRange) <==> bps >= 10_000
    ensures r == Err(NonPositiveCompetenceRatio) <==> bps < 10_000 && ratio < 1
    ensures r == Err(EmptyFleet) <==> bps < 10_000 && ratio >= 1 && members == []
    ensures r == Err(CompetenceRatioExceeded) ==> NoFaultBefore(members, |members|)
    ensures r.Err? && r.error in {BlankMemberId, CompetenceOutOfRange, DuplicateMemberId} ==>
      FirstFault(members, r.error)
  {
    if bps >= 10_000 {
      return Err(FaultBudgetOutOfRange);
    }
    if ratio < 1 {
      return Err(NonPositiveCompetenceRatio);
    }
    FaultlessIsUsable(members);
    var collected := Collect(members);
    if collected.Err? {
      return Err(collected.error);
    }
    var competences := collected.value;
    assert members != [] ==> members[0].0 in competences;
    if competences == map[] {
      return Err(EmptyFleet);
    }
    assert members != [];
    var highest, lowest, total := Extremes(competences);
    RatioByExtremes(competences, highest, lowest, ratio);
    RatioAsListed(members, competences, ratio);
    if highest > ratio * lowest {
      return Err(CompetenceRatioExceeded);
    }
    AllUsable(members, competences);
    return Ok(Policy(competences, bps, ratio, total));
  }

  lemma AllUsable(members: seq<(text, score)>, m: map<text, score>)
    requires Lists(members, m) && forall i :: 0 <= i < |members| ==> Usable(members[i])
    ensures forall id :: id in m ==> id != [] && 1 <= m[id] <= 100
  {
    forall id | id in m
      ensures id != [] && 1 <= m[id] <= 100
    {
      var i :| 0 <= i < |members| && members[i].0 == id;
      assert Usable(members[i]);
    }
  }

  /** Comparing the extremes settles it for everybody. */
  lemma RatioByExtremes(m: map<text, score>, highest: score, lowest: score, ratio: nat)
    requires forall id :: id in m ==> lowest <= m[id] <= highest
    requires exists id :: id in m && m[id] == highest
    requires exists id :: id in m && m[id] == lowest
    ensures WithinRatio(m, ratio) <==> highest <= ratio * lowest
  {
    var a :| a in m && m[a] == highest;
    var b :| b in m && m[b] == lowest;
    assert WithinRatio(m, ratio) ==> m[a] <= ratio * m[b];
    if highest <= ratio * lowest {
      forall x, y | x in m && y in m
        ensures m[x] <= ratio * m[y]
      {
        Scale(ratio, lowest, m[y]);
      }
    }
  }

  lemma RatioAsListed(members: seq<(text, score)>, m: map<text, score>, ratio: nat)
    requires Lists(members, m)
    ensures WithinRatio(m, ratio)
       <==> (forall i, j :: 0 <= i < |members| && 0 <= j < |members| ==>
              members[i].1 <= ratio * members[j].1)
  {
    if WithinRatio(m, ratio) {
      forall i, j | 0 <= i < |members| && 0 <= j < |members|
        ensures members[i].1 <= ratio * members[j].1
      {
        assert m[members[i].0] <= ratio * m[members[j].0];
      }
    }
    if forall i, j :: 0 <= i < |members| && 0 <= j < |members| ==>
      members[i].1 <= ratio * members[j].1
    {
      forall a, b | a in m && b in m
        ensures m[a] <= ratio * m[b]
      {
        var i :| 0 <= i < |members| && members[i].0 == a;
        var j :| 0 <= j < |members| && members[j].0 == b;
        assert members[i].1 <= ratio * members[j].1;
      }
    }
  }

  // ---- the decision ----

  datatype QuorumResult = QuorumResult(
    signerCount: nat, supportCompetence: nat, countMet: bool, competenceMet: bool)
  {
    predicate Approved() {
      countMet && competenceMet
    }
  }

  datatype EvaluationError = UnknownSigner

  /** A set of members that clears both thresholds. */
  ghost predicate Approves(p: Policy, signers: set<text>) {
    signers <= p.competences.Keys
    && |signers| >= p.MinSigners()
    && 3 * Sum(p.competences, signers) > 2 * p.total
  }

  method Evaluate(p: Policy, signers: seq<text>) returns (r: Result<QuorumResult, EvaluationError>)
    ensures var unique := set s | s in signers;
            r == if unique <= p.competences.Keys then
                   Ok(QuorumResult(|unique|, Sum(p.competences, unique),
                                   |unique| >= p.MinSigners(),
                                   3 * Sum(p.competences, unique) > 2 * p.total))
                 else Err(UnknownSigner)
    ensures r.Ok? && r.value.Approved() <==> Approves(p, set s | s in signers)
  {
    var unique := set s | s in signers;
    var support := 0;
    var left := unique;
    while left != {}
      invariant left <= unique && unique - left <= p.competences.Keys
      invariant support == Sum(p.competences, unique - left)
      decreases left
    {
      var s :| s in left;
      if s !in p.competences {
        return Err(UnknownSigner);
      }
      SumRemove(p.competences, unique - left + {s}, s);
      assert unique - left + {s} - {s} == unique - left;
      assert unique - (left - {s}) == unique - left + {s};
      support := support + p.competences[s];
      left := left - {s};
    }
    assert unique - left == unique;
    return Ok(QuorumResult(|unique|, support,
                           |unique| >= p.MinSigners(), 3 * support > 2 * p.total));
  }

  // ---- what the thresholds guarantee ----

  lemma FaultBudget(p: Policy)
    requires Lawful(p)
    ensures p.MaxFaulty() < p.Size()
    ensures p.MaxFaulty() < p.MinSigners() <= p.Size()
    ensures 2 * p.MinSigners() - p.Size() > p.MaxFaulty()
  {
    var n := p.Size();
    assert n > 0 by {
      var id :| id in p.competences;
    }
    BudgetBelowFleet(p.byzantineBps, n);
  }

  lemma BudgetBelowFleet(bps: nat, n: nat)
    requires bps < 10_000 && n > 0
    ensures bps * n / 10_000 < n
  {
    assert bps * n <= 9_999 * n;
  }

  lemma UnionSize<T>(s: set<T>, t: set<T>, whole: set<T>)
    requires s <= whole && t <= whole
    ensures |s| + |t| - |s * t| <= |whole|
  {
    var rest := t - s;
    assert t == rest + s * t;
    Subset(s + rest, whole);
  }

  lemma {:induction false} Subset<T>(s: set<T>, whole: set<T>)
    requires s <= whole
    ensures |s| <= |whole|
    decreases |s|
  {
    if s != {} {
      var x :| x in s;
      Subset(s - {x}, whole - {x});
    }
  }

  /** Any two approving sets share more members than can be faulty. */
  lemma QuorumsIntersect(p: Policy, s: set<text>, t: set<text>)
    requires Lawful(p) && Approves(p, s) && Approves(p, t)
    ensures |s * t| > p.MaxFaulty()
  {
    FaultBudget(p);
    UnionSize(s, t, p.competences.Keys);
    assert |p.competences.Keys| == |p.competences|;
  }

  /** So, whoever the faulty members are, two approving sets share an honest
      one, and each holds at least `min_signers - max_faulty` honest members. */
  lemma QuorumsShareAnHonestMember(p: Policy, faulty: set<text>, s: set<text>, t: set<text>)
    requires Lawful(p) && |faulty| <= p.MaxFaulty()
    requires Approves(p, s) && Approves(p, t)
    ensures exists h :: h in s && h in t && h !in faulty
    ensures |s - faulty| >= p.MinSigners() - p.MaxFaulty()
  {
    QuorumsIntersect(p, s, t);
    HonestPart(s * t, faulty);
    HonestPart(s, faulty);
    assert s * t - faulty != {};
    var h :| h in s * t - faulty;
  }

  lemma HonestPart<T>(s: set<T>, faulty: set<T>)
    ensures |s - faulty| >= |s| - |faulty|
  {
    assert s == (s - faulty) + s * faulty;
    Subset(s * faulty, faulty);
  }

  lemma TotalIsPositive(p: Policy)
    requires Lawful(p)
    ensures p.total >= p.Size() > 0
  {
    var id :| id in p.competences;
    SumAtLeast(p.competences, p.competences.Keys, 1);
    assert |p.competences.Keys| == |p.competences|;
  }

  /** A unanimous fleet is always approved. */
  lemma WholeFleetApproves(p: Policy)
    requires Lawful(p)
    ensures Approves(p, p.competences.Keys)
  {
    FaultBudget(p);
    TotalIsPositive(p);
    assert |p.competences.Keys| == |p.competences|;
  }

  // ---- the smallest approving sets ----

  /** Nobody outside is worth more than anybody inside. */
  ghost predicate MostCompetent(m: map<text, score>, s: set<text>) {
    s <= m.Keys && forall a, b :: a in s && b in m && b !in s ==> m[b] <= m[a]
  }

  ghost function Weakest(m: map<text, score>, s: set<text>): (w: text)
    requires s != {} && s <= m.Keys
    ensures w in s && forall x :: x in s ==> m[w] <= m[x]
    decreases |s|
  {
    var x :| x in s;
    if s == {x} then x
    else
      assert forall y :: y in s ==> y == x || y in s - {x};
      var w := Weakest(m, s - {x});
      if m[x] <= m[w] then x else w
  }

  /** What the least of them is worth: nobody inside less, nobody outside more. */
  lemma Dividing(m: map<text, score>, s: set<text>) returns (t: nat)
    requires MostCompetent(m, s) && s != {}
    ensures forall x :: x in s ==> m[x] >= t
    ensures forall x :: x in m && x !in s ==> m[x] <= t
  {
    t := m[Weakest(m, s)];
  }

  /** The most competent members carry at least their share of the whole. */
  lemma MostCompetentCarryTheirShare(m: map<text, score>, s: set<text>)
    requires MostCompetent(m, s) && s != {}
    ensures Sum(m, s) * |m| >= |s| * Sum(m, m.Keys)
  {
    var rest := m.Keys - s;
    var t := Dividing(m, s);
    SumAtLeast(m, s, t);
    SumAtMost(m, rest, t);
    TotalSplits(m, s);
    SizeSplits(m.Keys, s);
    SizeOfKeys(m);
    Shares(Sum(m, s), Sum(m, rest), |s|, |rest|, t, |m|, Sum(m, m.Keys));
  }

  lemma TotalSplits(m: map<text, score>, s: set<text>)
    requires s <= m.Keys
    ensures Sum(m, m.Keys) == Sum(m, s) + Sum(m, m.Keys - s)
  {
    assert s + (m.Keys - s) == m.Keys;
    SumUnion(m, s, m.Keys - s);
  }

  lemma SizeSplits<T>(whole: set<T>, s: set<T>)
    requires s <= whole
    ensures |whole| == |s| + |whole - s|
  {
    assert s + (whole - s) == whole;
  }

  lemma SizeOfKeys<K, V>(m: map<K, V>)
    ensures |m.Keys| == |m|
  {
  }

  lemma Shares(a: nat, b: nat, k: nat, r: nat, t: nat, size: nat, total: nat)
    requires a >= k * t && b <= r * t && size == k + r && total == a + b
    ensures a * size >= k * total
  {
    assert a * r >= (k * t) * r;
    assert k * b <= k * (r * t);
    assert (k * t) * r == k * (r * t);
  }

  lemma {:induction false} MostCompetentOfSize(m: map<text, score>, k: nat)
    returns (s: set<text>)
    requires k <= |m|
    ensures MostCompetent(m, s) && |s| == k
    decreases |m| - k
  {
    if k == |m| {
      s := m.Keys;
      assert |m.Keys| == |m|;
    } else {
      var larger := MostCompetentOfSize(m, k + 1);
      var w := Weakest(m, larger);
      s := larger - {w};
    }
  }

  lemma MinSignersExceedTwoThirds(p: Policy)
    requires Lawful(p) && p.byzantineBps == DEFAULT_BYZANTINE_BPS
    ensures 3 * p.MinSigners() > 2 * p.Size()
  {
    var n := p.Size();
    assert p.MaxFaulty() == 4_000 * n / 10_000;
    assert 10_000 * p.MaxFaulty() > 4_000 * n - 10_000;
    assert 2 * p.MinSigners() >= n + p.MaxFaulty() + 1;
  }

  /** At the agreed fault budget the most competent `min_signers` members always
      approve, whatever the competences. */
  lemma MostCompetentApprove(p: Policy, s: set<text>)
    requires Lawful(p) && p.byzantineBps == DEFAULT_BYZANTINE_BPS
    requires MostCompetent(p.competences, s) && |s| == p.MinSigners()
    ensures Approves(p, s)
  {
    FaultBudget(p);
    TotalIsPositive(p);
    MinSignersExceedTwoThirds(p);
    MostCompetentCarryTheirShare(p.competences, s);
    var n, k, total, carried := p.Size(), p.MinSigners(), p.total, Sum(p.competences, s);
    Majority(carried, n, k, total);
  }

  lemma Majority(carried: nat, n: nat, k: nat, total: nat)
    requires n > 0 && total > 0 && 3 * k > 2 * n && carried * n >= k * total
    ensures 3 * carried > 2 * total
  {
    Scale(total, 2 * n + 1, 3 * k);
    assert n * (3 * carried) == 3 * (carried * n);
    assert total * (3 * k) == 3 * (k * total);
    assert total * (2 * n + 1) == n * (2 * total) + total;
    Cancel(n, 2 * total, 3 * carried);
  }

  lemma Cancel(n: nat, x: nat, y: nat)
    requires n * x < n * y
    ensures x < y
  {
    assert x >= y ==> n * x >= n * y;
  }

  /** So the smallest approving set has exactly `min_signers` members. */
  lemma SmallestApprovingSet(p: Policy)
    requires Lawful(p) && p.byzantineBps == DEFAULT_BYZANTINE_BPS
    ensures exists s :: Approves(p, s) && |s| == p.MinSigners()
    ensures forall s :: Approves(p, s) ==> |s| >= p.MinSigners()
  {
    FaultBudget(p);
    var s := MostCompetentOfSize(p.competences, p.MinSigners());
    MostCompetentApprove(p, s);
  }


  // ---- what the thresholds are ----

  /** The fault budget is the largest number of members that is no more than the
      policy's share of the fleet. */
  lemma MaxFaultyExactly(p: Policy, f: nat)
    ensures f <= p.MaxFaulty() <==> 10_000 * f <= p.byzantineBps * p.Size()
  {
    var share := p.byzantineBps * p.Size();
    assert share == 10_000 * (share / 10_000) + share % 10_000;
  }

  /** And the smallest signer count is the least at which any two such sets of
      signers must share more members than can be faulty. */
  lemma MinSignersExactly(p: Policy, k: nat)
    ensures k >= p.MinSigners() <==> 2 * k - p.Size() > p.MaxFaulty()
  {
  }
}
