/**
Policy rules and their priorities (pkg/daemon/route/utils.go, pkg/daemon/route/route.go). The kernel's rules of one
family are a set; a listing of them comes in any order. Routes, and the tables they live in, are another matter.
*/
module RulePriority {
  import opened Addresses
  import opened Finite

  const MIN_ROUTE_TABLE := 10000
  const MAX_ROUTE_TABLE := 40000
  const MAX_RULE_PRIORITY := 32767
  const NODE_LOCAL_TABLE := 255
  const FROM_RULE_MASK := 0x4000 + 0x40
  const FROM_RULE_MARK := 0
  const BACK_TRAFFIC_MARK := 0x20

  /** Source subnets as canonical text. A priority of -1 means the attribute is absent. */
  datatype Rule = Rule(src: Option<string>, table: int, priority: int, mark: int, mask: int)

  function Real(priority: int): (p: int) {
    if priority == -1 then 0 else priority
  }

  ghost predicate Used(rules: set<Rule>, p: int) {
    exists r :: r in rules && Real(r.priority) == p
  }

  /** The least unused priority above the node local rule's: the highest one in the kernel's order. */
  ghost predicate HighestUnused(rules: set<Rule>, local: int, p: int) {
    && local < p <= MAX_RULE_PRIORITY && 0 <= p && !Used(rules, p)
    && forall q :: local < q < p && 0 <= q ==> Used(rules, q)
  }

  ghost predicate NoneUnused(rules: set<Rule>, local: int) {
    forall q :: local < q <= MAX_RULE_PRIORITY && 0 <= q ==> Used(rules, q)
  }

  /** The priority of the last node local rule listed, 0 without one. */
  function LocalPriority(list: seq<Rule>): (p: int) {
    if list == [] then 0
    else
      var last := list[|list| - 1];
      if last.table == NODE_LOCAL_TABLE then Real(last.priority) else LocalPriority(list[..|list| - 1])
  }

  /** No priority is left for another rule. */
  ghost predicate Exhausted(list: seq<Rule>) {
    NoneUnused(Elements(list), LocalPriority(list))
  }

  /** A rule with this source (none counts as a source of its own) and, when a table is asked for, this table. */
  predicate Matches(r: Rule, src: Option<string>, table: int) {
    r.src == src && (table > 0 ==> r.table == table)
  }

  ghost predicate RuleExists(rules: set<Rule>, src: Option<string>, table: int) {
    exists r :: r in rules && Matches(r, src, table)
  }

  // ---- the calls on a rule list -------------------------------------------------------------------------

  method FindHighestUnusedRulePriority(list: seq<Rule>) returns (r: Option<int>)
    ensures match r
      case Some(p) => HighestUnused(Elements(list), LocalPriority(list), p)
      case None => NoneUnused(Elements(list), LocalPriority(list))
  {
    var priorityMap: set<int> := {};
    var nodeLocalRulePrio := 0;
    for i := 0 to |list|
      invariant nodeLocalRulePrio == LocalPriority(list[..i])
      invariant forall p :: p in priorityMap <==> Used(Elements(list[..i]), p)
    {
      assert list[..i + 1][..i] == list[..i];
      assert Elements(list[..i + 1]) == Elements(list[..i]) + {list[i]};
      if list[i].table == NODE_LOCAL_TABLE {
        nodeLocalRulePrio := Real(list[i].priority);
      }
      priorityMap := priorityMap + {Real(list[i].priority)};
    }
    assert list[..|list|] == list;
    for priority := 0 to MAX_RULE_PRIORITY + 1
      invariant forall q :: 0 <= q < priority && nodeLocalRulePrio < q ==> Used(Elements(list), q)
    {
      if priority !in priorityMap && priority > nodeLocalRulePrio {
        return Some(priority);
      }
    }
    return None;
  }

  method CheckIfRuleExist(list: seq<Rule>, src: Option<string>, table: int) returns (r: Option<Rule>)
    ensures r.Some? <==> RuleExists(Elements(list), src, table)
    ensures r.Some? ==> r.value in list && Matches(r.value, src, table)
  {
    for i := 0 to |list|
      invariant forall j :: 0 <= j < i ==> !Matches(list[j], src, table)
    {
      if Matches(list[i], src, table) {
        return Some(list[i]);
      }
    }
    return None;
  }

  // ---- SyncRoutes as steps ------------------------------------------------------------------------------

  /** The tables of the local-direct, to-overlay and overlay-mark rules, in the order they are ensured, and the
      node local rule's priority. */
  datatype Config = Config(tables: seq<int>, local: int)
  {
    predicate Valid() {
      && |tables| == 3 && tables[0] != tables[1] && tables[0] != tables[2] && tables[1] != tables[2]
      && (forall i :: 0 <= i < 3 ==> tables[i] > 0 && tables[i] != NODE_LOCAL_TABLE)
    }

    ghost predicate Basic(i: nat, r: Rule)
      requires |tables| == 3 && i < 3
    {
      r.src.None? && r.table == tables[i]
    }
  }

  /** A rule from a subnet into the tables that belong to pod subnets. */
  predicate FromSubnet(r: Rule) {
    r.src.Some? && MIN_ROUTE_TABLE <= r.table <= MAX_ROUTE_TABLE
  }

  /** Where a run of SyncRoutes stands. */
  datatype Phase =
    | Idle
    | Ensured(k: nat)
    | Missing(k: nat)
    | Found(k: nat, p: int)
    | PodMissing(subnet: string, table: int)
    | PodFound(subnet: string, table: int, p: int)

  datatype World = World(rules: set<Rule>, phase: Phase)

  datatype Event =
    | Other(r: Rule)
    | Start
    | Check
    | Find(list: seq<Rule>)
    | Add
    | Delete(r: Rule)
    | Pod(subnet: string, table: int)
    | End

  /** The rules other owners add: no second node local rule, and none that passes for one of hybridnet's. */
  ghost predicate Foreign(c: Config, r: Rule)
    requires |c.tables| == 3
  {
    r.table != NODE_LOCAL_TABLE && !FromSubnet(r) && forall i: nat :: i < 3 ==> !c.Basic(i, r)
  }

  ghost predicate Enabled(c: Config, w: World, e: Event)
    requires |c.tables| == 3
  {
    match e
    case Other(r) => Foreign(c, r)
    case Start => w.phase.Idle?
    case Check => (w.phase.Ensured? && w.phase.k < 3) || w.phase.PodMissing?
    case Find(list) => Elements(list) == w.rules && (w.phase.Missing? || w.phase.PodMissing?)
    case Add => w.phase.Found? || w.phase.PodFound?
    case Delete(r) => w.phase == Ensured(3) && r in w.rules && FromSubnet(r) && r.mask == FROM_RULE_MASK
    case Pod(subnet, table) =>
      && w.phase == Ensured(3) && MIN_ROUTE_TABLE <= table < MAX_ROUTE_TABLE
      && !RuleExists(w.rules, Some(subnet), -1)
    case End => true
  }

  /** The k-th basic rule: only the overlay-mark rule matches a mark. */
  function BasicRule(c: Config, k: nat, p: int): (r: Rule)
    requires |c.tables| == 3 && k < 3
  {
    var mark := if k == 2 then BACK_TRAFFIC_MARK else 0;
    Rule(None, c.tables[k], p, mark, mark)
  }

  /** One event. A sync ends when it is complete or, at any point, with an error. */
  ghost predicate Step(c: Config, w: World, e: Event, w': World)
    requires |c.tables| == 3
  {
    Enabled(c, w, e) &&
    match e
    case Other(r) => w' == w.(rules := w.rules + {r})
    case Start => w' == w.(phase := Ensured(0))
    case Check =>
      if w.phase.Ensured? then
        w' == w.(phase :=
          if RuleExists(w.rules, None, c.tables[w.phase.k]) then Ensured(w.phase.k + 1) else Missing(w.phase.k))
      else w' == (if RuleExists(w.rules, Some(w.phase.subnet), w.phase.table) then w.(phase := Ensured(3)) else w)
    case Find(list) =>
      || (NoneUnused(w.rules, LocalPriority(list)) && w' == w.(phase := Idle))
      || exists p :: HighestUnused(w.rules, LocalPriority(list), p) && w' == w.(phase :=
          if w.phase.Missing? then Found(w.phase.k, p) else PodFound(w.phase.subnet, w.phase.table, p))
    case Add =>
      if w.phase.Found? then
        w.phase.k < 3 && w' == World(w.rules + {BasicRule(c, w.phase.k, w.phase.p)}, Ensured(w.phase.k + 1))
      else
        var r := Rule(Some(w.phase.subnet), w.phase.table, w.phase.p, FROM_RULE_MARK, FROM_RULE_MASK);
        w' == World(w.rules + {r}, Ensured(3))
    case Delete(r) => w' == w.(rules := w.rules - {r})
    case Pod(subnet, table) => w' == w.(phase := PodMissing(subnet, table))
    case End => w' == w.(phase := Idle)
  }

  ghost predicate Runs(c: Config, ws: seq<World>, es: seq<Event>)
    requires |c.tables| == 3
  {
    |ws| == |es| + 1 && forall i :: 0 <= i < |es| ==> Step(c, ws[i], es[i], ws[i + 1])
  }

  // ---- what every run keeps -----------------------------------------------------------------------------

  /** Used by a rule that no sync will ever delete. */
  ghost predicate Held(rules: set<Rule>, p: int) {
    exists r :: r in rules && Real(r.priority) == p && !FromSubnet(r)
  }

  /** The basic rules stand in their order, and before every rule from a pod subnet. */
  ghost predicate Ordered(c: Config, rules: set<Rule>)
    requires |c.tables| == 3
  {
    && (forall i: nat, j: nat, r, s :: i < j < 3 && r in rules && s in rules && c.Basic(i, r) && c.Basic(j, s) ==>
      r.priority < s.priority)
    && (forall i: nat, r, s :: i < 3 && r in rules && s in rules && c.Basic(i, r) && FromSubnet(s) ==>
      r.priority < s.priority)
  }

  ghost predicate Has(c: Config, rules: set<Rule>, i: nat)
    requires |c.tables| == 3 && i < 3
  {
    RuleExists(rules, None, c.tables[i])
  }

  ghost predicate HasUpTo(c: Config, rules: set<Rule>, k: nat)
    requires |c.tables| == 3
  {
    k <= 3 && forall i: nat :: i < k ==> Has(c, rules, i)
  }

  /** Everything between the node local rule and a basic rule is taken for good. */
  ghost predicate Taken(c: Config, rules: set<Rule>)
    requires |c.tables| == 3
  {
    forall i: nat, r, q :: i < 3 && r in rules && c.Basic(i, r) && c.local < q <= r.priority ==> Held(rules, q)
  }

  ghost predicate LocalStays(c: Config, rules: set<Rule>) {
    && (exists r :: r in rules && r.table == NODE_LOCAL_TABLE)
    && (forall r :: r in rules && r.table == NODE_LOCAL_TABLE ==> Real(r.priority) == c.local && !FromSubnet(r))
  }

  /** A priority found for the next rule is above every basic rule's, with nothing free below it. */
  ghost predicate Above(c: Config, rules: set<Rule>, p: int)
    requires |c.tables| == 3
  {
    c.local < p && forall i: nat, r :: i < 3 && r in rules && c.Basic(i, r) ==> r.priority < p
  }

  ghost predicate PhaseInv(c: Config, w: World)
    requires |c.tables| == 3
  {
    match w.phase
    case Idle => true
    case Ensured(k) => HasUpTo(c, w.rules, k)
    case Missing(k) => k < 3 && HasUpTo(c, w.rules, k) && !Has(c, w.rules, k)
    case Found(k, p) =>
      && k < 3 && HasUpTo(c, w.rules, k) && !Has(c, w.rules, k) && Above(c, w.rules, p)
      && forall q :: c.local < q < p ==> Held(w.rules, q)
    case PodMissing(_, table) => HasUpTo(c, w.rules, 3) && MIN_ROUTE_TABLE <= table < MAX_ROUTE_TABLE
    case PodFound(_, table, p) =>
      HasUpTo(c, w.rules, 3) && MIN_ROUTE_TABLE <= table < MAX_ROUTE_TABLE && Above(c, w.rules, p)
  }

  ghost predicate Inv(c: Config, w: World)
    requires |c.tables| == 3
  {
    && c.Valid() && c.local >= 0 && LocalStays(c, w.rules)
    && Ordered(c, w.rules) && Taken(c, w.rules)
    && (forall i: nat, j: nat :: i < j < 3 && Has(c, w.rules, j) ==> Has(c, w.rules, i))
    && (forall r :: r in w.rules && FromSubnet(r) ==> r.mask == FROM_RULE_MASK && HasUpTo(c, w.rules, 3))
    && PhaseInv(c, w)
  }

  lemma LocalListed(c: Config, list: seq<Rule>)
    requires exists r :: r in list && r.table == NODE_LOCAL_TABLE
    requires forall r :: r in list && r.table == NODE_LOCAL_TABLE ==> Real(r.priority) == c.local
    ensures LocalPriority(list) == c.local
  {
    var last := list[|list| - 1];
    if last.table != NODE_LOCAL_TABLE {
      var r :| r in list && r.table == NODE_LOCAL_TABLE;
      assert r in list[..|list| - 1];
      LocalListed(c, list[..|list| - 1]);
    }
  }

  /** No priority that is taken for good can be found unused. */
  lemma FoundAbove(c: Config, rules: set<Rule>, p: int)
    requires |c.tables| == 3 && Taken(c, rules) && HighestUnused(rules, c.local, p)
    ensures Above(c, rules, p)
  {
    assert !Held(rules, p);
  }

  lemma HeldGrows(rules: set<Rule>, r: Rule)
    ensures forall q :: Held(rules, q) ==> Held(rules + {r}, q)
  {
    forall q | Held(rules, q)
      ensures Held(rules + {r}, q)
    {
      var s :| s in rules && Real(s.priority) == q && !FromSubnet(s);
      assert s in rules + {r};
    }
  }

  lemma HasGrows(c: Config, rules: set<Rule>, r: Rule, i: nat)
    requires |c.tables| == 3 && i < 3 && c.Valid()
    ensures Has(c, rules + {r}, i) <==> Has(c, rules, i) || c.Basic(i, r)
  {
    if Has(c, rules, i) {
      var s :| s in rules && Matches(s, None, c.tables[i]);
      assert s in rules + {r};
    }
    if c.Basic(i, r) {
      assert r in rules + {r} && Matches(r, None, c.tables[i]);
    }
  }

  lemma OtherKeeps(c: Config, w: World, r: Rule)
    requires |c.tables| == 3 && Inv(c, w) && Foreign(c, r)
    ensures Inv(c, w.(rules := w.rules + {r}))
  {
    var rules := w.rules + {r};
    HeldGrows(w.rules, r);
    forall i: nat | i < 3
      ensures Has(c, rules, i) <==> Has(c, w.rules, i)
    {
      HasGrows(c, w.rules, r, i);
    }
  }

  /** Adding the basic rule that a sync found a place for. */
  lemma AddBasicKeeps(c: Config, w: World, w': World)
    requires |c.tables| == 3 && Inv(c, w) && w.phase.Found? && Step(c, w, Add, w')
    ensures Inv(c, w')
  {
    var k, p := w.phase.k, w.phase.p;
    var r := BasicRule(c, k, p);
    HeldGrows(w.rules, r);
    forall i: nat | i < 3
      ensures Has(c, w'.rules, i) <==> Has(c, w.rules, i) || i == k
    {
      HasGrows(c, w.rules, r, i);
    }
    assert forall i: nat, s :: i < 3 && s in w.rules && c.Basic(i, s) ==> i < k by {
      forall i: nat, s | i < 3 && s in w.rules && c.Basic(i, s)
        ensures i < k
      {
        assert Matches(s, None, c.tables[i]);
        assert Has(c, w.rules, i);
      }
    }
    assert r in w'.rules && Real(r.priority) == p;
    assert Held(w'.rules, p);
  }

  lemma AddPodKeeps(c: Config, w: World, w': World)
    requires |c.tables| == 3 && Inv(c, w) && w.phase.PodFound? && Step(c, w, Add, w')
    ensures Inv(c, w')
  {
    var r := Rule(Some(w.phase.subnet), w.phase.table, w.phase.p, FROM_RULE_MARK, FROM_RULE_MASK);
    HeldGrows(w.rules, r);
    forall i: nat | i < 3
      ensures Has(c, w'.rules, i) <==> Has(c, w.rules, i)
    {
      HasGrows(c, w.rules, r, i);
    }
  }

  /** Deleting a rule from a pod subnet frees no place below the basic rules. */
  lemma DeleteKeeps(c: Config, w: World, r: Rule)
    requires |c.tables| == 3 && Inv(c, w) && Enabled(c, w, Delete(r))
    ensures Inv(c, w.(rules := w.rules - {r}))
  {
    var rules := w.rules - {r};
    assert rules + {r} == w.rules;
    forall q | Held(w.rules, q)
      ensures Held(rules, q)
    {
      var s :| s in w.rules && Real(s.priority) == q && !FromSubnet(s);
      assert s in rules;
    }
    forall i: nat | i < 3
      ensures Has(c, rules, i) <==> Has(c, w.rules, i)
    {
      HasGrows(c, rules, r, i);
    }
    var l :| l in w.rules && l.table == NODE_LOCAL_TABLE;
    assert l in rules;
  }

  lemma FindKeeps(c: Config, w: World, list: seq<Rule>, w': World)
    requires |c.tables| == 3 && Inv(c, w) && Step(c, w, Find(list), w')
    ensures Inv(c, w')
  {
    assert forall r :: r in list <==> r in w.rules;
    LocalListed(c, list);
    if !w'.phase.Idle? {
      var p := w'.phase.p;
      FoundAbove(c, w.rules, p);
      if w.phase.Missing? {
        forall q | c.local < q < p
          ensures Held(w.rules, q)
        {
          assert Used(w.rules, q);
        }
      }
    }
  }

  lemma StepKeeps(c: Config, w: World, e: Event, w': World)
    requires |c.tables| == 3 && Inv(c, w) && Step(c, w, e, w')
    ensures Inv(c, w')
  {
    match e {
      case Other(r) => OtherKeeps(c, w, r);
      case Find(list) => FindKeeps(c, w, list, w');
      case Delete(r) => DeleteKeeps(c, w, r);
      case Add => if w.phase.Found? { AddBasicKeeps(c, w, w'); } else { AddPodKeeps(c, w, w'); }
      case _ =>
    }
  }

  /** Starting without any rule of hybridnet, after any number of complete or failed syncs, with other owners
      adding rules at any point, the three basic rules stand in order before every rule from a pod subnet. */
  lemma {:induction false} OrderHolds(c: Config, ws: seq<World>, es: seq<Event>, k: nat)
    requires c.Valid() && c.local >= 0 && Runs(c, ws, es) && k < |ws|
    requires ws[0].phase == Idle && LocalStays(c, ws[0].rules)
    requires forall r :: r in ws[0].rules ==> r.table == NODE_LOCAL_TABLE || Foreign(c, r)
    ensures Inv(c, ws[k]) && Ordered(c, ws[k].rules)
  {
    if k > 0 {
      OrderHolds(c, ws, es, k - 1);
      StepKeeps(c, ws[k - 1], es[k - 1], ws[k]);
    } else {
      forall i: nat | i < 3
        ensures !Has(c, ws[0].rules, i)
      {
        if Has(c, ws[0].rules, i) {
          var r :| r in ws[0].rules && Matches(r, None, c.tables[i]);
          assert c.Basic(i, r);
        }
      }
    }
  }

  /** Whether the next rule lands behind the basic ones is decided by the gaps alone: it does if and only if every
      priority between the node local rule and the last basic rule is in use. */
  lemma NextIsBehind(c: Config, rules: set<Rule>, p: int)
    requires c.Valid() && HighestUnused(rules, c.local, p) && c.local >= 0
    ensures Above(c, rules, p) <==>
      forall i: nat, r, q :: i < 3 && r in rules && c.Basic(i, r) && c.local < q <= r.priority ==> Used(rules, q)
  {
  }

  lemma ElementsAppend(list: seq<Rule>, r: Rule)
    ensures Elements(list + [r]) == Elements(list) + {r}
  {
  }

  /** The three steps by which a sync adds a basic rule. */
  lemma AddStage(c: Config, rules: set<Rule>, list: seq<Rule>, k: nat, p: int)
    requires |c.tables| == 3 && k < 3 && !RuleExists(rules, None, c.tables[k])
    requires Elements(list) == rules && HighestUnused(rules, LocalPriority(list), p)
    ensures Step(c, World(rules, Ensured(k)), Check, World(rules, Missing(k)))
    ensures Step(c, World(rules, Missing(k)), Find(list), World(rules, Found(k, p)))
    ensures Step(c, World(rules, Found(k, p)), Add, World(rules + {BasicRule(c, k, p)}, Ensured(k + 1)))
  {
  }

  const DEFAULTS := Config([39999, 40000, 40001], 0)
  const LOCAL := Rule(None, NODE_LOCAL_TABLE, -1, 0, 0)
  const OTHER := Rule(None, 100, 1, 0, 0)

  /** The rules after `k` basic rules have been added behind another owner's rule. */
  function Listed(k: nat): (list: seq<Rule>)
    requires k <= 3
  {
    [LOCAL, OTHER] + [BasicRule(DEFAULTS, 0, 2), BasicRule(DEFAULTS, 1, 3), BasicRule(DEFAULTS, 2, 4)][..k]
  }

  /** The priorities are in use one after the other. */
  lemma ListedAt(k: nat, i: nat)
    requires k <= 3 && i < |Listed(k)|
    ensures Real(Listed(k)[i].priority) == i
  {
    if i < 2 {
      assert Listed(k)[i] == [LOCAL, OTHER][i];
    } else {
      assert Listed(k)[i] == BasicRule(DEFAULTS, i - 2, i);
    }
  }

  lemma StageOf(k: nat)
    requires k < 3
    ensures !RuleExists(Elements(Listed(k)), None, DEFAULTS.tables[k])
    ensures LocalPriority(Listed(k)) == 0 && HighestUnused(Elements(Listed(k)), 0, k + 2)
    ensures Elements(Listed(k + 1)) == Elements(Listed(k)) + {BasicRule(DEFAULTS, k, k + 2)}
  {
    var list := Listed(k);
    assert list[0] == LOCAL;
    LocalListed(DEFAULTS, list);
    assert Listed(k + 1) == list + [BasicRule(DEFAULTS, k, k + 2)];
    ElementsAppend(list, BasicRule(DEFAULTS, k, k + 2));
    forall q | 0 <= q < k + 2
      ensures Real(list[q].priority) == q && Used(Elements(list), q)
    {
      ListedAt(k, q);
      assert list[q] in Elements(list);
    }
  }

  lemma Extend(c: Config, ws: seq<World>, es: seq<Event>, e: Event, w: World)
    requires |c.tables| == 3 && Runs(c, ws, es) && Step(c, ws[|es|], e, w)
    ensures Runs(c, ws + [w], es + [e])
  {
  }

  /** A first sync behind another owner's rule, up to the basic rule `k`. */
  lemma {:induction false} FirstSync(k: nat) returns (ws: seq<World>, es: seq<Event>)
    requires k <= 3
    ensures Runs(DEFAULTS, ws, es) && ws[0] == World({LOCAL, OTHER}, Idle)
    ensures ws[|es|] == World(Elements(Listed(k)), Ensured(k))
  {
    if k == 0 {
      assert Elements(Listed(0)) == {LOCAL, OTHER};
      ws, es := [World({LOCAL, OTHER}, Idle), World({LOCAL, OTHER}, Ensured(0))], [Start];
    } else {
      var rules := Elements(Listed(k - 1));
      ws, es := FirstSync(k - 1);
      StageOf(k - 1);
      AddStage(DEFAULTS, rules, Listed(k - 1), k - 1, k + 1);
      Extend(DEFAULTS, ws, es, Check, World(rules, Missing(k - 1)));
      ws, es := ws + [World(rules, Missing(k - 1))], es + [Check];
      Extend(DEFAULTS, ws, es, Find(Listed(k - 1)), World(rules, Found(k - 1, k + 1)));
      ws, es := ws + [World(rules, Found(k - 1, k + 1))], es + [Find(Listed(k - 1))];
      Extend(DEFAULTS, ws, es, Add, World(Elements(Listed(k)), Ensured(k)));
      ws, es := ws + [World(Elements(Listed(k)), Ensured(k))], es + [Add];
    }
  }

  lemma WithoutOther(list: seq<Rule>)
    requires list == [LOCAL, BasicRule(DEFAULTS, 0, 2), BasicRule(DEFAULTS, 1, 3), BasicRule(DEFAULTS, 2, 4)]
    ensures Elements(list) == Elements(Listed(3)) - {OTHER}
  {
    assert Listed(3) == [LOCAL, OTHER] + list[1..];
    assert list == [LOCAL] + list[1..];
    assert forall r :: r in list[1..] ==> r != OTHER;
  }

  /** When the other owner then removes its rule, the first rule from a pod subnet lands in front of all others. */
  lemma AfterRemoval(subnet: string) returns (ws: seq<World>, es: seq<Event>)
    ensures Runs(DEFAULTS, ws, es) && ws[0] == World(Elements(Listed(3)) - {OTHER}, Ensured(3))
    ensures !Ordered(DEFAULTS, ws[|es|].rules)
  {
    var basic, table := BasicRule(DEFAULTS, 0, 2), MIN_ROUTE_TABLE;
    var list := [LOCAL, basic, BasicRule(DEFAULTS, 1, 3), BasicRule(DEFAULTS, 2, 4)];
    var rules := Elements(list);
    WithoutOther(list);
    assert list[0] == LOCAL;
    LocalListed(DEFAULTS, list);
    assert HighestUnused(rules, 0, 1);
    var r := Rule(Some(subnet), table, 1, FROM_RULE_MARK, FROM_RULE_MASK);
    ws := [World(rules, Ensured(3)), World(rules, PodMissing(subnet, table)), World(rules, PodFound(subnet, table, 1)),
           World(rules + {r}, Ensured(3))];
    es := [Pod(subnet, table), Find(list), Add];
    assert basic in list && DEFAULTS.Basic(0, basic) && FromSubnet(r) && r.priority < basic.priority;
  }

  /** So the order rests on other owners removing nothing: from a state that a sync reaches, the removal of another
      owner's rule, followed by further steps of the sync, breaks it. */
  lemma RemovalBreaksOrder() returns (ws: seq<World>, es: seq<Event>, ws': seq<World>, es': seq<Event>)
    ensures DEFAULTS.Valid() && Foreign(DEFAULTS, OTHER) && LocalStays(DEFAULTS, {LOCAL, OTHER})
    ensures Runs(DEFAULTS, ws, es) && ws[0] == World({LOCAL, OTHER}, Idle)
    ensures OTHER in ws[|es|].rules && Ordered(DEFAULTS, ws[|es|].rules)
    ensures Runs(DEFAULTS, ws', es') && ws'[0] == ws[|es|].(rules := ws[|es|].rules - {OTHER})
    ensures !Ordered(DEFAULTS, ws'[|es'|].rules)
  {
    ws, es := FirstSync(3);
    ws', es' := AfterRemoval("10.0.0.0/24");
    assert Listed(3)[1] == OTHER;
    OrderHolds(DEFAULTS, ws, es, |es|);
  }

  // ---- one sync as a whole ------------------------------------------------------------------------------

  function Remove(list: seq<Rule>, r: Rule): (rest: seq<Rule>)
    ensures forall s :: s in rest <==> s in list && s != r
  {
    if list == [] then []
    else
      assert list == [list[0]] + list[1..];
      var rest := Remove(list[1..], r);
      if list[0] == r then rest else [list[0]] + rest
  }

  /** A rule from a pod subnet that is not local any more. */
  predicate Stale(r: Rule, local: set<string>) {
    FromSubnet(r) && r.mask == FROM_RULE_MASK && r.src.value !in local
  }

  /** The rules are as a sync between two of its steps expects them. */
  ghost predicate At(c: Config, list: seq<Rule>, k: nat) {
    |c.tables| == 3 && Inv(c, World(Elements(list), Ensured(k)))
  }

  lemma Deleted(c: Config, list: seq<Rule>, r: Rule)
    requires At(c, list, 3) && FromSubnet(r) && r.mask == FROM_RULE_MASK
    ensures At(c, Remove(list, r), 3)
  {
    var w := World(Elements(list), Ensured(3));
    if r in list {
      DeleteKeeps(c, w, r);
      assert Elements(Remove(list, r)) == w.rules - {r};
    } else {
      assert Elements(Remove(list, r)) == w.rules;
    }
  }

  lemma NoTable(rules: set<Rule>, src: Option<string>, table: int)
    requires !RuleExists(rules, src, -1)
    ensures !RuleExists(rules, src, table)
  {
    forall r | r in rules
      ensures !Matches(r, src, table)
    {
      assert !Matches(r, src, -1);
    }
  }

  lemma Unfinished(c: Config, list: seq<Rule>, k: nat)
    requires At(c, list, k)
    ensures At(c, list, 0)
  {
  }

  lemma FoundPlace(c: Config, list: seq<Rule>, k: nat, p: int)
    requires k < 3 && At(c, list, k) && !RuleExists(Elements(list), None, c.tables[k])
    requires HighestUnused(Elements(list), LocalPriority(list), p)
    ensures Inv(c, World(Elements(list), Found(k, p)))
  {
    var w := World(Elements(list), Missing(k));
    assert !Has(c, w.rules, k);
    FindKeeps(c, w, list, w.(phase := Found(k, p)));
  }

  lemma BasicAppended(c: Config, list: seq<Rule>, k: nat, p: int)
    requires k < 3 && At(c, list, k) && !RuleExists(Elements(list), None, c.tables[k])
    requires HighestUnused(Elements(list), LocalPriority(list), p)
    ensures At(c, list + [BasicRule(c, k, p)], k + 1)
  {
    FoundPlace(c, list, k, p);
    ElementsAppend(list, BasicRule(c, k, p));
    AddBasicKeeps(c, World(Elements(list), Found(k, p)), World(Elements(list + [BasicRule(c, k, p)]), Ensured(k + 1)));
  }

  lemma PodAppended(c: Config, list: seq<Rule>, subnet: string, table: int, p: int)
    requires At(c, list, 3) && MIN_ROUTE_TABLE <= table < MAX_ROUTE_TABLE
    requires HighestUnused(Elements(list), LocalPriority(list), p)
    ensures At(c, list + [Rule(Some(subnet), table, p, FROM_RULE_MARK, FROM_RULE_MASK)], 3)
  {
    var r := Rule(Some(subnet), table, p, FROM_RULE_MARK, FROM_RULE_MASK);
    var w1 := World(Elements(list), PodMissing(subnet, table));
    var w2 := w1.(phase := PodFound(subnet, table, p));
    FindKeeps(c, w1, list, w2);
    ElementsAppend(list, r);
    AddPodKeeps(c, w2, World(Elements(list + [r]), Ensured(3)));
  }

  /** The rule that sends what comes from a pod subnet into the table of that subnet. */
  ghost predicate PodRule(r: Rule, pod: (string, int)) {
    r.src == Some(pod.0) && r.table == pod.1 && r.mark == 0 && r.mask == 0x4040
  }

  /** A rule from the subnet exists, into whatever table. */
  ghost predicate Ruled(list: seq<Rule>, subnet: string) {
    exists r :: r in list && r.src == Some(subnet)
  }

  /** The rule is new, from a pod subnet that had none. */
  ghost predicate NewPodRule(before: seq<Rule>, pods: seq<(string, int)>, r: Rule) {
    exists i :: 0 <= i < |pods| && !Ruled(before, pods[i].0) && PodRule(r, pods[i])
  }

  /** The rule is the k-th basic one, of which there was none before: only the overlay-mark rule matches a mark. */
  ghost predicate NewBasicAt(c: Config, before: seq<Rule>, k: nat, r: Rule)
    requires |c.tables| == 3 && k < 3
  {
    !Has(c, Elements(before), k) && c.Basic(k, r) && r.mark == r.mask == if k == 2 then 0x20 else 0
  }

  ghost predicate NewBasicRule(c: Config, before: seq<Rule>, r: Rule)
    requires |c.tables| == 3
  {
    exists k: nat :: k < 3 && NewBasicAt(c, before, k, r)
  }

  lemma RuledExists(list: seq<Rule>, subnet: string)
    ensures Ruled(list, subnet) <==> RuleExists(Elements(list), Some(subnet), -1)
  {
    if r :| r in list && r.src == Some(subnet) {
      assert r in Elements(list) && Matches(r, Some(subnet), -1);
    }
  }

  lemma NewBasics(c: Config, start: seq<Rule>, before: seq<Rule>, rules: seq<Rule>, k: nat)
    requires |c.tables| == 3 && k < 3
    requires forall r :: r in start ==> r in before
    requires forall r :: r in before ==> r in start || NewBasicRule(c, start, r)
    requires forall r :: r in rules ==> r in before || NewBasicAt(c, before, k, r)
    ensures forall r :: r in rules ==> r in start || NewBasicRule(c, start, r)
  {
    if Has(c, Elements(start), k) {
      var r :| r in Elements(start) && Matches(r, None, c.tables[k]);
      assert r in Elements(before);
    }
    assert forall r :: r in rules && NewBasicAt(c, before, k, r) ==> NewBasicAt(c, start, k, r);
  }

  /** A rule from the subnet exists that a sync leaves alone. */
  ghost predicate Staying(before: seq<Rule>, local: set<string>, subnet: string) {
    exists r :: r in before && r.src == Some(subnet) && (FromSubnet(r) ==> subnet in local)
  }

  /** The rule comes from the sync, for a pod subnet without a rule that stays. */
  ghost predicate SyncedPodRule(before: seq<Rule>, local: set<string>, pods: seq<(string, int)>, r: Rule) {
    exists i :: 0 <= i < |pods| && !Staying(before, local, pods[i].0) && PodRule(r, pods[i])
  }

  /** What a sync makes of the rules before it. Each rule it finds stays, unless it is from a subnet that is not local;
      each rule it leaves was there and stays, or is a basic rule that was missing, or the rule of a pod subnet. */
  ghost predicate Synced(c: Config, before: seq<Rule>, rules: seq<Rule>, local: set<string>, pods: seq<(string, int)>)
    requires |c.tables| == 3
  {
    && (forall r :: r in before && (FromSubnet(r) ==> r.src.value in local) ==> r in rules)
    && (forall r :: r in rules ==>
          || (r in before && (FromSubnet(r) ==> r.src.value in local))
          || NewBasicRule(c, before, r)
          || SyncedPodRule(before, local, pods, r))
  }

  /** The pod subnet has the rule it had, where that stays, and else one rule or more, all into its own table. */
  ghost predicate PodSynced(before: seq<Rule>, rules: seq<Rule>, local: set<string>, pod: (string, int)) {
    Staying(before, local, pod.0) ||
    (Ruled(rules, pod.0) && forall r :: r in rules && r.src == Some(pod.0) ==> PodRule(r, pod))
  }

  lemma OwnRule(c: Config, before: seq<Rule>, rules: seq<Rule>, local: set<string>, pods: seq<(string, int)>, i: nat)
    requires |c.tables| == 3 && Synced(c, before, rules, local, pods) && i < |pods| && Ruled(rules, pods[i].0)
    requires forall j :: 0 <= j < |pods| && j != i ==> pods[j].0 != pods[i].0
    ensures PodSynced(before, rules, local, pods[i])
  {
  }

  /** The rules before the sync, those after the basic rules, those without the stale ones, and those at the end. */
  lemma SyncSteps(c: Config, before: seq<Rule>, basic: seq<Rule>, cleared: seq<Rule>, rules: seq<Rule>,
                  local: set<string>, pods: seq<(string, int)>)
    requires |c.tables| == 3
    requires forall r :: r in before ==> r in basic
    requires forall r :: r in basic ==> r in before || NewBasicRule(c, before, r)
    requires forall r :: r in cleared <==> r in basic && (FromSubnet(r) ==> r.src.value in local)
    requires forall r :: r in cleared ==> r in rules
    requires forall r :: r in rules ==> r in cleared || NewPodRule(cleared, pods, r)
    ensures Synced(c, before, rules, local, pods)
  {
    forall i | 0 <= i < |pods|
      ensures Staying(before, local, pods[i].0) ==> Ruled(cleared, pods[i].0)
    {
    }
    forall r | r in rules && r !in cleared
      ensures SyncedPodRule(before, local, pods, r)
    {
      var i :| 0 <= i < |pods| && !Ruled(cleared, pods[i].0) && PodRule(r, pods[i]);
    }
  }

  class RuleTable {
    var rules: seq<Rule>

    constructor (list: seq<Rule>)
      ensures rules == list
    {
      rules := list;
    }

    /** Adds the rule at the highest unused priority, unless a matching one exists or no priority is left. */
    method AppendHighestUnusedPriorityRuleIfNotExist(src: Option<string>, table: int, mark: int, mask: int)
      returns (ok: bool)
      modifies this
      ensures !ok <==>
        !RuleExists(Elements(old(rules)), src, table) && NoneUnused(Elements(old(rules)), LocalPriority(old(rules)))
      ensures !ok || RuleExists(Elements(old(rules)), src, table) ==> rules == old(rules)
      ensures ok && !RuleExists(Elements(old(rules)), src, table) ==>
        exists p :: HighestUnused(Elements(old(rules)), LocalPriority(old(rules)), p)
          && rules == old(rules) + [Rule(src, table, p, mark, mask)]
    {
      var exist := CheckIfRuleExist(rules, src, table);
      if exist.Some? {
        return true;
      }
      var priority := FindHighestUnusedRulePriority(rules);
      if priority.None? {
        return false;
      }
      rules := rules + [Rule(src, table, priority.value, mark, mask)];
      return true;
    }

    /** One of the three basic rules. */
    method EnsureBasic(c: Config, k: nat) returns (ok: bool)
      requires k < 3 && At(c, rules, k)
      modifies this
      ensures if ok then At(c, rules, k + 1) && forall r :: r in old(rules) ==> r in rules
              else rules == old(rules) && Exhausted(rules)
      ensures forall r :: r in rules ==> r in old(rules) || NewBasicAt(c, old(rules), k, r)
    {
      var mark := if k == 2 then BACK_TRAFFIC_MARK else 0;
      ok := AppendHighestUnusedPriorityRuleIfNotExist(None, c.tables[k], mark, mark);
      if ok {
        if RuleExists(Elements(old(rules)), None, c.tables[k]) {
          StepKeeps(c, World(Elements(rules), Ensured(k)), Check, World(Elements(rules), Ensured(k + 1)));
        } else {
          ghost var p :| HighestUnused(Elements(old(rules)), LocalPriority(old(rules)), p)
            && rules == old(rules) + [Rule(None, c.tables[k], p, mark, mark)];
          BasicAppended(c, old(rules), k, p);
        }
      }
    }

    /** Deletes the rules from subnets that are not local any more, walking a listing made before. */
    method DeleteStale(c: Config, local: set<string>)
      requires At(c, rules, 3)
      modifies this
      ensures At(c, rules, 3)
      ensures forall r :: r in rules <==> r in old(rules) && (FromSubnet(r) ==> r.src.value in local)
    {
      var list := rules;
      for i := 0 to |list|
        invariant At(c, rules, 3)
        invariant forall r :: r in rules <==> r in list && !(r in list[..i] && Stale(r, local))
      {
        if Stale(list[i], local) {
          Deleted(c, rules, list[i]);
          rules := Remove(rules, list[i]);
        }
      }
      assert list[..|list|] == list;
      assert forall r :: r in list ==> r in Elements(list);
    }

    /** The rule of one pod subnet, with the table found for it; an existing rule is left alone. */
    method EnsurePod(c: Config, subnet: string, table: int, broken: set<string>) returns (ok: bool)
      requires At(c, rules, 3) && MIN_ROUTE_TABLE <= table < MAX_ROUTE_TABLE
      modifies this
      ensures At(c, rules, 3)
      ensures !ok || Ruled(old(rules), subnet) ==> rules == old(rules)
      ensures forall r :: r in old(rules) ==> r in rules
      ensures forall r :: r in rules ==> r in old(rules) || (!Ruled(old(rules), subnet) && PodRule(r, (subnet, table)))
      ensures ok ==> Ruled(rules, subnet)
      ensures !ok ==> Exhausted(rules) || subnet in broken
    {
      RuledExists(rules, subnet);
      var exist := CheckIfRuleExist(rules, Some(subnet), -1);
      if subnet in broken {
        return false;
      }
      if exist.Some? {
        return true;
      }
      NoTable(Elements(rules), Some(subnet), table);
      ok := AppendHighestUnusedPriorityRuleIfNotExist(Some(subnet), table, FROM_RULE_MARK, FROM_RULE_MASK);
      if ok {
        ghost var p :| HighestUnused(Elements(old(rules)), LocalPriority(old(rules)), p)
          && rules == old(rules) + [Rule(Some(subnet), table, p, FROM_RULE_MARK, FROM_RULE_MASK)];
        PodAppended(c, old(rules), subnet, table, p);
        assert rules[|rules| - 1].src == Some(subnet);
      }
    }

    /** A rule, and the routes it leads to, for each local pod subnet. The table is the empty one found for it; the
        routes of a broken subnet cannot be made. */
    method EnsurePods(c: Config, pods: seq<(string, int)>, broken: set<string>) returns (ok: bool)
      requires At(c, rules, 3)
      requires forall i :: 0 <= i < |pods| ==> MIN_ROUTE_TABLE <= pods[i].1 < MAX_ROUTE_TABLE
      modifies this
      ensures At(c, rules, 3) && forall r :: r in old(rules) ==> r in rules
      ensures forall r :: r in rules ==> r in old(rules) || NewPodRule(old(rules), pods, r)
      ensures ok ==> forall i :: 0 <= i < |pods| ==> Ruled(rules, pods[i].0)
      ensures !ok ==> Exhausted(rules) || exists i :: 0 <= i < |pods| && pods[i].0 in broken
    {
      for i := 0 to |pods|
        invariant At(c, rules, 3) && forall r :: r in old(rules) ==> r in rules
        invariant forall r :: r in rules ==> r in old(rules) || NewPodRule(old(rules), pods, r)
        invariant forall j :: 0 <= j < i ==> Ruled(rules, pods[j].0)
      {
        ghost var before := rules;
        ok := EnsurePod(c, pods[i].0, pods[i].1, broken);
        forall r | r in rules && r !in before
          ensures NewPodRule(old(rules), pods, r)
        {
          assert !Ruled(old(rules), pods[i].0) && PodRule(r, pods[i]);
        }
        if !ok {
          return;
        }
      }
      return true;
    }

    /** The basic rules, in order. */
    method EnsureBasics(c: Config) returns (ok: bool)
      requires At(c, rules, 0)
      modifies this
      ensures At(c, rules, if ok then 3 else 0)
      ensures forall r :: r in old(rules) ==> r in rules
      ensures forall r :: r in rules ==> r in old(rules) || NewBasicRule(c, old(rules), r)
      ensures !ok ==> Exhausted(rules)
    {
      for k := 0 to 3
        invariant At(c, rules, k)
        invariant forall r :: r in old(rules) ==> r in rules
        invariant forall r :: r in rules ==> r in old(rules) || NewBasicRule(c, old(rules), r)
      {
        ghost var before := rules;
        ok := EnsureBasic(c, k);
        NewBasics(c, old(rules), before, rules, k);
        if !ok {
          Unfinished(c, rules, k);
          return;
        }
      }
      return true;
    }

    /** The rules of one sync; `routed` says whether the excluded blocks and the to-overlay and overlay-mark routes,
        which come after the basic rules, can be made. Where it succeeds, the basic rules exist and each pod subnet has
        the rule it had or, if it had none that stays, one into its own table. No other rule is new, and only rules
        from subnets that are not local are gone. It fails only where routes cannot be made or no priority is left, and
        the order holds even then. */
    method SyncRules(c: Config, routed: bool, local: set<string>, pods: seq<(string, int)>, broken: set<string>)
      returns (ok: bool)
      requires At(c, rules, 0)
      requires forall i :: 0 <= i < |pods| ==> MIN_ROUTE_TABLE <= pods[i].1 < MAX_ROUTE_TABLE
      modifies this
      ensures At(c, rules, if ok then 3 else 0) && Ordered(c, Elements(rules))
      ensures ok ==> routed
      ensures !ok ==> !routed || Exhausted(rules) || exists i :: 0 <= i < |pods| && pods[i].0 in broken
      ensures forall r :: r in old(rules) && (FromSubnet(r) ==> r.src.value in local) ==> r in rules
      ensures ok ==> Synced(c, old(rules), rules, local, pods)
      ensures ok ==> forall i :: 0 <= i < |pods| ==> Ruled(rules, pods[i].0)
      ensures ok ==> forall i :: 0 <= i < |pods| && (forall j :: 0 <= j < |pods| && j != i ==> pods[j].0 != pods[i].0)
                       ==> PodSynced(old(rules), rules, local, pods[i])
    {
      ok := EnsureBasics(c);
      if !ok {
        return;
      }
      if !routed {
        Unfinished(c, rules, 3);
        return false;
      }
      ghost var basic := rules;
      DeleteStale(c, local);
      ghost var cleared := rules;
      ok := EnsurePods(c, pods, broken);
      SyncSteps(c, old(rules), basic, cleared, rules, local, pods);
      forall i | ok && 0 <= i < |pods| && (forall j :: 0 <= j < |pods| && j != i ==> pods[j].0 != pods[i].0)
        ensures PodSynced(old(rules), rules, local, pods[i])
      {
        OwnRule(c, old(rules), rules, local, pods, i);
      }
      Unfinished(c, rules, 3);
    }
  }
}
