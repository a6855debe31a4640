/** The two-level split of sessions over load clients, and of clients over servers. */
module Sessions {
  import opened Arithmetic
  import opened Sequences
  import opened Tally

  datatype Plan = Plan(client: nat, server: nat, port: nat, requested: nat)

  datatype Campaign = Campaign(sessions: nat, clients: nat, servers: nat, basePort: nat)

  predicate Valid(c: Campaign) { c.clients > 0 && c.servers > 0 }

  function PlanFor(c: Campaign, i: nat): (p: Plan)
    requires Valid(c)
  {
    Plan(i, i % c.servers, c.basePort + i % c.servers,
         c.sessions / c.clients + if i < c.sessions % c.clients then 1 else 0)
  }

  /** The plans of clients 0 .. n - 1, before filtering. */
  function PlansUpTo(c: Campaign, n: nat): (r: seq<Plan>)
    requires Valid(c)
    ensures |r| == n && forall i :: 0 <= i < n ==> r[i] == PlanFor(c, i)
  {
    if n == 0 then [] else PlansUpTo(c, n - 1) + [PlanFor(c, n - 1)]
  }

  function NonZero(plans: seq<Plan>): (r: seq<Plan>) {
    if plans == [] then []
    else
      var last := plans[|plans| - 1];
      NonZero(plans[..|plans| - 1]) + if last.requested > 0 then [last] else []
  }

  /** `buildMainClientPlans`. */
  function ClientPlans(c: Campaign): (r: seq<Plan>)
    requires Valid(c)
  {
    NonZero(PlansUpTo(c, c.clients))
  }

  function Total(plans: seq<Plan>): (n: nat) {
    if plans == [] then 0 else Total(plans[..|plans| - 1]) + plans[|plans| - 1].requested
  }

  function CapOf(plans: seq<Plan>, server: nat): (n: nat) {
    if plans == [] then 0
    else
      var last := plans[|plans| - 1];
      CapOf(plans[..|plans| - 1], server) + if last.server == server then last.requested else 0
  }

  /** `serverSessionCaps`, for the first `servers` servers. */
  function Caps(plans: seq<Plan>, servers: nat): (r: seq<nat>)
    ensures |r| == servers
  {
    if servers == 0 then [] else Caps(plans, servers - 1) + [CapOf(plans, servers - 1)]
  }

  // ---------------------------------------------------------------- the first level

  /** Client i gets `base` sessions, and one more while i is below `rest`. */
  ghost predicate Dealt(plans: seq<Plan>, base: nat, rest: nat) {
    forall i :: 0 <= i < |plans| ==> plans[i].requested == base + if i < rest then 1 else 0
  }

  lemma {:induction false} DealtTotal(plans: seq<Plan>, base: nat, rest: nat)
    requires Dealt(plans, base, rest)
    ensures Total(plans) == |plans| * base + if |plans| < rest then |plans| else rest
  {
    if plans != [] {
      DealtTotal(plans[..|plans| - 1], base, rest);
      assert |plans| * base == (|plans| - 1) * base + base;
    }
  }

  lemma {:induction false} DealtNonZero(plans: seq<Plan>, base: nat, rest: nat)
    requires Dealt(plans, base, rest)
    ensures NonZero(plans) == if base > 0 || |plans| < rest then plans else plans[..rest]
  {
    if plans != [] {
      var before, last := plans[..|plans| - 1], plans[|plans| - 1];
      DealtNonZero(before, base, rest);
      assert plans == before + [last];
    }
  }

  lemma Shares(n: nat, d: nat)
    requires d > 0
    ensures n == d * (n / d) + n % d && n % d < d
    ensures n < d <==> n / d == 0
    ensures n < d ==> n % d == n
  {
    Division(n, d);
    if n < d { DivisionUnique(n, d, 0, n); }
  }

  lemma {:induction false} NonZeroTotal(plans: seq<Plan>)
    ensures Total(NonZero(plans)) == Total(plans)
  {
    if plans != [] {
      var before, last := plans[..|plans| - 1], plans[|plans| - 1];
      NonZeroTotal(before);
      if last.requested > 0 {
        assert NonZero(plans)[..|NonZero(plans)| - 1] == NonZero(before);
      } else {
        assert NonZero(plans) == NonZero(before);
      }
    }
  }

  /** The plans add up to the sessions; dropping the empty ones loses none. */
  lemma PlansAddUp(c: Campaign)
    requires Valid(c)
    ensures Total(ClientPlans(c)) == c.sessions
  {
    NonZeroTotal(PlansUpTo(c, c.clients));
    DealtTotal(PlansUpTo(c, c.clients), c.sessions / c.clients, c.sessions % c.clients);
    Shares(c.sessions, c.clients);
  }

  /** Exactly the first clients get work, as many as there are sessions for. */
  lemma FirstClientsWork(c: Campaign)
    requires Valid(c)
    ensures ClientPlans(c) == PlansUpTo(c, if c.sessions < c.clients then c.sessions else c.clients)
  {
    var all := PlansUpTo(c, c.clients);
    Shares(c.sessions, c.clients);
    DealtNonZero(all, c.sessions / c.clients, c.sessions % c.clients);
    assert all[..c.clients] == all;
    if c.sessions < c.clients { assert all[..c.sessions] == PlansUpTo(c, c.sessions); }
  }

  /** Any two plans differ by at most one session, and earlier clients never get less. */
  lemma PlansBalanced(c: Campaign, i: nat, j: nat)
    requires Valid(c) && i <= j < |ClientPlans(c)|
    ensures var plans := ClientPlans(c);
      plans[j].requested <= plans[i].requested <= plans[j].requested + 1 && plans[j].requested >= 1
  {
    FirstClientsWork(c);
    Shares(c.sessions, c.clients);
  }

  ghost function OnServer(server: nat): (p: Plan -> bool) { (p: Plan) => p.server == server }

  /** The plans name their clients in order, and each server has its own port. */
  lemma PlansNamed(c: Campaign, i: nat)
    requires Valid(c) && i < |ClientPlans(c)|
    ensures var p := ClientPlans(c)[i];
      p.client == i && p.server < c.servers && p.port == c.basePort + p.server
  {
    FirstClientsWork(c);
  }

  lemma {:induction false} DealtOut(c: Campaign, n: nat, server: nat)
    requires Valid(c) && server < c.servers
    ensures NumberOf(PlansUpTo(c, n), OnServer(server)) == n / c.servers + if server < n % c.servers then 1 else 0
  {
    var plans := PlansUpTo(c, n);
    NumberOfExact(plans, OnServer(server));
    if n == 0 {
      DivisionUnique(0, c.servers, 0, 0);
    } else {
      DealtOut(c, n - 1, server);
      DivisionNext(n - 1, c.servers);
      assert plans[..n - 1] == PlansUpTo(c, n - 1);
    }
  }

  /** Clients are dealt out evenly: two servers differ by at most one client, and the earlier never has fewer. */
  lemma ServersBalanced(c: Campaign, a: nat, b: nat)
    requires Valid(c) && a <= b < c.servers
    ensures var plans := ClientPlans(c);
      NumberOf(plans, OnServer(b)) <= NumberOf(plans, OnServer(a)) <= NumberOf(plans, OnServer(b)) + 1
  {
    FirstClientsWork(c);
    var n := if c.sessions < c.clients then c.sessions else c.clients;
    DealtOut(c, n, a);
    DealtOut(c, n, b);
  }

  // ---------------------------------------------------------------- the second level

  /** A server's cap is what the plans sent to it request. */
  lemma {:induction false} CapAt(plans: seq<Plan>, servers: nat, server: nat)
    requires server < servers
    ensures Caps(plans, servers)[server] == CapOf(plans, server)
    decreases servers
  {
    if server < servers - 1 { CapAt(plans, servers - 1, server); }
  }

  lemma {:induction false} CapsGrow(plans: seq<Plan>, servers: nat)
    requires plans != []
    ensures var before, last := plans[..|plans| - 1], plans[|plans| - 1];
      Sum(Caps(plans, servers)) == Sum(Caps(before, servers)) + if last.server < servers then last.requested else 0
    decreases servers
  {
    if servers > 0 {
      CapsGrow(plans, servers - 1);
      var before := plans[..|plans| - 1];
      SumAppend(Caps(plans, servers - 1), CapOf(plans, servers - 1));
      SumAppend(Caps(before, servers - 1), CapOf(before, servers - 1));
    }
  }

  lemma {:induction false} NoPlansNoCaps(servers: nat)
    ensures Sum(Caps([], servers)) == 0
  {
    if servers > 0 {
      NoPlansNoCaps(servers - 1);
      SumAppend(Caps([], servers - 1), 0);
    }
  }

  lemma {:induction false} CapsTotal(plans: seq<Plan>, servers: nat)
    requires forall i :: 0 <= i < |plans| ==> plans[i].server < servers
    ensures Sum(Caps(plans, servers)) == Total(plans)
  {
    if plans == [] {
      NoPlansNoCaps(servers);
    } else {
      CapsTotal(plans[..|plans| - 1], servers);
      CapsGrow(plans, servers);
    }
  }

  /** The servers' caps add up to the sessions as well. */
  lemma CapsAddUp(c: Campaign)
    requires Valid(c)
    ensures Sum(Caps(ClientPlans(c), c.servers)) == c.sessions
  {
    FirstClientsWork(c);
    CapsTotal(ClientPlans(c), c.servers);
    PlansAddUp(c);
  }
}
