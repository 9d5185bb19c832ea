/** Where the replicas of each group run: the network configuration lists them by one formula, the
    launcher starts them by another. */
module Placement {
  import opened Arithmetic

  /** One replica process: the server it runs on, its group, its index in the group, and the process
      slot on that server. */
  datatype Replica = Replica(server: nat, group: nat, index: nat, slot: nat)

  /** Servers per replica index. */
  function Width(servers: nat, n: nat): nat
    requires n > 0
  {
    NonNegative(servers, n);
    servers / n
  }

  /** What the configuration says about replica i of a group. */
  function Listed(x: nat, group: nat, i: nat): Replica
    requires x > 0
  {
    NonNegative(group, x);
    Replica(i * x + group % x, group, i, group / x)
  }

  /** What the launcher starts in its i-th turn for a group: the index follows from the server. */
  function Launched(servers: nat, x: nat, group: nat, i: nat): Replica
    requires x > 0 && servers > 0
  {
    NonNegative(i * x + group, servers);
    var server := (i * x + group) % servers;
    NonNegative(server, x);
    NonNegative(group, x);
    Replica(server, group, server / x, group / x)
  }

  // ----- the two scripts -----

  function ListedGroup(x: nat, group: nat, n: nat): seq<Replica>
    requires x > 0
  {
    seq(n, i requires 0 <= i < n => Listed(x, group, i))
  }

  /** Writes the replica lines of every group. Fails by division by zero if there are too few servers. */
  method WriteConfig(servers: nat, n: nat, groups: nat) returns (ok: bool, config: seq<seq<Replica>>)
    ensures ok <==> n > 0 && (groups > 0 ==> Width(servers, n) > 0)
    ensures ok ==> |config| == groups && forall g | 0 <= g < groups :: config[g] == ListedGroup(Width(servers, n), g, n)
  {
    config := [];
    if n == 0 {
      return false, [];
    }
    var x := Width(servers, n);
    for group := 0 to groups
      invariant |config| == group
      invariant x > 0 || group == 0
      invariant x > 0 ==> forall g | 0 <= g < group :: config[g] == ListedGroup(x, g, n)
    {
      if x == 0 {
        return false, [];
      }
      var slot := group / x;
      var lines := [];
      for i := 0 to n
        invariant |lines| == i && forall k | 0 <= k < i :: lines[k] == Listed(x, group, k)
      {
        NonNegative(group, x);
        lines := lines + [Replica(i * x + group % x, group, i, slot)];
      }
      assert lines == ListedGroup(x, group, n);
      config := config + [lines];
    }
    ok := true;
  }

  /** The processes started on one server, in order. */
  function StartedOn(server: nat, launches: seq<Replica>): seq<Replica>
  {
    if launches == [] then []
    else
      var last := launches[|launches| - 1];
      StartedOn(server, launches[..|launches| - 1]) + if last.server == server then [last] else []
  }

  /** All launches, group by group. */
  function Launches(servers: nat, x: nat, n: nat, groups: nat, i: nat): seq<Replica>
    requires x > 0 && servers > 0 && i <= n
    decreases groups, i
  {
    if i > 0 then Launches(servers, x, n, groups, i - 1) + [Launched(servers, x, groups, i - 1)]
    else if groups > 0 then Launches(servers, x, n, groups - 1, n)
    else []
  }

  /** Collects the start commands per server. */
  method StartServers(servers: nat, n: nat, groups: nat) returns (ok: bool, commands: map<nat, seq<Replica>>)
    ensures ok <==> n > 0 && (groups > 0 ==> Width(servers, n) > 0)
    ensures ok && groups > 0 ==>
              forall server: nat ::
                (if server in commands then commands[server] else [])
                == StartedOn(server, Launches(servers, Width(servers, n), n, groups - 1, n))
  {
    commands := map[];
    if n == 0 {
      return false, map[];
    }
    var x := Width(servers, n);
    ghost var launches: seq<Replica> := [];
    for group := 0 to groups
      invariant x > 0 || group == 0
      invariant Collected(commands, launches)
      invariant group > 0 ==> servers > 0 && launches == Launches(servers, x, n, group - 1, n)
      invariant group == 0 ==> launches == []
    {
      if x == 0 {
        return false, map[];
      }
      WidthPositive(servers, n);
      commands := StartGroup(servers, x, n, group, commands, launches);
      launches := Launches(servers, x, n, group, n);
    }
    ok := true;
  }

  /** The inner loop: one group. */
  method StartGroup(servers: nat, x: nat, n: nat, group: nat, before: map<nat, seq<Replica>>,
      ghost launched: seq<Replica>)
    returns (commands: map<nat, seq<Replica>>)
    requires x > 0 && servers > 0 && Collected(before, launched) && launched == Launches(servers, x, n, group, 0)
    ensures Collected(commands, Launches(servers, x, n, group, n))
  {
    commands := before;
    for i := 0 to n
      invariant Collected(commands, Launches(servers, x, n, group, i))
    {
      var r := Launched(servers, x, group, i);
      CollectOne(commands, Launches(servers, x, n, group, i), r);
      commands := commands[r.server := (if r.server in commands then commands[r.server] else []) + [r]];
    }
  }

  ghost predicate Collected(commands: map<nat, seq<Replica>>, launches: seq<Replica>)
  {
    forall server: nat :: (if server in commands then commands[server] else []) == StartedOn(server, launches)
  }

  lemma CollectOne(commands: map<nat, seq<Replica>>, launches: seq<Replica>, r: Replica)
    requires Collected(commands, launches)
    ensures Collected(commands[r.server := (if r.server in commands then commands[r.server] else []) + [r]],
              launches + [r])
  {
    assert (launches + [r])[..|launches|] == launches;
    forall server: nat ensures StartedOn(server, launches + [r]) == StartedOn(server, launches) + if r.server ==
        server then [r] else [] {
    }
  }

  lemma WidthPositive(servers: nat, n: nat)
    requires n > 0 && Width(servers, n) > 0
    ensures servers > 0
  {
    DivBounds(servers, n);
  }

  // ----- the two formulas agree -----

  /** The index the launcher arrives at. */
  function Rotated(n: nat, x: nat, group: nat, i: nat): nat
    requires n > 0 && x > 0
  {
    NonNegative(group, x);
    NonNegative(i + group / x, n);
    (i + group / x) % n
  }

  lemma RotatedBelow(n: nat, x: nat, group: nat, i: nat)
    requires n > 0 && x > 0
    ensures Rotated(n, x, group, i) < n && 0 <= group % x < x
  {
  }

  lemma Reassemble(n: nat, x: nat, c: int, t: int, g: int)
    ensures (c * n + t) * x + g == c * (n * x) + (t * x + g)
  {
    assert (c * n + t) * x == c * n * x + t * x;
    assert c * n * x == c * (n * x);
  }

  lemma BelowTotal(n: nat, x: nat, t: nat, r: nat)
    requires t < n && r < x
    ensures t * x + r < n * x
  {
    MulMono(t + 1, n, x);
    assert (t + 1) * x == t * x + x;
  }

  /** With n times x servers, the launcher's i-th turn starts exactly the replica the configuration lists
      under the rotated index. */
  lemma LaunchedIsListed(n: nat, x: nat, group: nat, i: nat)
    requires n > 0 && x > 0 && i < n
    ensures n * x > 0
    ensures Launched(n * x, x, group, i) == Listed(x, group, Rotated(n, x, group, i))
  {
    var t, r, q := Rotated(n, x, group, i), group % x, i + group / x;
    NonNegative(group, x);
    NonNegative(q, n);
    RotatedBelow(n, x, group, i);
    MulMono(1, n, x);
    BelowTotal(n, x, t, r);
    DivBounds(group, x);
    assert group == group / x * x + r;
    assert q == q / n * n + t;
    assert i * x + group == q * x + r by {
      assert q * x == i * x + group / x * x;
    }
    Reassemble(n, x, q / n, t, r);
    ModUnique(i * x + group, n * x, q / n, t * x + r);
    ModUnique(t * x + r, x, t, r);
  }

  /** The turn in which a given replica is started. */
  function TurnOf(n: nat, x: nat, group: nat, index: nat): nat
    requires n > 0 && x > 0
  {
    NonNegative(group, x);
    (index - group / x) % n
  }

  lemma ShiftBack(a: int, b: int, n: int)
    requires n > 0 && 0 <= a < n
    ensures 0 <= (a - b) % n < n && ((a - b) % n + b) % n == a
  {
    var t := (a - b) % n;
    assert a - b == (a - b) / n * n + t;
    var k := (a - b) / n;
    assert t + b == -k * n + a;
    ModUnique(t + b, n, -k, a);
  }

  lemma ShiftForth(a: int, b: int, n: int)
    requires n > 0 && 0 <= a < n
    ensures 0 <= (a + b) % n < n && ((a + b) % n - b) % n == a
  {
    ShiftBack(a, -b, n);
  }

  /** The launcher starts every replica of every group exactly once, on the server and in the slot the
      configuration lists for it. */
  lemma LauncherIsBijective(n: nat, x: nat, group: nat)
    requires n > 0 && x > 0
    ensures n * x > 0
    ensures forall i | 0 <= i < n ::
              exists index | 0 <= index < n :: Launched(n * x, x, group, i) == Listed(x, group, index)
    ensures forall index | 0 <= index < n ::
              && 0 <= TurnOf(n, x, group, index) < n
              && Launched(n * x, x, group, TurnOf(n, x, group, index)) == Listed(x, group, index)
              && forall i | 0 <= i < n :: Launched(n * x, x, group, i).index == index ==>
                  i == TurnOf(n, x, group, index)
  {
    NonNegative(group, x);
    LaunchedIsListed(n, x, group, 0);
    forall i | 0 <= i < n
      ensures exists index | 0 <= index < n :: Launched(n * x, x, group, i) == Listed(x, group, index)
    {
      LaunchedIsListed(n, x, group, i);
      RotatedBelow(n, x, group, i);
    }
    forall index | 0 <= index < n
      ensures 0 <= TurnOf(n, x, group, index) < n
      ensures Launched(n * x, x, group, TurnOf(n, x, group, index)) == Listed(x, group, index)
      ensures forall i | 0 <= i < n :: Launched(n * x, x, group, i).index == index ==> i == TurnOf(n, x, group, index)
    {
      var b := group / x;
      ShiftBack(index, b, n);
      LaunchedIsListed(n, x, group, TurnOf(n, x, group, index));
      forall i | 0 <= i < n && Launched(n * x, x, group, i).index == index ensures i == TurnOf(n, x, group, index) {
        LaunchedIsListed(n, x, group, i);
        ShiftForth(i, b, n);
      }
    }
  }

  /** The configuration lists this replica. */
  predicate IsListed(n: nat, x: nat, r: Replica)
    requires x > 0
  {
    r.index < n && r == Listed(x, r.group, r.index)
  }

  lemma LaunchedIn(n: nat, x: nat, group: nat, i: nat, r: Replica)
    requires n > 0 && x > 0 && i < n
    ensures n * x > 0
    ensures r == Launched(n * x, x, group, i) <==>
              IsListed(n, x, r) && r.group == group && TurnOf(n, x, group, r.index) == i
  {
    LauncherIsBijective(n, x, group);
    LaunchedIsListed(n, x, group, i);
    RotatedBelow(n, x, group, i);
  }

  lemma TurnBelow(n: nat, x: nat, group: nat, index: nat)
    requires n > 0 && x > 0
    ensures 0 <= TurnOf(n, x, group, index) < n
  {
  }

  lemma {:induction false} CountLaunches(n: nat, x: nat, g: nat, i: nat, r: Replica)
    requires n > 0 && x > 0 && i <= n
    ensures n * x > 0
    ensures multiset(Launches(n * x, x, n, g, i))[r] ==
            if IsListed(n, x, r) && (r.group < g || (r.group == g && TurnOf(n, x, g, r.index) < i)) then 1 else 0
    decreases g, i
  {
    MulMono(1, n, x);
    if i > 0 {
      CountLaunches(n, x, g, i - 1, r);
      LaunchedIn(n, x, g, i - 1, r);
    } else if g > 0 {
      CountLaunches(n, x, g - 1, n, r);
      TurnBelow(n, x, g - 1, r.index);
    }
  }

  lemma {:induction false} CountStartedOn(server: nat, launches: seq<Replica>, r: Replica)
    ensures multiset(StartedOn(server, launches))[r] == if r.server == server then multiset(launches)[r] else 0
  {
    if launches != [] {
      var n := |launches| - 1;
      CountStartedOn(server, launches[..n], r);
      assert launches == launches[..n] + [launches[n]];
    }
  }

  lemma {:induction false} LaunchedOnce(n: nat, x: nat, groups: nat, r: Replica)
    requires n > 0 && x > 0 && groups > 0
    ensures n * x > 0
    ensures multiset(Launches(n * x, x, n, groups - 1, n))[r] == if IsListed(n, x, r) && r.group < groups then 1 else 0
  {
    CountLaunches(n, x, groups - 1, n, r);
    TurnBelow(n, x, groups - 1, r.index);
  }

  /** On every server the launcher starts exactly the replicas the configuration lists there, each once. */
  lemma {:induction false} StartedExactlyOnce(n: nat, x: nat, groups: nat, server: nat, r: Replica)
    requires n > 0 && x > 0 && groups > 0
    ensures n * x > 0
    ensures multiset(StartedOn(server, Launches(n * x, x, n, groups - 1, n)))[r] ==
            if r.server == server && IsListed(n, x, r) && r.group < groups then 1 else 0
  {
    LaunchedOnce(n, x, groups, r);
    var launches := Launches(n * x, x, n, groups - 1, n);
    CountStartedOn(server, launches, r);
  }

  // ----- no two replicas share an address -----

  /** Different replicas differ in server or slot, so they never share a host and port; run on one machine
      they get different ports, also when some servers stay without a replica. */
  lemma AddressesDiffer(servers: nat, n: nat, x: nat, g: nat, i: nat, h: nat, k: nat)
    requires n > 0 && x > 0 && n * x <= servers && i < n && k < n && (g, i) != (h, k)
    ensures var a, b := Listed(x, g, i), Listed(x, h, k);
            && a.server < servers
            && (a.server != b.server || a.slot != b.slot)
            && a.slot * servers + a.server != b.slot * servers + b.server
  {
    RotatedBelow(n, x, g, i);
    RotatedBelow(n, x, h, k);
    BelowTotal(n, x, i, g % x);
    BelowTotal(n, x, k, h % x);
    SameGroup(x, g, h);
    Apart(servers, x, g / x, g % x, i, h / x, h % x, k);
  }

  lemma SameGroup(x: nat, g: nat, h: nat)
    requires x > 0
    ensures g / x == h / x && g % x == h % x ==> g == h
  {
    DivBounds(g, x);
    DivBounds(h, x);
  }

  /** The quotient and remainder of the group and the index are all determined by server and slot. */
  lemma Apart(total: int, x: int, gq: int, gr: int, i: int, hq: int, hr: int, k: int)
    requires x > 0 && 0 <= gr < x && 0 <= hr < x && i >= 0 && k >= 0
    requires 0 <= i * x + gr < total && 0 <= k * x + hr < total
    ensures i * x + gr == k * x + hr ==> i == k && gr == hr
    ensures gq * total + (i * x + gr) == hq * total + (k * x + hr) ==> gq == hq && i == k && gr == hr
  {
    SameNumber(x, i, gr, k, hr);
    SameNumber(total, gq, i * x + gr, hq, k * x + hr);
  }

  lemma SameNumber(d: int, q: int, r: int, q': int, r': int)
    requires d > 0 && 0 <= r < d && 0 <= r' < d
    ensures q * d + r == q' * d + r' ==> q == q' && r == r'
  {
    if q * d + r == q' * d + r' {
      ModUnique(q * d + r, d, q, r);
      ModUnique(q' * d + r', d, q', r');
    }
  }

  // ----- every server is used -----

  /** Each replica index gets as many servers as all of them can have alike. */
  lemma WidthExact(servers: nat, n: nat)
    requires n > 0
    ensures n * Width(servers, n) <= servers < n * (Width(servers, n) + 1)
    ensures forall x: nat :: servers == n * x ==> Width(servers, n) == x
  {
    var w := Width(servers, n);
    DivBounds(servers, n);
    assert n * w == w * n && n * (w + 1) == w * n + n;
    forall x: nat | servers == n * x ensures w == x {
      ModUnique(servers, n, x, 0);
    }
  }

  /** The group and index of the one replica that the configuration puts on a server in a slot. */
  function Occupant(x: nat, server: nat, slot: nat): (nat, nat)
    requires x > 0
  {
    NonNegative(server, x);
    (slot * x + server % x, server / x)
  }

  /** Every slot of the first n times x servers is filled by exactly one replica. */
  lemma SlotsFilled(n: nat, x: nat, server: nat, slot: nat, g: nat, i: nat)
    requires n > 0 && x > 0 && server < n * x
    ensures Occupant(x, server, slot).1 < n
    ensures Listed(x, g, i).server == server && Listed(x, g, i).slot == slot <==> (g, i) == Occupant(x, server, slot)
  {
    NonNegative(server, x);
    NonNegative(g, x);
    DivBounds(server, x);
    MulCancel(server / x, n, x);
    assert server == server / x * x + server % x;
    assert g == g / x * x + g % x;
    ModUnique(slot * x + server % x, x, slot, server % x);
    SameNumber(x, i, g % x, server / x, server % x);
  }

  /** The replica that comes with the first round of groups. */
  lemma EveryServerHosts(servers: nat, n: nat, groups: nat, server: nat)
    requires n > 0 && Width(servers, n) > 0 && Width(servers, n) <= groups && server < n * Width(servers, n)
    ensures exists g, i | 0 <= g < groups && 0 <= i < n :: Listed(Width(servers, n), g, i).server == server
  {
    var x := Width(servers, n);
    NonNegative(server, x);
    var (g, i) := Occupant(x, server, 0);
    SlotsFilled(n, x, server, 0, g, i);
    assert g < groups && Listed(x, g, i).server == server;
  }

  // ----- when the formulas agree -----

  /** For every group, everything the launcher starts is in the configuration. */
  ghost predicate Agree(servers: nat, n: nat, groups: nat)
    requires n > 0 && Width(servers, n) > 0
  {
    WidthPositive(servers, n);
    forall g, i | 0 <= g < groups && 0 <= i < n :: StartsListed(servers, Width(servers, n), n, g, i)
  }

  predicate StartsListed(servers: nat, x: nat, n: nat, g: nat, i: nat)
    requires x > 0 && servers > 0
  {
    var r := Launched(servers, x, g, i);
    r.index < n && r == Listed(x, g, r.index)
  }

  /** Launcher and configuration agree if and only if the servers divide evenly among the replicas, or
      there are so few groups that no server runs two processes. */
  lemma AgreeIff(servers: nat, n: nat, groups: nat)
    requires n > 0 && Width(servers, n) > 0
    ensures Agree(servers, n, groups) <==> servers == n * Width(servers, n) || groups <= Width(servers, n)
  {
    var x := Width(servers, n);
    WidthPositive(servers, n);
    DivBounds(servers, n);
    assert n * x == servers / n * n;
    if servers == n * x {
      forall g, i | 0 <= g < groups && 0 <= i < n ensures StartsListed(servers, x, n, g, i) {
        LaunchedIsListed(n, x, g, i);
        RotatedBelow(n, x, g, i);
      }
    } else if groups <= x {
      forall g, i | 0 <= g < groups && 0 <= i < n ensures StartsListed(servers, x, n, g, i) {
        FirstGroups(servers, x, n, g, i);
      }
    } else {
      Overshoots(servers, x, n);
    }
  }

  lemma FirstGroups(servers: nat, x: nat, n: nat, g: nat, i: nat)
    requires x > 0 && n * x <= servers && g < x && i < n && servers > 0
    ensures StartsListed(servers, x, n, g, i)
  {
    BelowTotal(n, x, i, g);
    ModUnique(i * x + g, servers, 0, i * x + g);
    ModUnique(i * x + g, x, i, g);
    ModUnique(g, x, 0, g);
  }

  /** With servers left over, the last replica of group x lands on a server outside the configuration. */
  lemma Overshoots(servers: nat, x: nat, n: nat)
    requires x > 0 && n > 0 && n * x < servers
    ensures !StartsListed(servers, x, n, x, n - 1)
  {
    assert (n - 1) * x + x == n * x;
    ModUnique(n * x, servers, 0, n * x);
    ModUnique(n * x, x, n, 0);
  }
}
