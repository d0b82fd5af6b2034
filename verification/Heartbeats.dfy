/** The heartbeat period of Lab 5 on its way to the nodes. */
module Heartbeats {
  import opened Messages
  import opened Wrappers
  import opened Tree
  import opened Network
  import opened Protocol
  import Nodes
  import Control

  /** The heartbeat settings of a queue. */
  function Settings(q: seq<Message>): seq<int> {
    if q == [] then [] else (if q[0].command == HeartBeat then [q[0].data] else []) + Settings(q[1..])
  }

  lemma {:induction false} SettingsConcat(a: seq<Message>, b: seq<Message>)
    ensures Settings(a + b) == Settings(a) + Settings(b)
    decreases |a|
  {
    if a == [] {
      assert a + b == b;
    } else {
      assert (a + b)[1..] == a[1..] + b && (a + b)[0] == a[0];
      SettingsConcat(a[1..], b);
      var first := if a[0].command == HeartBeat then [a[0].data] else [];
      assert Settings(a + b) == first + (Settings(a[1..]) + Settings(b));
    }
  }

  /** The settings on their way to t, next one first. */
  function Coming(f: Forest, t: int): seq<int> {
    match f
    case Nil => []
    case Tree(x, kids, rest) =>
      if t == x.id then Settings(x.down)
      else if t in Ids(kids) then Coming(kids, t) + Settings(x.down)
      else Coming(rest, t)
  }

  /** The period that t will have when everything on its way has arrived. */
  function Latest(f: Forest, t: int): int {
    if Coming(f, t) == [] then BeatOf(f, t) else Coming(f, t)[|Coming(f, t)| - 1]
  }

  /** What is on its way stays for every node of f, or becomes the node's period. */
  ghost predicate Kept(f: Forest, g: Forest) {
    Ids(f) <= Ids(g) && forall t :: t in Ids(f) ==> Latest(g, t) == Latest(f, t)
  }

  // ----- what each step does

  lemma {:induction false} BroadcastSettings(f: Forest, m: Message)
    ensures Ids(Broadcast(f, m)) == Ids(f)
    ensures forall t :: t in Ids(f) ==>
      && Coming(Broadcast(f, m), t) == Coming(f, t) + Settings([m])
      && BeatOf(Broadcast(f, m), t) == BeatOf(f, t)
  {
    if f.Tree? {
      var Tree(x, kids, rest) := f;
      BroadcastSettings(rest, m);
      SettingsConcat(x.down, [m]);
      hide Settings;
      forall t | t in Ids(f) ensures Coming(Broadcast(f, m), t) == Coming(f, t) + Settings([m]) {
        if t != x.id && t in Ids(kids) {
          assert Coming(kids, t) + (Settings(x.down) + Settings([m])) == (Coming(kids, t) + Settings(x.down)) + Settings([m]);
        }
      }
    }
  }

  lemma {:induction false} AppendSettings(f: Forest, id: int)
    ensures Ids(Append(f, id)) == Ids(f) + {id}
    ensures forall t :: t in Ids(f) ==>
      Coming(Append(f, id), t) == Coming(f, t) && BeatOf(Append(f, id), t) == BeatOf(f, t)
  {
    if f.Tree? {
      AppendSettings(f.rest, id);
    }
  }

  lemma {:induction false} RelaySettings(f: Forest, n: int)
    ensures var g := Relay(f, n).0;
      Ids(g) == Ids(f) && forall t :: Coming(g, t) == Coming(f, t) && BeatOf(g, t) == BeatOf(f, t)
  {
    hide Settings;
    if f.Tree? {
      RelaySettings(f.kids, n);
      RelaySettings(f.rest, n);
      var g := Relay(f, n).0;
      assert g.node.id == f.node.id && g.node.down == f.node.down && g.node.beat == f.node.beat;
      assert (g.kids == f.kids || g.kids == Relay(f.kids, n).0) && (g.rest == f.rest || g.rest == Relay(f.rest, n).0);
      hide Relay;
      SameSettings(f, g);
    }
  }

  lemma SameSettings(f: Forest, g: Forest)
    requires f.Tree? && g.Tree? && g.node.id == f.node.id && g.node.down == f.node.down && g.node.beat == f.node.beat
    requires Ids(g.kids) == Ids(f.kids) && Ids(g.rest) == Ids(f.rest)
    requires forall t :: Coming(g.kids, t) == Coming(f.kids, t) && BeatOf(g.kids, t) == BeatOf(f.kids, t)
    requires forall t :: Coming(g.rest, t) == Coming(f.rest, t) && BeatOf(g.rest, t) == BeatOf(f.rest, t)
    ensures Ids(g) == Ids(f) && forall t :: Coming(g, t) == Coming(f, t) && BeatOf(g, t) == BeatOf(f, t)
  {
    hide Settings, Coming, BeatOf;
    forall t ensures Coming(g, t) == Coming(f, t) && BeatOf(g, t) == BeatOf(f, t) {
      ComingParts(f, t);
      ComingParts(g, t);
    }
  }

  lemma ComingParts(f: Forest, t: int)
    requires f.Tree?
    ensures Coming(f, t) ==
      if t == f.node.id then Settings(f.node.down)
      else if t in Ids(f.kids) then Coming(f.kids, t) + Settings(f.node.down) else Coming(f.rest, t)
    ensures BeatOf(f, t) ==
      if t == f.node.id then f.node.beat else if t in Ids(f.kids) then BeatOf(f.kids, t) else BeatOf(f.rest, t)
  {
    hide Settings;
  }

  lemma {:induction false} PulseSettings(f: Forest, n: int)
    ensures var g := Beat(f, n);
      Ids(g) == Ids(f) && forall t :: Coming(g, t) == Coming(f, t) && BeatOf(g, t) == BeatOf(f, t)
  {
    hide Settings;
    if f.Tree? {
      PulseSettings(f.kids, n);
      PulseSettings(f.rest, n);
      var g := Beat(f, n);
      assert g.node.id == f.node.id && g.node.down == f.node.down && g.node.beat == f.node.beat;
      assert (g.kids == f.kids || g.kids == Beat(f.kids, n)) && (g.rest == f.rest || g.rest == Beat(f.rest, n));
      hide Beat;
      SameSettings(f, g);
    }
  }

  /** The last of the settings above a node counts, or what its own part of the tree says. */
  lemma LatestParts(f: Forest, t: int)
    requires f.Tree?
    ensures var q := Settings(f.node.down);
      Latest(f, t) ==
        if t == f.node.id then (if q == [] then f.node.beat else q[|q| - 1])
        else if t in Ids(f.kids) then (if q == [] then Latest(f.kids, t) else q[|q| - 1])
        else Latest(f.rest, t)
  {
    hide Settings;
    assert Coming(f.kids, t) + [] == Coming(f.kids, t);
  }

  /** Node x takes its next message: a setting becomes its period, and for the nodes below it goes on. */
  lemma ReceiveSettings(f: Forest, pid: int)
    requires Unique(f) && f.Tree? && f.node.down != [] && Newborn(f, f.node.id) !! Ids(f)
    ensures Kept(f, Deliver(f, f.node.id, pid))
  {
    var Tree(x, kids, rest) := f;
    var m, g := x.down[0], Deliver(f, x.id, pid);
    var e := Nodes.OnParent(x.id, x.dict, x.beat, m, pid);
    assert g.node.id == x.id && g.node.down == x.down[1..] && g.node.beat == e.beat && g.rest == rest;
    NotTheNode(f);
    if m.command == HeartBeat {
      assert g.kids == Broadcast(kids, m) && e.beat == m.data;
      hide Unique, Deliver, Newborn;
      SettingTaken(f, g, m);
    } else {
      assert e.beat == x.beat && (m.command == Create && m.id == x.id ==> m.data !in Ids(f));
      assert g.kids == Broadcast(kids, m) || g.kids == kids || (g.kids == Append(kids, m.data) && m.data !in Ids(f));
      hide Unique, Deliver, Newborn;
      OtherTaken(f, g, m);
    }
  }

  /** The queue of x without its first message, a setting that x adopted and sent on. */
  lemma SettingTaken(f: Forest, g: Forest, m: Message)
    requires f.Tree? && g.Tree? && f.node.id !in Ids(f.kids) && f.node.id !in Ids(f.rest) && Ids(f.kids) !! Ids(f.rest)
    requires f.node.down != [] && f.node.down == [m] + f.node.down[1..] && m.command == HeartBeat
    requires g.node.id == f.node.id && g.node.down == f.node.down[1..] && g.node.beat == m.data
    requires g.kids == Broadcast(f.kids, m) && g.rest == f.rest
    ensures Kept(f, g)
  {
    BroadcastSettings(f.kids, m);
    SettingsConcat([m], f.node.down[1..]);
    assert Settings([m]) == [m.data];
    var q := Settings(g.node.down);
    assert Settings(f.node.down) == [m.data] + q;
    forall t | t in Ids(f) ensures Latest(g, t) == Latest(f, t) {
      hide Settings, Broadcast, BeatOf;
      LatestParts(f, t);
      LatestParts(g, t);
    }
  }

  /** The queue of x without its first message, which is no setting. */
  lemma OtherTaken(f: Forest, g: Forest, m: Message)
    requires f.Tree? && g.Tree? && f.node.id !in Ids(f.kids) && f.node.id !in Ids(f.rest) && Ids(f.kids) !! Ids(f.rest)
    requires f.node.down != [] && f.node.down == [m] + f.node.down[1..] && m.command != HeartBeat
    requires g.node.id == f.node.id && g.node.down == f.node.down[1..] && g.node.beat == f.node.beat && g.rest == f.rest
    requires g.kids == Broadcast(f.kids, m) || g.kids == f.kids || (g.kids == Append(f.kids, m.data) && m.data !in Ids(f))
    ensures Kept(f, g)
  {
    BroadcastSettings(f.kids, m);
    AppendSettings(f.kids, m.data);
    SettingsConcat([m], f.node.down[1..]);
    NoSetting(f.kids, m);
    assert Settings([m]) == [];
    assert Settings(f.node.down) == Settings(g.node.down);
    hide Settings, Broadcast, Append, BeatOf, Coming;
    assert forall t :: t in Ids(f.kids) ==> Latest(g.kids, t) == Latest(f.kids, t);
    hide Latest;
    forall t | t in Ids(f) ensures Latest(g, t) == Latest(f, t) {
      LatestParts(f, t);
      LatestParts(g, t);
    }
  }

  lemma BelowSettings(f: Forest, kids': Forest)
    requires Unique(f) && f.Tree? && Kept(f.kids, kids') && (Ids(kids') - Ids(f.kids)) !! Ids(f)
    ensures Kept(f, f.(kids := kids'))
  {
    NotTheNode(f);
    hide Unique, Latest, Settings;
    forall t | t in Ids(f) ensures Latest(f.(kids := kids'), t) == Latest(f, t) {
      LatestParts(f, t);
      LatestParts(f.(kids := kids'), t);
    }
  }

  lemma BesideSettings(f: Forest, rest': Forest)
    requires Unique(f) && f.Tree? && Kept(f.rest, rest')
    ensures Kept(f, f.(rest := rest'))
  {
    NotTheNode(f);
    hide Unique, Latest, Settings;
    forall t | t in Ids(f) ensures Latest(f.(rest := rest'), t) == Latest(f, t) {
      LatestParts(f, t);
      LatestParts(f.(rest := rest'), t);
    }
  }

  lemma {:induction false} DeliverSettings(f: Forest, n: int, pid: int)
    requires Unique(f) && Waiting(f, n) && Newborn(f, n) !! Ids(f)
    ensures Kept(f, Deliver(f, n, pid))
  {
    hide Kept, Latest;
    if n == f.node.id {
      ReceiveSettings(f, pid);
    } else if n in Ids(f.kids) {
      DeliverSettings(f.kids, n, pid);
      DeliverOwner(f.kids, n, pid, n, n);
      BelowSettings(f, Deliver(f.kids, n, pid));
    } else {
      DeliverSettings(f.rest, n, pid);
      BesideSettings(f, Deliver(f.rest, n, pid));
    }
  }

  // ----- over runs

  predicate Sets(e: Event) {
    e.Enter? && e.input.SetBeat?
  }

  /** Every step but a setting keeps what each node will have. */
  lemma StepKeeps(s: Net, e: Event)
    requires Inv(s) && Enabled(s, e) && !Sets(e)
    ensures Kept(s.tree, Next(s, e).tree)
  {
    hide Inv, Relay, Deliver, Broadcast, Append, Beat, Coming, BeatOf, Unique, Waiting, Newborn;
    match e
    case Enter(input) =>
      NoSetting(s.tree, Control.Request(input));
      BroadcastSettings(s.tree, Control.Request(input));
      hide Settings;
      if Control.Local(input) {
        AppendSettings(s.tree, input.child);
      }
    case Expire(_) =>
    case Down(n, pid) =>
      NewbornAsked(s, n);
      InvUnique(s);
      DeliverSettings(s.tree, n, pid);
    case Up(n) => RelaySettings(s.tree, n);
    case Pulse(n) => PulseSettings(s.tree, n);
  }

  lemma NoSetting(f: Forest, m: Message)
    requires m.command != HeartBeat
    ensures forall t :: Coming(f, t) + Settings([m]) == Coming(f, t)
  {
    assert Settings([m]) == [];
    hide Settings;
  }

  /** A setting reaches every node there is. */
  lemma StepSets(s: Net, period: int)
    ensures var e := Enter(Control.SetBeat(period));
      && Enabled(s, e) && Ids(Next(s, e).tree) == Ids(s.tree)
      && forall t :: t in Ids(s.tree) ==> Latest(Next(s, e).tree, t) == period
  {
    hide Broadcast;
    var m := Message(HeartBeat, -1, period, "");
    BroadcastSettings(s.tree, m);
    assert Settings([m]) == [period];
  }

  lemma {:induction false} SettingStays(run: seq<Net>, events: seq<Event>, y: nat, x: nat, t: int)
    requires Run(run, events) && y < x < |run| && Sets(events[y]) && t in Ids(run[y].tree)
    requires forall z :: y < z < x ==> !Sets(events[z])
    ensures t in Ids(run[x].tree) && Latest(run[x].tree, t) == events[y].input.period
    decreases x
  {
    hide Inv, Latest, Next, Enabled;
    var s := run[x - 1];
    if x - 1 == y {
      StepSets(s, events[y].input.period);
    } else {
      SettingStays(run, events, y, x - 1, t);
      EveryState(run, events, x - 1);
      StepKeeps(s, events[x - 1]);
    }
  }

  lemma {:induction false} NothingComes(f: Forest, t: int)
    requires Unique(f) && forall n :: n in Ids(f) ==> !Waiting(f, n)
    ensures Coming(f, t) == []
  {
    if f.Tree? {
      var Tree(x, kids, rest) := f;
      forall n | n in Ids(kids) ensures !Waiting(kids, n) {
        assert !Waiting(f, n);
      }
      forall n | n in Ids(rest) ensures !Waiting(rest, n) {
        assert !Waiting(f, n);
      }
      assert !Waiting(f, x.id);
      NothingComes(kids, t);
      NothingComes(rest, t);
    }
  }

  /** Over every run: when the network is quiet, every node that existed at the last heartbeat command has
      the period of that command. */
  lemma QuietHasPeriod(run: seq<Net>, events: seq<Event>, y: nat, x: nat, t: int)
    requires Run(run, events) && y < x < |run| && Sets(events[y]) && t in Ids(run[y].tree)
    requires forall z :: y < z < x ==> !Sets(events[z])
    requires Quiet(run[x])
    ensures t in Ids(run[x].tree) && BeatOf(run[x].tree, t) == events[y].input.period
  {
    hide Inv, Next, Enabled;
    SettingStays(run, events, y, x, t);
    EveryState(run, events, x);
    InvUnique(run[x]);
    NothingComes(run[x].tree, t);
  }
}
