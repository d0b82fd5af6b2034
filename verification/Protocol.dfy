/** What the commands of Lab 5 guarantee over whole runs. */
module Protocol {
  import opened Messages
  import opened Tree
  import opened Network
  import Nodes
  import Control

  /** Event x leads from state x to state x + 1. */
  ghost predicate Path(run: seq<Net>, events: seq<Event>) {
    && |run| == |events| + 1
    && forall x :: 0 <= x < |events| ==> Enabled(run[x], events[x]) && run[x + 1] == Next(run[x], events[x])
  }

  /** A path from the start. */
  ghost predicate Run(run: seq<Net>, events: seq<Event>) {
    Path(run, events) && run[0] == Start()
  }

  lemma NoSteps(s: Net)
    ensures Path([s], [])
  {
  }

  lemma PathFrom(s: Net, e: Event, run: seq<Net>, events: seq<Event>)
    requires Path(run, events) && Enabled(s, e) && run[0] == Next(s, e)
    ensures Path([s] + run, [e] + events) && |run| == |events| + 1
  {
    hide Enabled, Next;
    var all, steps := [s] + run, [e] + events;
    forall x | 0 <= x < |steps| ensures Enabled(all[x], steps[x]) && all[x + 1] == Next(all[x], steps[x]) {
      assert x > 0 ==> Enabled(run[x - 1], events[x - 1]) && run[x] == Next(run[x - 1], events[x - 1]);
    }
  }

  lemma StepInv(s: Net, e: Event)
    requires Inv(s) && Enabled(s, e)
    ensures Inv(Next(s, e))
  {
    hide Inv, Next, Enabled;
    match e
    case Enter(input) => EnterInv(s, input);
    case Expire(index) => assert index < |s.ctl.pending| by { ExpireEnabled(s, index); } ExpireInv(s, index);
    case Down(n, pid) => DownInv(s, n, pid);
    case Up(n) => UpInv(s, n);
    case Pulse(n) => PulseInv(s, n);
  }

  lemma ExpireEnabled(s: Net, index: nat)
    requires Enabled(s, Expire(index))
    ensures index < |s.ctl.pending|
  {
  }

  lemma {:induction false} PathInv(run: seq<Net>, events: seq<Event>, x: nat)
    requires Path(run, events) && Inv(run[0]) && x < |run|
    ensures Inv(run[x])
    decreases x
  {
    hide Inv, Enabled, Next;
    if x > 0 {
      PathInv(run, events, x - 1);
      StepInv(run[x - 1], events[x - 1]);
    }
  }

  /** The invariant holds in every state of every run. */
  lemma EveryState(run: seq<Net>, events: seq<Event>, x: nat)
    requires Run(run, events) && x < |run|
    ensures Inv(run[x])
  {
    hide Inv;
    StartInv();
    PathInv(run, events, x);
  }

  // ----- answers

  /** The k-th reply from node t is the right one for the k-th command issued to t. */
  lemma AnswersAreRight(s: Net, t: int, k: nat)
    requires Inv(s) && k < |At(s.answers, t)|
    ensures t in Ids(s.tree) && k < |At(s.issued, t)|
    ensures Nodes.RightReply(t, At(s.issued, t)[..k], At(s.issued, t)[k], At(s.answers, t)[k])
  {
    hide IssuedInv, CreateInv, BornInv, PendingInv, DownOk, UpOk, Unique;
    assert t in Ids(s.tree);
    LogIsOk(s.tree, t);
    hide NodesOk, ViewOf;
    var v := ViewOf(s.tree, t);
    assert InOrder(s, t);
    assert Replies(v.log)[k] == At(s.answers, t)[k];
    assert At(s.issued, t)[..k] == Requests(v.log)[..k];
  }

  /** In every state of every run a find reply carries the value of the last ExecAdd issued to that node
      for that key before the find, and "not found" exactly when there was none. */
  lemma FindCarriesLastAdd(run: seq<Net>, events: seq<Event>, x: nat, t: int, k: nat)
    requires Run(run, events) && x < |run| && k < |At(run[x].answers, t)|
    ensures k < |At(run[x].issued, t)|
    ensures var issued, reply := At(run[x].issued, t), At(run[x].answers, t)[k];
      issued[k].command == ExecFnd ==>
        var key := issued[k].key;
        if exists j :: 0 <= j < k && Nodes.Adds(issued[j], key)
        then exists j :: 0 <= j < k && Nodes.IsLastAdd(issued[..k], key, j)
                         && reply == Message(ExecFnd, t, issued[j].data, key)
        else reply == Message(ExecErr, t, -1, key)
  {
    var s := run[x];
    EveryState(run, events, x);
    hide Inv, Run, Nodes.RightReply, Nodes.IsLastAdd;
    AnswersAreRight(s, t, k);
    FindIsRight(At(s.issued, t), t, k, At(s.answers, t)[k]);
  }

  lemma FindIsRight(issued: seq<Message>, t: int, k: nat, reply: Message)
    requires k < |issued| && Nodes.RightReply(t, issued[..k], issued[k], reply)
    ensures issued[k].command == ExecFnd ==>
        var key := issued[k].key;
        if exists j :: 0 <= j < k && Nodes.Adds(issued[j], key)
        then exists j :: 0 <= j < k && Nodes.IsLastAdd(issued[..k], key, j)
                         && reply == Message(ExecFnd, t, issued[j].data, key)
        else reply == Message(ExecErr, t, -1, key)
  {
    if issued[k].command == ExecFnd {
      var key := issued[k].key;
      Nodes.LastAddIsLast(issued[..k], key);
      if exists j :: 0 <= j < k && Nodes.Adds(issued[j], key) {
        var i :| 0 <= i < k && Nodes.Adds(issued[i], key);
        assert Nodes.Adds(issued[..k][i], key);
        var j :| Nodes.IsLastAdd(issued[..k], key, j) && issued[..k][j].data == Nodes.LastAdd(issued[..k], key).value;
      } else {
        assert forall j :: 0 <= j < k ==> issued[..k][j] == issued[j];
      }
    }
  }

  /** Commands are executed by the addressed node only, in the order in which they were issued, and
      none is lost: what was not executed is still on its way. */
  lemma ExecutedInOrder(s: Net, t: int)
    requires Inv(s) && t in Ids(s.tree)
    ensures var log := ViewOf(s.tree, t).log;
      && Requests(log) + ViewOf(s.tree, t).down == At(s.issued, t)
      && forall k :: 0 <= k < |log| ==> log[k].request.id == t
  {
    hide IssuedInv, CreateInv, BornInv, PendingInv, DownOk, UpOk;
    LogIsOk(s.tree, t);
    assert InOrder(s, t);
  }

  // ----- the tree

  /** The node whose child list holds c; top stands for the owner of the forest. */
  function Owner(f: Forest, c: int, top: int): int {
    match f
    case Nil => top
    case Tree(x, kids, rest) =>
      if c == x.id then top else if c in Ids(kids) then Owner(kids, c, x.id) else Owner(rest, c, top)
  }

  lemma {:induction false} BroadcastOwner(f: Forest, m: Message, c: int, top: int)
    ensures Ids(Broadcast(f, m)) == Ids(f) && Owner(Broadcast(f, m), c, top) == Owner(f, c, top)
  {
    if f.Tree? {
      BroadcastOwner(f.rest, m, c, top);
    }
  }

  lemma {:induction false} AppendOwner(f: Forest, id: int, c: int, top: int)
    requires id !in Ids(f)
    ensures Ids(Append(f, id)) == Ids(f) + {id}
    ensures Owner(Append(f, id), c, top) == if c == id then top else Owner(f, c, top)
  {
    if f.Tree? {
      AppendOwner(f.rest, id, c, top);
    }
  }

  lemma {:induction false} RelayOwner(f: Forest, n: int, c: int, top: int)
    ensures Ids(Relay(f, n).0) == Ids(f) && Owner(Relay(f, n).0, c, top) == Owner(f, c, top)
  {
    if f.Tree? {
      RelayOwner(f.kids, n, c, f.node.id);
      RelayOwner(f.rest, n, c, top);
    }
  }

  lemma {:induction false} BeatOwner(f: Forest, n: int, c: int, top: int)
    ensures Ids(Beat(f, n)) == Ids(f) && Owner(Beat(f, n), c, top) == Owner(f, c, top)
  {
    if f.Tree? {
      BeatOwner(f.kids, n, c, f.node.id);
      BeatOwner(f.rest, n, c, top);
    }
  }

  /** The child that delivering the next message to n brings into the tree. */
  function Newborn(f: Forest, n: int): set<int>
    requires Waiting(f, n)
  {
    var m := Head(f, n);
    if m.command == Create && m.id == n then {m.data} else {}
  }

  lemma {:induction false} DeliverOwner(f: Forest, n: int, pid: int, c: int, top: int)
    requires Waiting(f, n) && Unique(f) && Newborn(f, n) !! Ids(f)
    ensures Ids(Deliver(f, n, pid)) == Ids(f) + Newborn(f, n)
    ensures Owner(Deliver(f, n, pid), c, top) == if c in Newborn(f, n) then n else Owner(f, c, top)
  {
    var Tree(x, kids, rest) := f;
    if n == x.id {
      if Newborn(f, n) != {} {
        AppendOwner(kids, x.down[0].data, c, x.id);
      }
      BroadcastOwner(kids, x.down[0], c, x.id);
    } else if n in Ids(kids) {
      DeliverOwner(kids, n, pid, c, x.id);
    } else {
      DeliverOwner(rest, n, pid, c, top);
    }
  }

  /** Every node hangs below the parent that its create command named. */
  ghost predicate OwnerInv(s: Net) {
    forall c :: c in Ids(s.tree) ==> c in s.parentOf && Owner(s.tree, c, -1) == s.parentOf[c]
  }

  lemma StepOwner(s: Net, e: Event)
    requires Inv(s) && OwnerInv(s) && Enabled(s, e)
    ensures OwnerInv(Next(s, e))
  {
    hide OrderInv, IssuedInv, CreateInv, BornInv, PendingInv, DownOk, UpOk, NodesOk, ViewOf, Control.OnInput;
    var r := Next(s, e);
    forall c ensures c in Ids(r.tree) ==> c in r.parentOf && Owner(r.tree, c, -1) == r.parentOf[c] {
      match e
      case Enter(input) =>
        BroadcastOwner(s.tree, Control.Request(input), c, -1);
        if Control.Local(input) && !Control.Refused(s.ctl.nodeIds, input) {
          AppendOwner(s.tree, input.child, c, -1);
        }
      case Expire(_) =>
      case Down(n, pid) =>
        NewbornAsked(s, n);
        DeliverOwner(s.tree, n, pid, c, -1);
      case Up(n) => RelayOwner(s.tree, n, c, -1);
      case Pulse(n) => BeatOwner(s.tree, n, c, -1);
    }
  }

  lemma NewbornAsked(s: Net, n: int)
    requires Inv(s) && n in Ids(s.tree) && Waiting(s.tree, n)
    ensures Newborn(s.tree, n) !! Ids(s.tree)
    ensures forall c :: c in Newborn(s.tree, n) ==> c in s.parentOf && s.parentOf[c] == n
  {
    hide Inv;
    if Head(s.tree, n).id == n {
      HeadExecutable(s, n);
    }
  }

  lemma {:induction false} EveryOwner(run: seq<Net>, events: seq<Event>, x: nat)
    requires Run(run, events) && x < |run|
    ensures OwnerInv(run[x])
    decreases x
  {
    hide Inv, Next, Enabled, OwnerInv;
    if x == 0 {
      NoOwners();
    } else {
      EveryOwner(run, events, x - 1);
      EveryState(run, events, x - 1);
      StepOwner(run[x - 1], events[x - 1]);
    }
  }

  lemma NoOwners()
    ensures OwnerInv(Start())
  {
  }

  /** The nodes form a tree with unique ids, and every id the controller knows is a node. */
  ghost predicate TreeShape(s: Net) {
    && Unique(s.tree) && -1 !in Ids(s.tree)
    && (forall id :: id in s.ctl.nodeIds && id != -1 ==> id in Ids(s.tree))
    && forall c :: c in Ids(s.tree) ==> c in s.parentOf && (s.parentOf[c] == -1 || s.parentOf[c] in Ids(s.tree))
  }

  lemma InvTreeShape(s: Net)
    requires Inv(s)
    ensures TreeShape(s)
  {
    hide OrderInv, IssuedInv, BornInv, PendingInv, DownOk, UpOk, NodesOk, Unique, Count;
  }

  /** In every state of every run the nodes form a tree with unique ids in which each node hangs below
      the parent named by its create command, and every id the controller knows is such a node. */
  lemma EveryTree(run: seq<Net>, events: seq<Event>, x: nat)
    requires Run(run, events) && x < |run|
    ensures TreeShape(run[x]) && OwnerInv(run[x])
  {
    hide Inv, Next, Enabled, OwnerInv, TreeShape;
    EveryState(run, events, x);
    InvTreeShape(run[x]);
    EveryOwner(run, events, x);
  }

  // ----- quiescence

  /** No link has a message waiting. */
  ghost predicate Quiet(s: Net) {
    forall n :: n in Ids(s.tree) ==> !Waiting(s.tree, n) && !Sending(s.tree, n)
  }

  lemma NoWork(s: Net)
    requires Inv(s) && Quiet(s)
    ensures forall t :: ViewOf(s.tree, t).down == [] && ViewOf(s.tree, t).up == []
  {
    hide OrderInv, IssuedInv, CreateInv, BornInv, PendingInv, DownOk, UpOk, NodesOk, Work, ViewOf;
    if Work(s.tree, 1) > 0 {
      var n := WorkMeansMessage(s.tree, 1);
    }
    NoWorkIsQuiet(s.tree, 1);
  }

  /** When the network is quiet every command to a node was executed there and its reply received. */
  lemma QuietMeansAnswered(s: Net, t: int)
    requires Inv(s) && Quiet(s) && t in Ids(s.tree)
    ensures At(s.issued, t) == Requests(ViewOf(s.tree, t).log) && At(s.answers, t) == Replies(ViewOf(s.tree, t).log)
  {
    NoWork(s);
    hide TreeOk, ViewOf, IssuedInv, CreateInv, BornInv, PendingInv, Quiet;
    assert InOrder(s, t);
  }

  /** Steps other than commands and heartbeats. */
  predicate Internal(e: Event) {
    e.Down? || e.Up? || e.Expire?
  }

  /** Ids asked for whose node does not exist yet. */
  function Unborn(s: Net): nat {
    |s.parentOf.Keys - Ids(s.tree)|
  }

  /** Unborn creates first, then work under way, then pending entries. */
  ghost predicate Less(r: Net, s: Net) {
    || Unborn(r) < Unborn(s)
    || (Unborn(r) == Unborn(s) && Work(r.tree, 1) < Work(s.tree, 1))
    || (Unborn(r) == Unborn(s) && Work(r.tree, 1) == Work(s.tree, 1) && |r.ctl.pending| < |s.ctl.pending|)
  }

  /** Every internal step lowers the lexicographic measure. */
  lemma InternalDecreases(s: Net, e: Event)
    requires Inv(s) && Enabled(s, e) && Internal(e)
    ensures Less(Next(s, e), s)
  {
    hide Inv, Next, Enabled, Less;
    if e.Down? {
      DownDecreases(s, e.n, e.pid);
    } else if e.Up? {
      UpDecreases(s, e.n);
    } else {
      ExpireDecreases(s, e.index);
    }
  }

  lemma DownDecreases(s: Net, n: int, pid: int)
    requires Inv(s) && Enabled(s, Down(n, pid))
    ensures Less(Next(s, Down(n, pid)), s)
  {
    hide Inv, Work, Unborn, Head, Waiting, Deliver;
    var r := Next(s, Down(n, pid));
    NewbornAsked(s, n);
    InvUnique(s);
    hide Unique;
    DeliverOwner(s.tree, n, pid, n, -1);
    if Newborn(s.tree, n) == {} {
      DeliverWork(s.tree, n, pid, 1);
      SameUnborn(s, r);
    } else {
      OneBorn(s, r, Head(s.tree, n).data);
    }
  }

  lemma UpDecreases(s: Net, n: int)
    requires Inv(s) && Enabled(s, Up(n))
    ensures Less(Next(s, Up(n)), s)
  {
    hide Inv, Work, Unborn, Relay, Sending, Control.OnChild;
    var r := Next(s, Up(n));
    RelayWork(s.tree, n, 1);
    RelayOwner(s.tree, n, n, -1);
    SameUnborn(s, r);
  }

  lemma ExpireDecreases(s: Net, index: nat)
    requires Enabled(s, Expire(index))
    ensures Less(Next(s, Expire(index)), s)
  {
    hide Work, Unborn;
    SameUnborn(s, Next(s, Expire(index)));
  }

  lemma SameUnborn(s: Net, r: Net)
    requires r.parentOf == s.parentOf && Ids(r.tree) == Ids(s.tree)
    ensures Unborn(r) == Unborn(s)
  {
  }

  lemma InvUnique(s: Net)
    requires Inv(s)
    ensures Unique(s.tree)
  {
  }

  lemma OneBorn(s: Net, r: Net, c: int)
    requires r.parentOf == s.parentOf && Ids(r.tree) == Ids(s.tree) + {c} && c !in Ids(s.tree) && c in s.parentOf
    ensures Unborn(r) < Unborn(s)
  {
    assert s.parentOf.Keys - Ids(s.tree) == (r.parentOf.Keys - Ids(r.tree)) + {c};
  }

  /** Without new commands and heartbeats the network comes to rest: no run goes on forever. */
  lemma ComesToRest(run: nat -> Net, events: nat -> Event)
    requires Inv(run(0))
    ensures exists x: nat :: !(Enabled(run(x), events(x)) && Internal(events(x))
                               && run(x + 1) == Next(run(x), events(x)))
  {
    if forall x: nat :: Enabled(run(x), events(x)) && Internal(events(x)) && run(x + 1) == Next(run(x), events(x)) {
      Descend(run, events, 0);
    }
  }

  lemma {:induction false} Descend(run: nat -> Net, events: nat -> Event, x: nat)
    requires Inv(run(x))
    requires forall y: nat :: Enabled(run(y), events(y)) && Internal(events(y)) && run(y + 1) == Next(run(y), events(y))
    ensures false
    decreases Unborn(run(x)), Work(run(x).tree, 1), |run(x).ctl.pending|
  {
    hide Inv, Enabled, Next, Work, Unborn, Internal;
    StepInv(run(x), events(x));
    InternalDecreases(run(x), events(x));
    Descend(run, events, x + 1);
  }

  /** A network that is not quiet can deliver a message. */
  lemma NotQuietMoves(s: Net) returns (e: Event)
    requires !Quiet(s)
    ensures Enabled(s, e) && (e.Up? || (e.Down? && e.pid == 0))
  {
    var n :| n in Ids(s.tree) && (Waiting(s.tree, n) || Sending(s.tree, n));
    e := if Waiting(s.tree, n) then Down(n, 0) else Up(n);
  }
}
