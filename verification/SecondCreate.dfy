/** Why no second create for an id may be issued while one is outstanding: the two always lead to two
    nodes with the same id. */
module SecondCreate {
  import opened Messages
  import opened Tree
  import opened Network
  import opened Protocol
  import Control

  // ----- two nodes with one id

  lemma {:induction false} AppendTwin(f: Forest, id: int)
    ensures id in Ids(Append(f, id)) && Ids(f) <= Ids(Append(f, id))
    ensures id in Ids(f) ==> !Unique(Append(f, id))
  {
    if f.Tree? {
      AppendTwin(f.rest, id);
    }
  }

  lemma {:induction false} BroadcastIds(f: Forest, m: Message)
    ensures Ids(Broadcast(f, m)) == Ids(f)
  {
    if f.Tree? {
      BroadcastIds(f.rest, m);
    }
  }

  /** The message at the head of the link of n creates a child of n. */
  predicate Bears(f: Forest, n: int) {
    Waiting(f, n) && Head(f, n).command == Create && Head(f, n).id == n
  }

  lemma {:induction false} ChildIsBorn(f: Forest, n: int, pid: int)
    requires Bears(f, n)
    ensures Head(f, n).data in Ids(Deliver(f, n, pid)) && Ids(f) <= Ids(Deliver(f, n, pid))
  {
    if n == f.node.id {
      AppendTwin(f.kids, f.node.down[0].data);
    } else if n in Ids(f.kids) {
      ChildIsBorn(f.kids, n, pid);
    } else {
      ChildIsBorn(f.rest, n, pid);
    }
  }

  /** Creating a child whose id is taken makes twins. */
  lemma {:induction false} TwinIsBorn(f: Forest, n: int, pid: int)
    requires Bears(f, n) && Head(f, n).data in Ids(f)
    ensures !Unique(Deliver(f, n, pid))
  {
    var c := Head(f, n).data;
    if n == f.node.id {
      AppendTwin(f.kids, c);
      assert Deliver(f, n, pid).kids == Append(f.kids, c);
    } else if n in Ids(f.kids) {
      ChildIsBorn(f.kids, n, pid);
      if c in Ids(f.kids) {
        TwinIsBorn(f.kids, n, pid);
      }
    } else {
      ChildIsBorn(f.rest, n, pid);
      if c in Ids(f.rest) {
        TwinIsBorn(f.rest, n, pid);
      }
    }
  }

  // ----- a tree that is bound to get twins

  /** The creates of c on their way to p. */
  function Coming(f: Forest, p: int, c: int): nat {
    Count(ViewOf(f, p).down, NewChild(c))
  }

  function NodeCount(f: Forest, c: int): nat {
    if c in Ids(f) then 1 else 0
  }

  /** Creates on their way are for new ids among those ever asked for. */
  ghost predicate CreatesOk(f: Forest, known: set<int>, asked: set<int>) {
    forall t, m :: t in Ids(f) && m in ViewOf(f, t).down && m.command == Create ==>
      m.data in asked && m.data !in known && m.data != -1
  }

  /** Nodes with id c and creates of c on their way to p and q make two at least. */
  ghost predicate Doomed(f: Forest, known: set<int>, asked: set<int>, c: int, p: int, q: int) {
    && TreeOk(f, known) && -1 !in Ids(f) && p in Ids(f) && q in Ids(f) && CreatesOk(f, known, asked)
    && NodeCount(f, c) + Coming(f, p, c) + (if q != p then Coming(f, q, c) else 0) >= 2
  }

  lemma {:induction false} NothingComing(f: Forest)
    requires Unique(f) && forall n :: n in Ids(f) ==> !Waiting(f, n)
    ensures forall t :: ViewOf(f, t).down == []
  {
    if f.Tree? {
      var Tree(x, kids, rest) := f;
      forall n | n in Ids(kids) ensures !Waiting(kids, n) {
        assert !Waiting(f, n);
      }
      forall n | n in Ids(rest) ensures !Waiting(rest, n) {
        assert !Waiting(f, n);
      }
      assert !Waiting(f, x.id);
      NothingComing(kids);
      NothingComing(rest);
    }
  }

  lemma DoomedWaits(f: Forest, known: set<int>, asked: set<int>, c: int, p: int, q: int) returns (n: int)
    requires Doomed(f, known, asked, c, p, q)
    ensures n in Ids(f) && Waiting(f, n)
  {
    hide DownOk, UpOk, NodesOk, CreatesOk, ViewOf, Waiting;
    if forall n :: n in Ids(f) ==> !Waiting(f, n) {
      NothingComing(f);
    }
    n :| n in Ids(f) && Waiting(f, n);
  }

  /** Passing a message on keeps the doom. */
  lemma ForwardDoomed(f: Forest, g: Forest, known: set<int>, asked: set<int>, c: int, p: int, q: int)
    requires Doomed(f, known, asked, c, p, q) && TreeOk(g, known) && Unchanged(f, g)
    ensures Doomed(g, known, asked, c, p, q)
  {
    hide TreeOk, ViewOf, Count;
    forall t, m | t in Ids(g) && m in ViewOf(g, t).down && m.command == Create
      ensures m.data in asked && m.data !in known && m.data != -1
    {
      assert m in ViewOf(f, t).down;
    }
  }

  lemma ExecuteComing(f: Forest, g: Forest, n: int, m: Message, r: Message, p: int, c: int)
    requires n in Ids(f) && p in Ids(f) && Executed(f, g, n, m, r)
    ensures Coming(g, p, c) == Coming(f, p, c) - if p == n && Fits(m, NewChild(c)) then 1 else 0
  {
    hide ViewOf;
    CountConcat([m], ViewOf(g, n).down, NewChild(c));
  }

  lemma ExecuteDoomed(f: Forest, g: Forest, n: int, m: Message, r: Message,
                      known: set<int>, asked: set<int>, c: int, p: int, q: int)
    requires Doomed(f, known, asked, c, p, q) && TreeOk(g, known) && n in Ids(f) && Executed(f, g, n, m, r)
    requires m.command == Create ==> m.data !in Ids(f) && m.data != -1
    ensures Doomed(g, known, asked, c, p, q)
  {
    ExecuteComing(f, g, n, m, r, p, c);
    ExecuteComing(f, g, n, m, r, q, c);
    hide TreeOk, ViewOf, Coming;
    forall t, x | t in Ids(g) && x in ViewOf(g, t).down && x.command == Create
      ensures x.data in asked && x.data !in known && x.data != -1
    {
      assert t in Ids(f) && x in ViewOf(f, t).down;
    }
  }

  /** The message that n takes next, when it is for n. */
  lemma HeadFor(f: Forest, n: int, known: set<int>, asked: set<int>)
    requires TreeOk(f, known) && -1 !in Ids(f) && CreatesOk(f, known, asked) && n in Ids(f) && Waiting(f, n)
    requires Head(f, n).id == n
    ensures var m := Head(f, n);
      IsRequest(m) && (m.command == Create ==> m.data in asked && m.data !in known && m.data != -1)
  {
    hide UpOk, NodesOk, ViewOf, Head;
    HeadOk(f, n, known);
    HeadInView(f, n);
    assert Head(f, n) in ViewOf(f, n).down;
  }

  /** One delivery makes twins, or keeps the doom and brings it nearer. */
  lemma DoomedStep(f: Forest, n: int, known: set<int>, asked: set<int>, c: int, p: int, q: int)
    requires Doomed(f, known, asked, c, p, q) && n in Ids(f) && Waiting(f, n)
    ensures var g := Deliver(f, n, 0);
      !Unique(g) || (Doomed(g, known, asked, c, p, q) &&
        (|asked - Ids(g)| < |asked - Ids(f)| || (Ids(g) == Ids(f) && Work(g, 1) < Work(f, 1))))
  {
    hide Work, BroadcastWork, ViewOf, DownOk, UpOk, NodesOk, Unique, Deliver, Head, HeadReply, CreatesOk, Coming;
    var m, g := Head(f, n), Deliver(f, n, 0);
    if m.id != n {
      ForwardViews(f, n, 0, known);
      ForwardDoomed(f, g, known, asked, c, p, q);
      DeliverWork(f, n, 0, 1);
      SameIds(f, g);
    } else {
      HeadFor(f, n, known, asked);
      if m.command == Create && m.data in Ids(f) {
        TwinIsBorn(f, n, 0);
      } else {
        ExecuteViews(f, n, 0, known);
        ExecuteDoomed(f, g, n, m, HeadReply(f, n, 0)[0], known, asked, c, p, q);
        if m.command == Create {
          assert asked - Ids(f) == (asked - Ids(g)) + {m.data};
        } else {
          DeliverWork(f, n, 0, 1);
        }
      }
    }
  }

  /** Only deliveries of messages from parents. */
  ghost predicate Deliveries(events: seq<Event>) {
    forall x :: 0 <= x < |events| ==> events[x].Down?
  }

  lemma {:induction false} GetsTwins(s: Net, known: set<int>, asked: set<int>, c: int, p: int, q: int)
    returns (run: seq<Net>, events: seq<Event>)
    requires Doomed(s.tree, known, asked, c, p, q)
    ensures Path(run, events) && run[0] == s && Deliveries(events) && !Unique(run[|events|].tree)
    decreases |asked - Ids(s.tree)|, Work(s.tree, 1)
  {
    hide Work, Unique, Doomed, Waiting, Path, Enabled, Next, Deliver;
    var n := DoomedWaits(s.tree, known, asked, c, p, q);
    DoomedStep(s.tree, n, known, asked, c, p, q);
    var e, r := Down(n, 0), s.(tree := Deliver(s.tree, n, 0));
    assert Enabled(s, e) && Next(s, e) == r by { OneDelivery(s, n); }
    if !Unique(r.tree) {
      run, events := [s, r], [e];
      assert Path(run, events) by { OneStep(s, e); }
    } else {
      var run', events' := GetsTwins(r, known, asked, c, p, q);
      PathFrom(s, e, run', events');
      run, events := [s] + run', [e] + events';
    }
  }

  lemma OneDelivery(s: Net, n: int)
    requires n in Ids(s.tree) && Waiting(s.tree, n)
    ensures Enabled(s, Down(n, 0)) && Next(s, Down(n, 0)) == s.(tree := Deliver(s.tree, n, 0))
  {
    hide Deliver;
  }

  lemma OneStep(s: Net, e: Event)
    requires Enabled(s, e)
    ensures Path([s, Next(s, e)], [e])
  {
    hide Next, Enabled;
  }

  // ----- the second create

  /** The controller does not refuse the command. */
  predicate Accepted(s: Net, input: Control.Input) {
    !Control.Refused(s.ctl.nodeIds, input)
  }

  lemma InvCreatesOk(s: Net)
    requires Inv(s)
    ensures CreatesOk(s.tree, s.ctl.nodeIds, s.parentOf.Keys)
  {
    hide TreeOk, OrderInv, IssuedInv, CreateInv, BornInv, PendingInv, ViewOf;
    forall t, m | t in Ids(s.tree) && m in ViewOf(s.tree, t).down && m.command == Create
      ensures m.data in s.parentOf.Keys && m.data !in s.ctl.nodeIds && m.data != -1
    {
      UnderWay(s, t, m);
    }
  }

  /** A create that is outstanding was executed, or is on its way. */
  lemma FirstCreate(s: Net, c: int)
    requires Inv(s) && c in s.parentOf && c !in s.ctl.nodeIds
    ensures var p := s.parentOf[c];
      p != -1 && p in Ids(s.tree) && NodeCount(s.tree, c) + Coming(s.tree, p, c) >= 1
  {
    hide TreeOk, IssuedInv, PendingInv, ViewOf, Requests, Replies, Outstanding;
    var p := s.parentOf[c];
    assert Network.Born(s, c) && p in s.ctl.nodeIds;
    if c !in Ids(s.tree) {
      assert InOrder(s, p);
      CountConcat(Requests(ViewOf(s.tree, p).log), ViewOf(s.tree, p).down, NewChild(c));
      hide Count;
      assert Count(At(s.issued, p), NewChild(c)) == 1;
    }
  }

  lemma SentDoomed(s: Net, c: int, p: int)
    requires Inv(s) && c in s.parentOf && c !in s.ctl.nodeIds && c != -1 && p in s.ctl.nodeIds && p != -1
    ensures Doomed(Broadcast(s.tree, Message(Create, p, c, "")), s.ctl.nodeIds, s.parentOf.Keys, c, s.parentOf[c], p)
  {
    InvCreatesOk(s);
    FirstCreate(s, c);
    KnownIsNode(s, p);
    hide Inv, DownOk, UpOk, NodesOk, Unique, ViewOf, Broadcast;
    var m := Message(Create, p, c, "");
    var g := Broadcast(s.tree, m);
    assert TreeOk(s.tree, s.ctl.nodeIds) && -1 !in Ids(s.tree) by { InvTree(s); }
    BroadcastViews(s.tree, m, s.ctl.nodeIds);
    SentCreatesOk(s, g, m);
    SentComing(s.tree, g, m, p, c);
    SentComing(s.tree, g, m, s.parentOf[c], c);
  }

  lemma InvTree(s: Net)
    requires Inv(s)
    ensures TreeOk(s.tree, s.ctl.nodeIds) && -1 !in Ids(s.tree) && -1 in s.ctl.nodeIds
  {
    hide TreeOk;
  }

  lemma KnownIsNode(s: Net, p: int)
    requires Inv(s) && p in s.ctl.nodeIds && p != -1
    ensures p in Ids(s.tree)
  {
  }

  /** What a broadcast adds to the views. */
  ghost predicate Sent(f: Forest, g: Forest, m: Message) {
    Ids(g) == Ids(f) && forall t :: t in Ids(f) ==>
      ViewOf(g, t) == ViewOf(f, t).(down := ViewOf(f, t).down + For([m], t))
  }

  lemma SentComing(f: Forest, g: Forest, m: Message, t: int, c: int)
    requires Sent(f, g, m) && t in Ids(f)
    ensures Coming(g, t, c) == Coming(f, t, c) + if t == m.id && Fits(m, NewChild(c)) then 1 else 0
  {
    hide ViewOf;
    assert For([m], t) == if t == m.id then [m] else [];
    CountConcat(ViewOf(f, t).down, For([m], t), NewChild(c));
  }

  lemma SentCreatesOk(s: Net, g: Forest, m: Message)
    requires CreatesOk(s.tree, s.ctl.nodeIds, s.parentOf.Keys) && Sent(s.tree, g, m)
    requires m.data in s.parentOf && m.data !in s.ctl.nodeIds && m.data != -1
    ensures CreatesOk(g, s.ctl.nodeIds, s.parentOf.Keys)
  {
    hide ViewOf;
    forall t, x | t in Ids(g) && x in ViewOf(g, t).down && x.command == Create
      ensures x.data in s.parentOf.Keys && x.data !in s.ctl.nodeIds && x.data != -1
    {
      assert For([m], t) == if t == m.id then [m] else [];
      assert x in ViewOf(s.tree, t).down || x == m;
    }
  }

  lemma AppendedDoomed(s: Net, c: int)
    requires Inv(s) && c in s.parentOf && c !in s.ctl.nodeIds && c !in Ids(s.tree)
    ensures Doomed(Append(s.tree, c), s.ctl.nodeIds, s.parentOf.Keys, c, s.parentOf[c], s.parentOf[c])
  {
    InvCreatesOk(s);
    FirstCreate(s, c);
    assert TreeOk(s.tree, s.ctl.nodeIds) && -1 !in Ids(s.tree) && c != -1 by { InvTree(s); }
    hide Inv, TreeOk, ViewOf;
    AppendViews(s.tree, c, s.ctl.nodeIds);
    AppendedCreatesOk(s, Append(s.tree, c), c);
    hide CreatesOk, Count, Append;
  }

  lemma AppendedCreatesOk(s: Net, g: Forest, c: int)
    requires CreatesOk(s.tree, s.ctl.nodeIds, s.parentOf.Keys) && Ids(g) == Ids(s.tree) + {c}
    requires ViewOf(g, c) == View([], [], []) && forall t :: t in Ids(s.tree) ==> ViewOf(g, t) == ViewOf(s.tree, t)
    ensures CreatesOk(g, s.ctl.nodeIds, s.parentOf.Keys)
  {
    hide ViewOf;
    forall t, x | t in Ids(g) && x in ViewOf(g, t).down && x.command == Create
      ensures x.data in s.parentOf.Keys && x.data !in s.ctl.nodeIds && x.data != -1
    {
      assert t in Ids(s.tree) && x in ViewOf(s.tree, t).down;
    }
  }

  /** Whenever a create is accepted for an id whose create is outstanding, deliveries alone lead to two
      nodes with that id. */
  lemma SecondCreateMakesTwins(s: Net, input: Control.Input) returns (run: seq<Net>, events: seq<Event>)
    requires Inv(s) && input.CreateNode? && Accepted(s, input) && !Enabled(s, Enter(input))
    ensures Path(run, events) && run[0] == OnEnter(s, input) && Deliveries(events)
    ensures !Unique(run[|events|].tree)
  {
    var c, p, r := input.child, input.parent, OnEnter(s, input);
    assert c != -1 by { InvTree(s); }
    hide Inv, Unique, Doomed;
    var first := s.parentOf[c];
    if p != -1 {
      SentDoomed(s, c, p);
      run, events := GetsTwins(r, s.ctl.nodeIds, s.parentOf.Keys, c, first, p);
    } else if c in Ids(s.tree) {
      AppendTwin(s.tree, c);
      run, events := [r], [];
    } else {
      AppendedDoomed(s, c);
      run, events := GetsTwins(r, s.ctl.nodeIds, s.parentOf.Keys, c, first, first);
    }
  }

  /** An accepted create keeps the ids of the nodes unique, however the run goes on, if and only if no create
      for its id is outstanding. */
  lemma UniqueExactlyWithoutSecondCreate(s: Net, input: Control.Input)
    requires Inv(s) && input.CreateNode? && Accepted(s, input)
    ensures Enabled(s, Enter(input)) <==>
      forall run: seq<Net>, events: seq<Event> :: Path(run, events) && run[0] == OnEnter(s, input) ==> Unique(run[|events|].tree)
  {
    if Enabled(s, Enter(input)) {
      forall run: seq<Net>, events: seq<Event> | Path(run, events) && run[0] == OnEnter(s, input)
        ensures Unique(run[|events|].tree)
      {
        StepInv(s, Enter(input));
        hide Inv;
        PathInv(run, events, |events|);
        InvUnique(run[|events|]);
      }
    } else {
      var run, events := SecondCreateMakesTwins(s, input);
    }
  }

  /** The case arises: node 1 exists and was asked for node 2, and the controller accepts another create
      of 2. */
  lemma SecondCreateIsAccepted() returns (run: seq<Net>, events: seq<Event>, again: Control.Input)
    ensures Run(run, events) && again.CreateNode?
    ensures Accepted(run[|events|], again) && !Enabled(run[|events|], Enter(again))
  {
    var e, d := Enter(Control.CreateNode(1, -1)), Enter(Control.CreateNode(2, 1));
    again := Control.CreateNode(2, 1);
    var one := Next(Start(), e);
    run, events := [Start(), one, Next(one, d)], [e, d];
  }
}
