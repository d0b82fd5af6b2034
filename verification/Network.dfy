/** The whole of Lab 5 as one step relation: the controller, the tree with its links, and the commands
    issued and answered so far. */
module Network {
  import opened Messages
  import opened Wrappers
  import opened Tree
  import Nodes
  import Control

  /** issued and answers hold, per node id, the commands sent to it and the replies received from it;
      parentOf holds the parent named by the create command of each id. They are history. */
  datatype Net = Net(ctl: Control.State, tree: Forest,
                     issued: map<int, seq<Message>>, answers: map<int, seq<Message>>, parentOf: map<int, int>)

  datatype Event =
    | Enter(input: Control.Input)       // a command line
    | Expire(index: nat)                // a pending entry times out
    | Down(n: int, pid: int)            // node n takes a message from its parent
    | Up(n: int)                        // the parent of n takes a message from n
    | Pulse(n: int)                     // node n sends a heartbeat

  function At(m: map<int, seq<Message>>, t: int): seq<Message> {
    if t in m then m[t] else []
  }

  function Start(): Net {
    Net(Control.State({-1}, []), Nil, map[], map[], map[])
  }

  /** A step can be taken. A create for an id that was asked for before waits until that id is known. */
  predicate Enabled(s: Net, e: Event) {
    match e
    case Enter(input) => input.CreateNode? && input.child in s.parentOf ==> input.child in s.ctl.nodeIds
    case Expire(index) => index < |s.ctl.pending|
    case Down(n, _) => n in Ids(s.tree) && Waiting(s.tree, n)
    case Up(n) => n in Ids(s.tree) && Sending(s.tree, n)
    case Pulse(n) => n in Ids(s.tree) && BeatOf(s.tree, n) > 0
  }

  function Issue(s: Net, m: Message): Net {
    s.(tree := Broadcast(s.tree, m), issued := s.issued[m.id := At(s.issued, m.id) + [m]])
  }

  function OnEnter(s: Net, input: Control.Input): Net {
    var t := s.(ctl := Control.OnInput(s.ctl, input));
    if Control.Refused(s.ctl.nodeIds, input) then s
    else if Control.Local(input) then
      t.(tree := Append(s.tree, input.child), parentOf := s.parentOf[input.child := -1])
    else if input.SetBeat? then t.(tree := Broadcast(s.tree, Control.Request(input)))
    else
      Issue(t.(parentOf := if input.CreateNode? then s.parentOf[input.child := input.parent] else s.parentOf),
            Control.Request(input))
  }

  /** The controller handles what comes out of the tree. */
  function OnReply(s: Net, r: Reply): Net {
    s.(ctl := Control.OnChild(s.ctl, r.msg),
       answers := if r.msg.command == HeartBeat then s.answers
                  else s.answers[r.from := At(s.answers, r.from) + [r.msg]])
  }

  function Next(s: Net, e: Event): Net
    requires Enabled(s, e)
  {
    match e
    case Enter(input) => OnEnter(s, input)
    case Expire(index) =>
      s.(ctl := s.ctl.(pending := s.ctl.pending[..index] + s.ctl.pending[index + 1..]))
    case Down(n, pid) => s.(tree := Deliver(s.tree, n, pid))
    case Up(n) =>
      var (tree, out) := Relay(s.tree, n);
      if out == [] then s.(tree := tree) else OnReply(s.(tree := tree), out[0])
    case Pulse(n) => s.(tree := Beat(s.tree, n))
  }

  // ----- counting

  /** The entries that a reply may take away: a command to a node, or the creation of a child. */
  datatype Key = To(command: Command, id: int) | NewChild(child: int)

  predicate Fits(m: Message, k: Key) {
    match k
    case To(command, id) => m.command == command && m.id == id
    case NewChild(child) => m.command == Create && m.data == child
  }

  function Count(q: seq<Message>, k: Key): nat {
    if q == [] then 0 else (if Fits(q[0], k) then 1 else 0) + Count(q[1..], k)
  }

  lemma {:induction false} CountConcat(a: seq<Message>, b: seq<Message>, k: Key)
    ensures Count(a + b, k) == Count(a, k) + Count(b, k)
    decreases |a|
  {
    if a == [] {
      assert a + b == b;
    } else {
      assert (a + b)[1..] == a[1..] + b;
      CountConcat(a[1..], b, k);
    }
  }

  lemma {:induction false} CountMember(q: seq<Message>, m: Message, k: Key)
    requires m in q && Fits(m, k)
    ensures Count(q, k) > 0
    decreases |q|
  {
    if q[0] != m {
      CountMember(q[1..], m, k);
    }
  }

  // ----- the invariant, part by part

  /** What was asked of t and not yet answered: on its way down, or answered on its way up. */
  function Outstanding(s: Net, t: int): seq<Message> {
    var issued, n := At(s.issued, t), |At(s.answers, t)|;
    if n <= |issued| then issued[n..] else []
  }

  /** Known ids are nodes of the tree, and every node was asked for by a create command. */
  ghost predicate TreeInv(s: Net) {
    && TreeOk(s.tree, s.ctl.nodeIds)
    && -1 in s.ctl.nodeIds && -1 !in s.parentOf
    && s.ctl.nodeIds <= Ids(s.tree) + {-1} && Ids(s.tree) <= s.parentOf.Keys
  }

  /** Commands reach each node, and its replies reach the controller, in order and without loss. */
  ghost predicate InOrder(s: Net, t: int) {
    var v := ViewOf(s.tree, t);
    At(s.issued, t) == Requests(v.log) + v.down && At(s.answers, t) + v.up == Replies(v.log)
  }

  ghost predicate OrderInv(s: Net) {
    && (forall t :: t in Ids(s.tree) ==> InOrder(s, t))
    && (forall t :: t !in Ids(s.tree) && t != -1 ==> At(s.issued, t) == [])
    && (forall t :: t !in Ids(s.tree) ==> At(s.answers, t) == [])
  }

  ghost predicate IssuedInv(s: Net) {
    forall t, m :: m in At(s.issued, t) ==> m.id == t && IsRequest(m)
  }

  /** Every id but those made by the controller itself was asked for once, of its parent. */
  ghost predicate CreateInv(s: Net) {
    && (forall c :: c in s.parentOf ==> s.parentOf[c] in s.ctl.nodeIds)
    && forall c, t :: t != -1 ==>
         Count(At(s.issued, t), NewChild(c)) == if c in s.parentOf && s.parentOf[c] == t then 1 else 0
  }

  /** A node is in the tree when its create was executed, and known when that was answered. */
  ghost predicate BornInv(s: Net) {
    forall c :: c in s.parentOf ==> Born(s, c)
  }

  ghost predicate Born(s: Net, c: int)
    requires c in s.parentOf
  {
    var p := s.parentOf[c];
    && (c in Ids(s.tree) <==> p == -1 || Count(Requests(ViewOf(s.tree, p).log), NewChild(c)) > 0)
    && (c in s.ctl.nodeIds <==> p == -1 || Count(At(s.issued, p), NewChild(c)) > Count(Outstanding(s, p), NewChild(c)))
  }

  /** Pending entries are requests to known ids. */
  ghost predicate PendingInv(s: Net) {
    forall m :: m in s.ctl.pending ==>
      IsRequest(m) && m.id in s.ctl.nodeIds && (m.command == Create ==> m.id != -1)
  }

  ghost predicate Inv(s: Net) {
    TreeInv(s) && OrderInv(s) && IssuedInv(s) && CreateInv(s) && BornInv(s) && PendingInv(s)
  }

  lemma StartInv()
    ensures Inv(Start())
  {
  }

  // ----- steps that change no view

  /** A step that changes neither the views nor the controller keeps the invariant. */
  lemma SameViews(s: Net, tree: Forest)
    requires Inv(s) && TreeOk(tree, s.ctl.nodeIds) && Unchanged(s.tree, tree)
    ensures Inv(s.(tree := tree))
  {
    hide TreeOk, Unchanged, OrderInv, IssuedInv, CreateInv, BornInv, PendingInv;
    var r := s.(tree := tree);
    SameOrder(s, tree);
    SameIssued(s, r);
    SameBorn(s, r);
    FewerPending(s, r);
    assert Ids(tree) == Ids(s.tree) by { SameIds(s.tree, tree); }
  }

  lemma SameIds(f: Forest, g: Forest)
    requires Unchanged(f, g)
    ensures Ids(g) == Ids(f)
  {
  }

  lemma SameOrder(s: Net, tree: Forest)
    requires OrderInv(s) && Unchanged(s.tree, tree)
    ensures OrderInv(s.(tree := tree))
  {
    hide ViewOf, Requests, Replies;
    forall t | t in Ids(tree) ensures InOrder(s.(tree := tree), t) {
      assert InOrder(s, t);
    }
  }

  lemma SameIssued(s: Net, r: Net)
    requires IssuedInv(s) && CreateInv(s) && r.issued == s.issued && r.parentOf == s.parentOf
    requires s.ctl.nodeIds <= r.ctl.nodeIds
    ensures IssuedInv(r) && CreateInv(r)
  {
    hide Count;
  }

  /** The same ids, logs and histories. */
  lemma SameBorn(s: Net, r: Net)
    requires TreeInv(s) && CreateInv(s) && BornInv(s) && r == s.(tree := r.tree, ctl := s.ctl.(pending := r.ctl.pending))
    requires Unchanged(s.tree, r.tree)
    ensures BornInv(r)
  {
    hide TreeOk, ViewOf, Count, Requests;
    forall c | c in r.parentOf ensures Born(r, c) {
      assert Born(s, c) && s.parentOf[c] in s.ctl.nodeIds;
    }
  }

  /** No entry is new, and no id is forgotten. */
  lemma FewerPending(s: Net, r: Net)
    requires PendingInv(s) && s.ctl.nodeIds <= r.ctl.nodeIds
    requires forall m :: m in r.ctl.pending ==> m in s.ctl.pending
    ensures PendingInv(r)
  {
  }

  lemma PulseInv(s: Net, n: int)
    requires Inv(s) && Enabled(s, Pulse(n))
    ensures Inv(Next(s, Pulse(n)))
  {
    hide TreeOk, Unchanged, OrderInv, IssuedInv, CreateInv, BornInv, PendingInv;
    BeatViews(s.tree, n, s.ctl.nodeIds);
    SameViews(s, Beat(s.tree, n));
  }

  // ----- timeouts

  lemma ExpireInv(s: Net, index: nat)
    requires Inv(s) && index < |s.ctl.pending|
    ensures Inv(Next(s, Expire(index)))
  {
    var r := Next(s, Expire(index));
    assert forall m :: m in r.ctl.pending ==> m in s.ctl.pending;
    hide TreeOk, OrderInv, IssuedInv, CreateInv, BornInv, PendingInv;
    FewerPending(s, r);
    SameTree(s, r);
  }

  /** Only the pending list changed. */
  lemma SameTree(s: Net, r: Net)
    requires Inv(s) && r == s.(ctl := s.ctl.(pending := r.ctl.pending))
    ensures TreeInv(r) && OrderInv(r) && IssuedInv(r) && CreateInv(r) && BornInv(r)
  {
    hide TreeOk, PendingInv;
    SameIssued(s, r);
    assert Unchanged(s.tree, r.tree);
    SameBorn(s, r);
    hide IssuedInv, CreateInv, BornInv, ViewOf;
    forall t | t in Ids(r.tree) ensures InOrder(r, t) {
      assert InOrder(s, t);
    }
  }

  // ----- delivery

  lemma {:induction false} HeadInView(f: Forest, n: int)
    requires Waiting(f, n) && n in Ids(f) && Unique(f) && Head(f, n).id == n
    ensures ViewOf(f, n).down != [] && ViewOf(f, n).down[0] == Head(f, n)
  {
    if n != f.node.id {
      if n in Ids(f.kids) { HeadInView(f.kids, n); } else { HeadInView(f.rest, n); }
    }
  }

  lemma RequestsConcat(a: seq<Exec>, e: Exec)
    ensures Requests(a + [e]) == Requests(a) + [e.request] && Replies(a + [e]) == Replies(a) + [e.reply]
  {
  }

  /** A command that arrives where it is addressed may be executed: its child, if any, is new. */
  lemma HeadExecutable(s: Net, n: int)
    requires Inv(s) && n in Ids(s.tree) && Waiting(s.tree, n) && Head(s.tree, n).id == n
    ensures Executable(s.tree, Head(s.tree, n), s.ctl.nodeIds) && n != -1
    ensures var m := Head(s.tree, n);
      m.command == Create ==> m.data in s.parentOf && s.parentOf[m.data] == n
  {
    hide OrderInv, IssuedInv, CreateInv, BornInv, PendingInv, ViewOf;
    HeadInView(s.tree, n);
    hide TreeOk, Head, Waiting;
    UnderWay(s, n, ViewOf(s.tree, n).down[0]);
  }

  /** A command under way to a node asks for a child that is not there yet, if for any. */
  lemma UnderWay(s: Net, n: int, m: Message)
    requires TreeInv(s) && OrderInv(s) && IssuedInv(s) && CreateInv(s) && BornInv(s)
    requires n in Ids(s.tree) && m in ViewOf(s.tree, n).down
    ensures n != -1 && IsRequest(m) && (m.command == Create ==>
      m.data !in Ids(s.tree) && m.data !in s.ctl.nodeIds && m.data != -1
      && m.data in s.parentOf && s.parentOf[m.data] == n)
  {
    hide TreeOk, ViewOf, Requests, Replies, Count, CreateInv, BornInv;
    var v := ViewOf(s.tree, n);
    assert InOrder(s, n);
    hide OrderInv;
    assert m in At(s.issued, n);
    if m.command == Create {
      CreateUnderWay(s, n, m);
    }
  }

  lemma CreateUnderWay(s: Net, n: int, m: Message)
    requires TreeInv(s) && CreateInv(s) && BornInv(s) && n in Ids(s.tree) && n != -1
    requires At(s.issued, n) == Requests(ViewOf(s.tree, n).log) + ViewOf(s.tree, n).down
    requires m in ViewOf(s.tree, n).down && m.command == Create
    ensures m.data !in Ids(s.tree) && m.data !in s.ctl.nodeIds && m.data != -1
    ensures m.data in s.parentOf && s.parentOf[m.data] == n
  {
    hide TreeOk, ViewOf, Requests, Outstanding;
    var v, k := ViewOf(s.tree, n), NewChild(m.data);
    CountConcat(Requests(v.log), v.down, k);
    CountMember(v.down, m, k);
    hide Count;
    assert Born(s, m.data);
  }

  lemma DownInv(s: Net, n: int, pid: int)
    requires Inv(s) && Enabled(s, Down(n, pid))
    ensures Inv(Next(s, Down(n, pid)))
  {
    hide TreeOk, OrderInv, IssuedInv, CreateInv, BornInv, PendingInv;
    if Head(s.tree, n).id == n {
      HeadExecutable(s, n);
      ExecuteViews(s.tree, n, pid, s.ctl.nodeIds);
      ExecutedInv(s, Deliver(s.tree, n, pid), n, Head(s.tree, n), HeadReply(s.tree, n, pid)[0]);
    } else {
      ForwardViews(s.tree, n, pid, s.ctl.nodeIds);
      SameViews(s, Deliver(s.tree, n, pid));
    }
  }

  lemma ExecutedInv(s: Net, tree: Forest, n: int, m: Message, r: Message)
    requires Inv(s) && n in Ids(s.tree) && Executed(s.tree, tree, n, m, r) && TreeOk(tree, s.ctl.nodeIds)
    requires Executable(s.tree, m, s.ctl.nodeIds)
    requires m.command == Create ==> m.data in s.parentOf && s.parentOf[m.data] == n
    ensures Inv(s.(tree := tree))
  {
    hide TreeOk, OrderInv, IssuedInv, CreateInv, BornInv, PendingInv;
    var t := s.(tree := tree);
    ExecutedOrder(s, tree, n, m, r);
    ExecutedBorn(s, tree, n, m, r);
    SameIssued(s, t);
    FewerPending(s, t);
  }

  lemma ExecutedOrder(s: Net, tree: Forest, n: int, m: Message, r: Message)
    requires OrderInv(s) && n in Ids(s.tree) && Executed(s.tree, tree, n, m, r)
    requires m.command == Create ==> m.data !in Ids(s.tree) && m.data != -1
    ensures OrderInv(s.(tree := tree))
  {
    hide ViewOf, Requests, Replies;
    forall t | t in Ids(tree) ensures InOrder(s.(tree := tree), t) {
      if t == n {
        ExecutedInOrder(s, tree, n, m, r);
      } else if t in Ids(s.tree) {
        assert InOrder(s, t);
      } else {
        assert Requests([]) == [] && Replies([]) == [];
      }
    }
  }

  lemma ExecutedInOrder(s: Net, tree: Forest, n: int, m: Message, r: Message)
    requires n in Ids(s.tree) && InOrder(s, n) && Executed(s.tree, tree, n, m, r)
    ensures InOrder(s.(tree := tree), n)
  {
    hide ViewOf, Requests, Replies;
    var v, w := ViewOf(s.tree, n), ViewOf(tree, n);
    RequestsConcat(v.log, Exec(m, r));
    Associative(Requests(v.log), [m], w.down);
    Associative(At(s.answers, n), v.up, [r]);
  }

  lemma ExecutedBorn(s: Net, tree: Forest, n: int, m: Message, r: Message)
    requires TreeInv(s) && CreateInv(s) && BornInv(s)
    requires n in Ids(s.tree) && Executed(s.tree, tree, n, m, r) && Executable(s.tree, m, s.ctl.nodeIds)
    requires m.command == Create ==> m.data in s.parentOf && s.parentOf[m.data] == n
    ensures BornInv(s.(tree := tree))
  {
    hide TreeOk, ViewOf, Requests;
    var v, t := ViewOf(s.tree, n), s.(tree := tree);
    RequestsConcat(v.log, Exec(m, r));
    assert -1 !in Ids(s.tree);
    forall c | c in s.parentOf ensures Born(t, c) {
      assert Born(s, c);
      CountConcat(Requests(v.log), [m], NewChild(c));
      assert Count([m], NewChild(c)) == if Fits(m, NewChild(c)) then 1 else 0;
      assert s.parentOf[c] in s.ctl.nodeIds;
      hide Count;
    }
  }

  // ----- replies

  lemma UpInv(s: Net, n: int)
    requires Inv(s) && Enabled(s, Up(n))
    ensures Inv(Next(s, Up(n)))
  {
    hide TreeOk, OrderInv, IssuedInv, CreateInv, BornInv, PendingInv, Relay;
    RelayViews(s.tree, n, s.ctl.nodeIds);
    var (tree, out) := Relay(s.tree, n);
    if out == [] || out[0].msg.command == HeartBeat {
      QuietRelay(s.tree, tree, out);
      SameViews(s, tree);
    } else {
      assert out == [out[0]];
      AnswerInv(s, tree, out[0]);
    }
  }

  lemma QuietRelay(f: Forest, g: Forest, out: seq<Reply>)
    requires Relayed(f, g, out) && (out == [] || out[0].msg.command == HeartBeat)
    ensures Unchanged(f, g)
  {
    hide ViewOf;
    assert forall t :: From(out, t) == [];
    forall t | t in Ids(f) ensures ViewOf(g, t) == ViewOf(f, t) {
      assert From(out, t) == [];
    }
  }

  /** The request that the next reply of t answers. */
  lemma NextAnswer(s: Net, tree: Forest, r: Reply)
    requires OrderInv(s) && IssuedInv(s) && NodesOk(s.tree) && Unique(s.tree)
    requires Relayed(s.tree, tree, [r]) && r.msg.command != HeartBeat
    ensures r.from in Ids(s.tree)
    ensures var t, k := r.from, |At(s.answers, r.from)|;
      && k < |ViewOf(s.tree, t).log| <= |At(s.issued, t)|
      && ViewOf(s.tree, t).log[k] == Exec(At(s.issued, t)[k], r.msg)
      && Nodes.RightReply(t, At(s.issued, t)[..k], At(s.issued, t)[k], r.msg)
      && IsRequest(At(s.issued, t)[k]) && At(s.issued, t)[k].id == t
  {
    assert r in [r];
    var t, k := r.from, |At(s.answers, r.from)|;
    var v := ViewOf(s.tree, t);
    LogIsOk(s.tree, t);
    hide NodesOk, Unique, ViewOf;
    assert InOrder(s, t);
    assert From([r], t) == [r.msg];
    assert Replies(v.log)[k] == r.msg;
    assert At(s.issued, t)[..k] == Requests(v.log)[..k];
    assert At(s.issued, t)[k] in At(s.issued, t);
  }

  lemma {:induction false} LogIsOk(f: Forest, t: int)
    requires NodesOk(f) && t in Ids(f)
    ensures LogOk(t, ViewOf(f, t).log)
  {
    if t != f.node.id {
      if t in Ids(f.kids) { LogIsOk(f.kids, t); } else { LogIsOk(f.rest, t); }
    }
  }

  lemma AnswerInv(s: Net, tree: Forest, r: Reply)
    requires Inv(s) && Relayed(s.tree, tree, [r]) && r.msg.command != HeartBeat && TreeOk(tree, s.ctl.nodeIds)
    ensures Inv(OnReply(s.(tree := tree), r))
  {
    hide OrderInv, IssuedInv, CreateInv, BornInv, PendingInv, ViewOf, DownOk;
    NextAnswer(s, tree, r);
    hide TreeOk, Unique, NodesOk, UpOk;
    var t := r.from;
    var q := At(s.issued, t)[|At(s.answers, t)|];
    var after := OnReply(s.(tree := tree), r);
    AnswerMatches(s, t, q, r.msg);
    AnswerTree(s, tree, r, q);
    AnswerOrder(s, tree, r);
    AnswerOutstanding(s, tree, r, q);
    SameIssued(s, after);
    AnswerBorn(s, after, r, q);
    RemoveKeeps(s.ctl.pending, q.command, r.msg.id);
    FewerPending(s, after);
  }

  /** A reply names its request: by the node for most commands, by the child for a create. */
  ghost predicate Names(q: Message, t: int, msg: Message) {
    && Control.Answered(msg) == Some(q.command)
    && q.id == t && msg.id == if q.command == Create then q.data else t
  }

  /** A reply names its request, and a created child was not known before. */
  lemma AnswerMatches(s: Net, t: int, q: Message, msg: Message)
    requires CreateInv(s) && BornInv(s) && t != -1
    requires |At(s.answers, t)| < |At(s.issued, t)| && q == At(s.issued, t)[|At(s.answers, t)|]
    requires q.id == t && IsRequest(q)
    requires Nodes.RightReply(t, At(s.issued, t)[..|At(s.answers, t)|], q, msg)
    ensures Names(q, t, msg)
    ensures q.command == Create ==> q.data in s.parentOf && s.parentOf[q.data] == t && q.data !in s.ctl.nodeIds
  {
    if q.command == Create {
      var k := |At(s.answers, t)|;
      assert q in Outstanding(s, t) by { assert Outstanding(s, t)[0] == q; }
      CountMember(Outstanding(s, t), q, NewChild(q.data));
      assert At(s.issued, t) == At(s.issued, t)[..k] + Outstanding(s, t);
      CountConcat(At(s.issued, t)[..k], Outstanding(s, t), NewChild(q.data));
      assert Born(s, q.data);
    }
  }

  function Learned(q: Message): set<int> {
    if q.command == Create then {q.data} else {}
  }

  lemma AnswerTree(s: Net, tree: Forest, r: Reply, q: Message)
    requires TreeInv(s) && BornInv(s) && Relayed(s.tree, tree, [r]) && TreeOk(tree, s.ctl.nodeIds)
    requires Names(q, r.from, r.msg) && q in Requests(ViewOf(s.tree, r.from).log)
    requires q.command == Create ==> q.data in s.parentOf && s.parentOf[q.data] == r.from
    ensures var after := OnReply(s.(tree := tree), r);
      TreeInv(after) && after.ctl.nodeIds == s.ctl.nodeIds + Learned(q)
  {
    hide ViewOf, Count, UpOk, NodesOk, Unique;
    DownOkMonotone(tree, s.ctl.nodeIds, s.ctl.nodeIds + Learned(q));
    hide DownOk;
    if q.command == Create {
      CountMember(Requests(ViewOf(s.tree, r.from).log), q, NewChild(q.data));
      assert Born(s, q.data);
    }
  }

  lemma FromOne(r: Reply, t: int)
    ensures From([r], t) == if t == r.from && r.msg.command != HeartBeat then [r.msg] else []
  {
  }

  lemma AnswerOrder(s: Net, tree: Forest, r: Reply)
    requires OrderInv(s) && Relayed(s.tree, tree, [r]) && r.msg.command != HeartBeat
    ensures OrderInv(OnReply(s.(tree := tree), r))
  {
    hide ViewOf, From;
    var after := OnReply(s.(tree := tree), r);
    assert r in [r];
    forall t | t in Ids(tree) ensures InOrder(after, t) {
      assert InOrder(s, t);
      FromOne(r, t);
      AnswerInOrder(s, tree, r, t);
    }
  }

  lemma AnswerInOrder(s: Net, tree: Forest, r: Reply, t: int)
    requires InOrder(s, t) && t in Ids(s.tree) && Relayed(s.tree, tree, [r]) && r.msg.command != HeartBeat
    requires From([r], t) == if t == r.from then [r.msg] else []
    ensures InOrder(OnReply(s.(tree := tree), r), t)
  {
    hide ViewOf, From, Requests, Replies;
    var a, up := At(s.answers, t), ViewOf(tree, t).up;
    assert a + ([r.msg] + up) == (a + [r.msg]) + up;
  }

  lemma AnswerOutstanding(s: Net, tree: Forest, r: Reply, q: Message)
    requires r.msg.command != HeartBeat
    requires |At(s.answers, r.from)| < |At(s.issued, r.from)| && q == At(s.issued, r.from)[|At(s.answers, r.from)|]
    ensures var after := OnReply(s.(tree := tree), r);
      && Outstanding(s, r.from) == [q] + Outstanding(after, r.from)
      && forall t :: t != r.from ==> Outstanding(after, t) == Outstanding(s, t)
  {
  }

  lemma OutstandingCount(s: Net, t: int, k: Key)
    ensures Count(Outstanding(s, t), k) <= Count(At(s.issued, t), k)
  {
    var issued, n := At(s.issued, t), |At(s.answers, t)|;
    if n <= |issued| {
      assert issued == issued[..n] + issued[n..];
      CountConcat(issued[..n], issued[n..], k);
    }
  }

  lemma AnswerBorn(s: Net, after: Net, r: Reply, q: Message)
    requires CreateInv(s) && BornInv(s) && TreeInv(s) && Relayed(s.tree, after.tree, [r])
    requires after.issued == s.issued && after.parentOf == s.parentOf && after.ctl.nodeIds == s.ctl.nodeIds + Learned(q)
    requires Outstanding(s, r.from) == [q] + Outstanding(after, r.from) && r.from != -1
    requires forall t :: t != r.from ==> Outstanding(after, t) == Outstanding(s, t)
    requires q.command == Create ==> q.data in s.parentOf && s.parentOf[q.data] == r.from && q.data !in s.ctl.nodeIds
    ensures BornInv(after)
  {
    hide ViewOf, TreeOk, Outstanding;
    forall c | c in s.parentOf ensures Born(after, c) {
      assert Born(s, c) && s.parentOf[c] in s.ctl.nodeIds;
      OutstandingCount(s, s.parentOf[c], NewChild(c));
      CountConcat([q], Outstanding(after, r.from), NewChild(c));
      assert Count([q], NewChild(c)) == if q.command == Create && q.data == c then 1 else 0;
      hide Count;
    }
  }

  lemma {:induction false} RemoveKeeps(q: seq<Message>, command: Command, id: int)
    ensures forall m :: m in Control.RemovePending(q, command, id) ==> m in q
    decreases |q|
  {
    if q != [] {
      RemoveKeeps(q[1..], command, id);
    }
  }

  /** The pending entries that match the reply are exactly those of its request's kind: the second
      alternative of the test never hits the create command of another child. */
  lemma MatchesOneKey(s: Net, t: int, q: Message, msg: Message, k: Key)
    requires PendingInv(s) && Names(q, t, msg)
    requires q.command == Create ==> q.data !in s.ctl.nodeIds
    requires k == if q.command == Create then NewChild(q.data) else To(q.command, t)
    ensures forall m :: m in s.ctl.pending ==> (Control.Matches(m, q.command, msg.id) <==> Fits(m, k))
  {
  }

  // ----- commands

  lemma EnterInv(s: Net, input: Control.Input)
    requires Inv(s) && Enabled(s, Enter(input))
    ensures Inv(Next(s, Enter(input)))
  {
    hide TreeOk, OrderInv, IssuedInv, CreateInv, BornInv, PendingInv;
    if Control.Refused(s.ctl.nodeIds, input) {
    } else if Control.Local(input) {
      LocalInv(s, input.child);
    } else if input.SetBeat? {
      SetBeatInv(s, Control.Request(input));
    } else if input.CreateNode? {
      IssueCreateInv(s, input.child, input.parent);
    } else {
      IssueInv(s, Control.Request(input));
    }
  }

  lemma SetBeatInv(s: Net, m: Message)
    requires Inv(s) && m.command == HeartBeat && m.id == -1
    ensures Inv(s.(tree := Broadcast(s.tree, m)))
  {
    hide OrderInv, IssuedInv, CreateInv, BornInv, PendingInv, ViewOf, Unique, DownOk, UpOk, NodesOk;
    BroadcastViews(s.tree, m, s.ctl.nodeIds);
    assert forall t :: t != -1 ==> For([m], t) == [];
    SameViews(s, Broadcast(s.tree, m));
  }

  /** The controller makes a node itself. */
  lemma LocalInv(s: Net, c: int)
    requires Inv(s) && c !in s.ctl.nodeIds && c !in s.parentOf
    ensures Inv(s.(tree := Append(s.tree, c), ctl := s.ctl.(nodeIds := s.ctl.nodeIds + {c}),
                   parentOf := s.parentOf[c := -1]))
  {
    hide OrderInv, IssuedInv, CreateInv, BornInv, PendingInv, ViewOf, Unique, DownOk, UpOk, NodesOk;
    AppendViews(s.tree, c, s.ctl.nodeIds);
    var r := s.(tree := Append(s.tree, c), ctl := s.ctl.(nodeIds := s.ctl.nodeIds + {c}),
                parentOf := s.parentOf[c := -1]);
    DownOkMonotone(r.tree, s.ctl.nodeIds, r.ctl.nodeIds);
    hide TreeOk;
    LocalOrder(s, r, c);
    LocalBorn(s, r, c);
    FewerPending(s, r);
  }

  ghost predicate Grown(s: Net, r: Net, c: int) {
    && r == s.(tree := r.tree, ctl := s.ctl.(nodeIds := s.ctl.nodeIds + {c}), parentOf := s.parentOf[c := -1])
    && Ids(r.tree) == Ids(s.tree) + {c} && c !in Ids(s.tree) && c !in s.parentOf && c != -1 && c !in s.ctl.nodeIds
    && ViewOf(r.tree, c) == View([], [], [])
    && forall t :: t in Ids(s.tree) ==> ViewOf(r.tree, t) == ViewOf(s.tree, t)
  }

  lemma LocalOrder(s: Net, r: Net, c: int)
    requires OrderInv(s) && Grown(s, r, c)
    ensures OrderInv(r)
  {
    hide ViewOf;
    forall t | t in Ids(r.tree) ensures InOrder(r, t) {
      assert t != c ==> InOrder(s, t);
      assert Requests([]) + [] == [] && Replies([]) == [];
    }
  }

  lemma LocalBorn(s: Net, r: Net, c: int)
    requires TreeInv(s) && IssuedInv(s) && CreateInv(s) && BornInv(s) && Grown(s, r, c)
    ensures IssuedInv(r) && CreateInv(r) && BornInv(r)
  {
    hide ViewOf, Count, TreeOk, Requests;
    forall x | x in r.parentOf ensures Born(r, x) {
      assert x != c ==> Born(s, x) && s.parentOf[x] in s.ctl.nodeIds;
    }
    forall x ensures x in r.parentOf ==> r.parentOf[x] in r.ctl.nodeIds {
      assert x in s.parentOf ==> s.parentOf[x] in s.ctl.nodeIds;
    }
  }

  /** What broadcasting one request changes; child is the id that a create adds to the history. */
  ghost predicate Issued(s: Net, r: Net, m: Message) {
    && r.tree == Broadcast(s.tree, m) && r.answers == s.answers
    && r.ctl == s.ctl.(pending := s.ctl.pending + [m])
    && r.issued == s.issued[m.id := At(s.issued, m.id) + [m]]
    && r.parentOf == (if m.command == Create then s.parentOf[m.data := m.id] else s.parentOf)
    && IsRequest(m) && m.id in s.ctl.nodeIds
    && (m.command == Create ==> m.id != -1 && m.data !in s.parentOf && m.data !in s.ctl.nodeIds)
  }

  lemma IssueInv(s: Net, m: Message)
    requires Inv(s) && m.command != Create && IsRequest(m) && m.id in s.ctl.nodeIds
    ensures Inv(Issue(s.(ctl := s.ctl.(pending := s.ctl.pending + [m])), m))
  {
    hide TreeInv, OrderInv, IssuedInv, CreateInv, BornInv, PendingInv;
    IssuedKeeps(s, Issue(s.(ctl := s.ctl.(pending := s.ctl.pending + [m])), m), m);
  }

  lemma IssueCreateInv(s: Net, c: int, p: int)
    requires Inv(s) && c !in s.ctl.nodeIds && c !in s.parentOf && p in s.ctl.nodeIds && p != -1
    ensures Inv(OnEnter(s, Control.CreateNode(c, p)))
  {
    hide TreeInv, OrderInv, IssuedInv, CreateInv, BornInv, PendingInv;
    IssuedKeeps(s, OnEnter(s, Control.CreateNode(c, p)), Message(Create, p, c, ""));
  }

  lemma IssuedKeeps(s: Net, r: Net, m: Message)
    requires Inv(s) && Issued(s, r, m)
    ensures Inv(r)
  {
    hide OrderInv, IssuedInv, CreateInv, BornInv, PendingInv, ViewOf, Unique, DownOk, UpOk, NodesOk, Count;
    BroadcastViews(s.tree, m, s.ctl.nodeIds);
    hide TreeOk, Broadcast;
    IssuedOrder(s, r, m);
    IssuedOutstanding(s, r, m);
    IssuedCreates(s, r, m);
    IssuedBorn(s, r, m);
    IssuedPending(s, r, m);
  }

  lemma IssuedOrder(s: Net, r: Net, m: Message)
    requires OrderInv(s) && TreeInv(s) && Issued(s, r, m) && Ids(r.tree) == Ids(s.tree)
    requires forall t :: t in Ids(s.tree) ==>
      ViewOf(r.tree, t) == ViewOf(s.tree, t).(down := ViewOf(s.tree, t).down + For([m], t))
    ensures OrderInv(r)
  {
    hide ViewOf, InOrder, TreeOk, Broadcast, For;
    forall t | t in Ids(r.tree) ensures InOrder(r, t) {
      IssuedInOrder(s, r, m, t);
    }
  }

  lemma IssuedInOrder(s: Net, r: Net, m: Message, t: int)
    requires InOrder(s, t) && Issued(s, r, m)
    requires ViewOf(r.tree, t) == ViewOf(s.tree, t).(down := ViewOf(s.tree, t).down + For([m], t))
    ensures InOrder(r, t)
  {
    hide ViewOf, Requests, Replies, Broadcast;
    var v := ViewOf(s.tree, t);
    assert For([m], t) == if t == m.id then [m] else [];
    assert Requests(v.log) + (v.down + [m]) == (Requests(v.log) + v.down) + [m];
    assert v.down + [] == v.down;
  }

  /** There are never more answers than commands. */
  lemma AnswersFit(s: Net, t: int)
    requires OrderInv(s)
    ensures t != -1 ==> |At(s.answers, t)| <= |At(s.issued, t)|
    ensures -1 !in Ids(s.tree) ==> At(s.answers, -1) == []
  {
    hide ViewOf;
    if t in Ids(s.tree) {
      assert InOrder(s, t);
    }
  }

  lemma IssuedOutstanding(s: Net, r: Net, m: Message)
    requires OrderInv(s) && TreeInv(s) && Issued(s, r, m)
    ensures forall t :: Outstanding(r, t) == Outstanding(s, t) + if t == m.id then [m] else []
  {
    hide ViewOf, TreeOk, Broadcast;
    AnswersFit(s, m.id);
    AnswersFit(s, -1);
    hide OrderInv;
  }

  lemma IssuedCreates(s: Net, r: Net, m: Message)
    requires TreeInv(s) && IssuedInv(s) && CreateInv(s) && Issued(s, r, m)
    ensures IssuedInv(r) && CreateInv(r)
  {
    hide CreateInv, Broadcast, TreeOk;
    IssuedCounted(s, r, m);
    forall t, x | x in At(r.issued, t) ensures x.id == t && IsRequest(x) {
      assert x in At(s.issued, t) || (x == m && t == m.id);
    }
  }

  lemma IssuedCounted(s: Net, r: Net, m: Message)
    requires TreeInv(s) && CreateInv(s) && Issued(s, r, m)
    ensures CreateInv(r)
  {
    hide TreeOk, Broadcast;
    forall c, t | t != -1
      ensures Count(At(r.issued, t), NewChild(c)) == if c in r.parentOf && r.parentOf[c] == t then 1 else 0
    {
      CountConcat(At(s.issued, t), [m], NewChild(c));
    }
    forall c | c in r.parentOf ensures r.parentOf[c] in r.ctl.nodeIds {
      assert c in s.parentOf ==> s.parentOf[c] in s.ctl.nodeIds;
    }
  }

  lemma IssuedBorn(s: Net, r: Net, m: Message)
    requires TreeInv(s) && OrderInv(s) && CreateInv(s) && BornInv(s) && Issued(s, r, m) && Ids(r.tree) == Ids(s.tree)
    requires forall t :: t in Ids(s.tree) ==> ViewOf(r.tree, t).log == ViewOf(s.tree, t).log
    requires forall t :: Outstanding(r, t) == Outstanding(s, t) + if t == m.id then [m] else []
    ensures BornInv(r)
  {
    hide TreeOk, Broadcast, ViewOf, Outstanding, OrderInv, Count, Requests;
    forall c | c in r.parentOf ensures Born(r, c) {
      IssuedCounts(s, r, m, r.parentOf[c], NewChild(c));
      if c in s.parentOf {
        assert Born(s, c) && s.parentOf[c] in s.ctl.nodeIds;
      } else {
        NotYetAsked(s, c, m.id);
      }
    }
  }

  lemma IssuedCounts(s: Net, r: Net, m: Message, t: int, k: Key)
    requires Issued(s, r, m) && Outstanding(r, t) == Outstanding(s, t) + if t == m.id then [m] else []
    ensures var more := if t == m.id && Fits(m, k) then 1 else 0;
      && Count(At(r.issued, t), k) == Count(At(s.issued, t), k) + more
      && Count(Outstanding(r, t), k) == Count(Outstanding(s, t), k) + more
  {
    hide Outstanding, Broadcast;
    CountConcat(At(s.issued, t), [m], k);
    CountConcat(Outstanding(s, t), [m], k);
    assert Outstanding(s, t) + [] == Outstanding(s, t);
  }

  /** A child that was never asked for occurs in no command to p. */
  lemma NotYetAsked(s: Net, c: int, p: int)
    requires OrderInv(s) && CreateInv(s) && c !in s.parentOf && p in Ids(s.tree) && p != -1
    ensures Count(At(s.issued, p), NewChild(c)) == 0 && Count(Outstanding(s, p), NewChild(c)) == 0
    ensures Count(Requests(ViewOf(s.tree, p).log), NewChild(c)) == 0
  {
    hide ViewOf, Requests, Replies;
    assert InOrder(s, p);
    CountConcat(Requests(ViewOf(s.tree, p).log), ViewOf(s.tree, p).down, NewChild(c));
    OutstandingCount(s, p, NewChild(c));
    hide Count, Outstanding, OrderInv;
  }

  lemma IssuedPending(s: Net, r: Net, m: Message)
    requires PendingInv(s) && Issued(s, r, m)
    ensures PendingInv(r)
  {
    hide Broadcast;
  }
}
