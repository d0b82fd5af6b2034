/** The process tree of Lab 5 with its links. Every link is a lossless queue in each direction, so the
    tree carries all messages in flight; a node's first child and next sibling make it a Forest. */
module Tree {
  import opened Messages
  import Nodes

  /** A reply on its way up. The sender is history: no step looks at it. */
  datatype Reply = Reply(from: int, msg: Message)

  /** A command that a node executed and its reply: history as well. */
  datatype Exec = Exec(request: Message, reply: Message)

  /** A node with the two queues of the link to its parent. */
  datatype Node = Node(id: int, dict: map<string, int>, beat: int,
                       down: seq<Message>, up: seq<Reply>, log: seq<Exec>)

  datatype Forest = Nil | Tree(node: Node, kids: Forest, rest: Forest)

  function Ids(f: Forest): set<int> {
    match f
    case Nil => {}
    case Tree(x, kids, rest) => {x.id} + Ids(kids) + Ids(rest)
  }

  /** No id occurs twice. */
  ghost predicate Unique(f: Forest) {
    match f
    case Nil => true
    case Tree(x, kids, rest) =>
      && Unique(kids) && Unique(rest)
      && x.id !in Ids(kids) && x.id !in Ids(rest) && Ids(kids) !! Ids(rest)
  }

  function NewNode(id: int): Node {
    Node(id, map[], 0, [], [], [])
  }

  // ----- steps

  /** A new last child (children_.push_back). */
  function Append(f: Forest, id: int): Forest {
    match f
    case Nil => Tree(NewNode(id), Nil, Nil)
    case Tree(_, _, rest) => f.(rest := Append(rest, id))
  }

  /** Sends to every node of one list of children. */
  function Broadcast(f: Forest, m: Message): Forest {
    match f
    case Nil => Nil
    case Tree(x, kids, rest) => Tree(x.(down := x.down + [m]), kids, Broadcast(rest, m))
  }

  function Tagged(id: int, replies: seq<Message>): seq<Reply> {
    seq(|replies|, i requires 0 <= i < |replies| => Reply(id, replies[i]))
  }

  /** Node x takes one message from its parent's link. */
  function Receive(x: Node, kids: Forest, pid: int): (Node, Forest)
    requires x.down != []
  {
    var m := x.down[0];
    var e := Nodes.OnParent(x.id, x.dict, x.beat, m, pid);
    (Node(x.id, e.dict, e.beat, x.down[1..], x.up + Tagged(x.id, e.replies),
          x.log + if e.replies != [] then [Exec(m, e.replies[0])] else []),
     if e.child.Some? then Append(kids, e.child.value) else if e.forward then Broadcast(kids, m) else kids)
  }

  /** Whether node n has a message from its parent waiting. */
  predicate Waiting(f: Forest, n: int) {
    match f
    case Nil => false
    case Tree(x, kids, rest) =>
      if n == x.id then x.down != [] else if n in Ids(kids) then Waiting(kids, n) else Waiting(rest, n)
  }

  function Deliver(f: Forest, n: int, pid: int): Forest
    requires Waiting(f, n)
  {
    var Tree(x, kids, rest) := f;
    if n == x.id then var (y, kids') := Receive(x, kids, pid); Tree(y, kids', rest)
    else if n in Ids(kids) then f.(kids := Deliver(kids, n, pid))
    else f.(rest := Deliver(rest, n, pid))
  }

  /** The parent of n takes one message from n and passes it on to its own parent; what a top node
      sends comes out. */
  function Relay(f: Forest, n: int): (Forest, seq<Reply>) {
    match f
    case Nil => (Nil, [])
    case Tree(x, kids, rest) =>
      if n == x.id then
        if x.up == [] then (f, []) else (f.(node := x.(up := x.up[1..])), [x.up[0]])
      else if n in Ids(kids) then
        var (kids', out) := Relay(kids, n);
        (Tree(x.(up := x.up + out), kids', rest), [])
      else
        var (rest', out) := Relay(rest, n);
        (f.(rest := rest'), out)
  }

  /** The heartbeat period of node n; 0 is none. */
  function BeatOf(f: Forest, n: int): int {
    match f
    case Nil => 0
    case Tree(x, kids, rest) =>
      if n == x.id then x.beat else if n in Ids(kids) then BeatOf(kids, n) else BeatOf(rest, n)
  }

  /** Node n sends a heartbeat. */
  function Beat(f: Forest, n: int): Forest {
    match f
    case Nil => Nil
    case Tree(x, kids, rest) =>
      if n == x.id then f.(node := x.(up := x.up + [Reply(n, Message(HeartBeat, n, -1, ""))]))
      else if n in Ids(kids) then f.(kids := Beat(kids, n))
      else f.(rest := Beat(rest, n))
  }

  // ----- the tree seen from one node

  /** The commands of a queue addressed to t. */
  function For(q: seq<Message>, t: int): seq<Message> {
    if q == [] then [] else (if q[0].id == t then [q[0]] else []) + For(q[1..], t)
  }

  /** The replies of a queue sent by t, heartbeats aside. */
  function From(q: seq<Reply>, t: int): seq<Message> {
    if q == [] then []
    else (if q[0].from == t && q[0].msg.command != HeartBeat then [q[0].msg] else []) + From(q[1..], t)
  }

  /** What t executed, what is on its way to t (next one first), and what is on its way from t. */
  datatype View = View(log: seq<Exec>, down: seq<Message>, up: seq<Message>)

  function ViewOf(f: Forest, t: int): View {
    match f
    case Nil => View([], [], [])
    case Tree(x, kids, rest) =>
      if t == x.id then View(x.log, For(x.down, t), From(x.up, t))
      else if t in Ids(kids) then
        var v := ViewOf(kids, t);
        View(v.log, v.down + For(x.down, t), From(x.up, t) + v.up)
      else ViewOf(rest, t)
  }

  lemma {:induction false} ForConcat(a: seq<Message>, b: seq<Message>, t: int)
    ensures For(a + b, t) == For(a, t) + For(b, t)
    decreases |a|
  {
    if a == [] {
      assert a + b == b;
    } else {
      assert (a + b)[1..] == a[1..] + b && (a + b)[0] == a[0];
      ForConcat(a[1..], b, t);
      var first := if a[0].id == t then [a[0]] else [];
      assert For(a + b, t) == first + (For(a[1..], t) + For(b, t));
    }
  }

  lemma {:induction false} FromConcat(a: seq<Reply>, b: seq<Reply>, t: int)
    ensures From(a + b, t) == From(a, t) + From(b, t)
    decreases |a|
  {
    if a == [] {
      assert a + b == b;
    } else {
      assert (a + b)[1..] == a[1..] + b && (a + b)[0] == a[0];
      FromConcat(a[1..], b, t);
      var first := if a[0].from == t && a[0].msg.command != HeartBeat then [a[0].msg] else [];
      assert From(a + b, t) == first + (From(a[1..], t) + From(b, t));
    }
  }

  // ----- what every queue holds

  /** Every message going down is a command to a known id, or a heartbeat setting. */
  ghost predicate DownOk(f: Forest, known: set<int>) {
    match f
    case Nil => true
    case Tree(x, kids, rest) =>
      && (forall m :: m in x.down ==> Downward(m, known))
      && DownOk(kids, known) && DownOk(rest, known)
  }

  predicate Downward(m: Message, known: set<int>) {
    if m.command == HeartBeat then m.id == -1 else IsRequest(m) && m.id in known
  }

  /** Every reply on the link of a node comes from that node or from below it. */
  ghost predicate UpOk(f: Forest) {
    match f
    case Nil => true
    case Tree(x, kids, rest) =>
      && (forall r :: r in x.up ==> r.from == x.id || r.from in Ids(kids))
      && UpOk(kids) && UpOk(rest)
  }

  function Requests(log: seq<Exec>): (r: seq<Message>)
    ensures |r| == |log|
    ensures forall i :: 0 <= i < |log| ==> r[i] == log[i].request
  {
    seq(|log|, i requires 0 <= i < |log| => log[i].request)
  }

  function Replies(log: seq<Exec>): (r: seq<Message>)
    ensures |r| == |log|
    ensures forall i :: 0 <= i < |log| ==> r[i] == log[i].reply
  {
    seq(|log|, i requires 0 <= i < |log| => log[i].reply)
  }

  /** The node executed only commands addressed to it, answered each one rightly, and its dictionary
      holds the last value added for every key. */
  ghost predicate NodeOk(x: Node) {
    && Nodes.DictIs(x.dict, Requests(x.log))
    && LogOk(x.id, x.log)
  }

  ghost predicate LogOk(id: int, log: seq<Exec>) {
    forall k :: 0 <= k < |log| ==>
      && log[k].request.id == id && IsRequest(log[k].request)
      && Nodes.RightReply(id, Requests(log)[..k], log[k].request, log[k].reply)
  }

  ghost predicate NodesOk(f: Forest) {
    match f
    case Nil => true
    case Tree(x, kids, rest) => NodeOk(x) && NodesOk(kids) && NodesOk(rest)
  }

  /** A tree with its queues in order. */
  ghost predicate TreeOk(f: Forest, known: set<int>) {
    Unique(f) && DownOk(f, known) && UpOk(f) && NodesOk(f)
  }

  // ----- what each step changes in the views

  lemma {:induction false} DownOkMonotone(f: Forest, known: set<int>, more: set<int>)
    requires DownOk(f, known) && known <= more
    ensures DownOk(f, more)
  {
    if f.Tree? {
      DownOkMonotone(f.kids, known, more);
      DownOkMonotone(f.rest, known, more);
    }
  }

  lemma {:induction false} BroadcastViews(f: Forest, m: Message, known: set<int>)
    requires TreeOk(f, known) && Downward(m, known)
    ensures var g := Broadcast(f, m);
      && TreeOk(g, known) && Ids(g) == Ids(f)
      && forall t :: t in Ids(f) ==>
           ViewOf(g, t) == ViewOf(f, t).(down := ViewOf(f, t).down + For([m], t))
  {
    if f.Tree? {
      BroadcastViews(f.rest, m, known);
      BroadcastOk(f, Broadcast(f.rest, m), m, known);
      hide TreeOk, For;
      forall t | t in Ids(f)
        ensures ViewOf(Broadcast(f, m), t) == ViewOf(f, t).(down := ViewOf(f, t).down + For([m], t))
      {
        ForConcat(f.node.down, [m], t);
        if t != f.node.id && t in Ids(f.kids) {
          var down, q := ViewOf(f.kids, t).down, For(f.node.down, t);
          assert down + (q + For([m], t)) == (down + q) + For([m], t);
        }
      }
    }
  }

  lemma BroadcastOk(f: Forest, rest': Forest, m: Message, known: set<int>)
    requires TreeOk(f, known) && f.Tree? && TreeOk(rest', known) && Ids(rest') == Ids(f.rest) && Downward(m, known)
    ensures TreeOk(Tree(f.node.(down := f.node.down + [m]), f.kids, rest'), known)
  {
    hide NodeOk;
    var x := f.node.(down := f.node.down + [m]);
    assert NodeOk(x) by { SameLog(f.node, x); }
  }

  lemma SameLog(x: Node, y: Node)
    requires NodeOk(x) && y.log == x.log && y.dict == x.dict && y.id == x.id
    ensures NodeOk(y)
  {
  }

  lemma {:induction false} AppendViews(f: Forest, id: int, known: set<int>)
    requires TreeOk(f, known) && id !in Ids(f)
    ensures var g := Append(f, id);
      && TreeOk(g, known) && Ids(g) == Ids(f) + {id}
      && ViewOf(g, id) == View([], [], [])
      && forall t :: t in Ids(f) ==> ViewOf(g, t) == ViewOf(f, t)
  {
    if f.Tree? {
      AppendViews(f.rest, id, known);
    } else {
      assert Requests([]) == [];
    }
  }

  // ----- delivery of a message from the parent

  lemma {:induction false} ForNone(q: seq<Message>, t: int, known: set<int>)
    requires (forall m :: m in q ==> Downward(m, known)) && t !in known && t != -1
    ensures For(q, t) == []
    decreases |q|
  {
    if q != [] {
      assert q[0] in q;
      ForNone(q[1..], t, known);
    }
  }

  lemma {:induction false} FromNone(q: seq<Reply>, t: int)
    requires forall r :: r in q ==> r.from != t
    ensures From(q, t) == []
    decreases |q|
  {
    if q != [] {
      assert q[0] in q;
      FromNone(q[1..], t);
    }
  }

  /** The message that node n takes next. */
  function Head(f: Forest, n: int): Message
    requires Waiting(f, n)
  {
    var Tree(x, kids, rest) := f;
    if n == x.id then x.down[0] else if n in Ids(kids) then Head(kids, n) else Head(rest, n)
  }

  /** The reply that node n gives to that message if it is addressed to n. */
  function HeadReply(f: Forest, n: int, pid: int): seq<Message>
    requires Waiting(f, n)
  {
    var Tree(x, kids, rest) := f;
    if n == x.id then Nodes.OnParent(x.id, x.dict, x.beat, x.down[0], pid).replies
    else if n in Ids(kids) then HeadReply(kids, n, pid) else HeadReply(rest, n, pid)
  }

  lemma {:induction false} HeadOk(f: Forest, n: int, known: set<int>)
    requires DownOk(f, known) && Waiting(f, n)
    ensures Downward(Head(f, n), known)
  {
    if n == f.node.id {
      assert f.node.down[0] in f.node.down;
    } else if n in Ids(f.kids) {
      HeadOk(f.kids, n, known);
    } else {
      HeadOk(f.rest, n, known);
    }
  }

  /** Passing a message on changes no view: it stays on its way to everybody below. */
  ghost predicate Unchanged(f: Forest, g: Forest) {
    Ids(g) == Ids(f) && forall t :: t in Ids(f) ==> ViewOf(g, t) == ViewOf(f, t)
  }

  lemma KidsUnchanged(f: Forest, kids': Forest, known: set<int>)
    requires TreeOk(f, known) && f.Tree? && TreeOk(kids', known) && Unchanged(f.kids, kids')
    ensures TreeOk(f.(kids := kids'), known) && Unchanged(f, f.(kids := kids'))
  {
    hide NodeOk, For, From;
  }

  lemma RestUnchanged(f: Forest, rest': Forest, known: set<int>)
    requires TreeOk(f, known) && f.Tree? && TreeOk(rest', known) && Unchanged(f.rest, rest')
    ensures TreeOk(f.(rest := rest'), known) && Unchanged(f, f.(rest := rest'))
  {
    hide NodeOk, For, From;
  }

  /** The parts of a tree in order are in order. */
  lemma PartsOk(f: Forest, known: set<int>)
    requires TreeOk(f, known) && f.Tree?
    ensures TreeOk(f.kids, known) && TreeOk(f.rest, known)
    ensures Ids(f.kids) <= Ids(f) && Ids(f.rest) <= Ids(f)
  {
  }

  lemma TailOk(x: Node, known: set<int>)
    requires x.down != [] && forall m :: m in x.down ==> Downward(m, known)
    ensures forall m :: m in x.down[1..] ==> Downward(m, known)
    ensures Downward(x.down[0], known)
  {
    assert x.down[0] in x.down;
  }

  lemma ForwardHere(f: Forest, pid: int, known: set<int>)
    requires TreeOk(f, known) && -1 !in Ids(f) && f.Tree? && f.node.down != [] && f.node.down[0].id != f.node.id
    ensures var g := Deliver(f, f.node.id, pid);
      TreeOk(g, known) && Unchanged(f, g)
  {
    var Tree(x, kids, rest) := f;
    var m := x.down[0];
    TailOk(x, known);
    BroadcastViews(kids, m, known);
    var g := Deliver(f, x.id, pid);
    assert g.kids == Broadcast(kids, m) && g.rest == rest;
    assert g.node.log == x.log && g.node.up == x.up && g.node.dict == x.dict && g.node.id == x.id;
    forall t | t in Ids(f) ensures ViewOf(g, t) == ViewOf(f, t) {
      if t in Ids(kids) {
        ForwardedPath(ViewOf(kids, t).down, m, x.down, t);
      }
    }
  }

  lemma ForwardedPath(below: seq<Message>, m: Message, q: seq<Message>, t: int)
    requires q != [] && q[0] == m
    ensures (below + For([m], t)) + For(q[1..], t) == below + For(q, t)
  {
    assert For(q, t) == For([m], t) + For(q[1..], t);
  }

  lemma {:induction false} ForwardViews(f: Forest, n: int, pid: int, known: set<int>)
    requires TreeOk(f, known) && -1 !in Ids(f) && Waiting(f, n) && Head(f, n).id != n
    ensures TreeOk(Deliver(f, n, pid), known) && Unchanged(f, Deliver(f, n, pid))
  {
    hide Unchanged, TreeOk, Receive;
    PartsOk(f, known);
    if n == f.node.id {
      ForwardHere(f, pid, known);
    } else if n in Ids(f.kids) {
      ForwardViews(f.kids, n, pid, known);
      KidsUnchanged(f, Deliver(f.kids, n, pid), known);
    } else {
      ForwardViews(f.rest, n, pid, known);
      RestUnchanged(f, Deliver(f.rest, n, pid), known);
    }
  }

  /** Node n executed m with reply r; a Create also put a new node into the tree. */
  ghost predicate Executed(f: Forest, g: Forest, n: int, m: Message, r: Message)
    requires n in Ids(f)
  {
    && Ids(g) == Ids(f) + (if m.command == Create then {m.data} else {})
    && ViewOf(f, n).down == [m] + ViewOf(g, n).down
    && ViewOf(g, n).log == ViewOf(f, n).log + [Exec(m, r)]
    && ViewOf(g, n).up == ViewOf(f, n).up + [r]
    && (forall t :: t in Ids(f) && t != n ==> ViewOf(g, t) == ViewOf(f, t))
    && (m.command == Create ==> ViewOf(g, m.data) == View([], [], []))
  }

  lemma NodeExecutes(x: Node, pid: int)
    requires NodeOk(x) && x.down != [] && IsRequest(x.down[0]) && x.down[0].id == x.id
    ensures var e := Nodes.OnParent(x.id, x.dict, x.beat, x.down[0], pid);
      |e.replies| == 1 && !e.forward && e.replies[0].command != HeartBeat && NodeOk(Receive(x, Nil, pid).0)
  {
    var m, before := x.down[0], Requests(x.log);
    Nodes.ExecuteIsRight(x.id, x.dict, x.beat, before, m, pid);
    var y := Receive(x, Nil, pid).0;
    assert Requests(y.log) == before + [m];
    forall k | 0 <= k < |y.log|
      ensures y.log[k].request.id == x.id && IsRequest(y.log[k].request)
      ensures Nodes.RightReply(x.id, Requests(y.log)[..k], y.log[k].request, y.log[k].reply)
    {
      assert Requests(y.log)[..k] == before[..k];
    }
  }

  /** A command that its addressee may execute next. */
  ghost predicate Executable(f: Forest, m: Message, known: set<int>) {
    IsRequest(m) && (m.command == Create ==> m.data !in Ids(f) && m.data !in known && m.data != -1)
  }

  function Born(m: Message): set<int> {
    if m.command == Create then {m.data} else {}
  }

  /** The pieces of a node and its children after it executed the command at its head. */
  lemma ExecutePieces(f: Forest, pid: int, known: set<int>)
    requires TreeOk(f, known) && f.Tree? && f.node.down != []
    requires f.node.down[0].id == f.node.id && Executable(f, f.node.down[0], known)
    ensures var (x, m, g, rs) := (f.node, f.node.down[0], Deliver(f, f.node.id, pid), HeadReply(f, f.node.id, pid));
      && |rs| == 1 && rs[0].command != HeartBeat
      && g.Tree? && g.rest == f.rest && NodeOk(g.node) && g.node.id == x.id
      && g.node.down == x.down[1..] && g.node.up == x.up + [Reply(x.id, rs[0])] && g.node.log == x.log + [Exec(m, rs[0])]
      && TreeOk(g.kids, known) && Ids(g.kids) == Ids(f.kids) + Born(m)
      && (forall t :: t in Ids(f.kids) ==> ViewOf(g.kids, t) == ViewOf(f.kids, t))
      && (m.command == Create ==> ViewOf(g.kids, m.data) == View([], [], []))
  {
    var Tree(x, kids, rest) := f;
    var m := x.down[0];
    NodeExecutes(x, pid);
    var e := Nodes.OnParent(x.id, x.dict, x.beat, m, pid);
    assert Tagged(x.id, e.replies) == [Reply(x.id, e.replies[0])];
    hide NodeOk, Unique, DownOk, UpOk, NodesOk;
    if m.command == Create {
      AppendViews(kids, m.data, known);
    }
  }

  lemma ExecuteHere(f: Forest, pid: int, known: set<int>)
    requires TreeOk(f, known) && -1 !in Ids(f) && f.Tree? && f.node.down != []
    requires f.node.down[0].id == f.node.id && Executable(f, f.node.down[0], known)
    ensures |HeadReply(f, f.node.id, pid)| == 1
    ensures TreeOk(Deliver(f, f.node.id, pid), known)
    ensures Executed(f, Deliver(f, f.node.id, pid), f.node.id, f.node.down[0], HeadReply(f, f.node.id, pid)[0])
  {
    var m, g := f.node.down[0], Deliver(f, f.node.id, pid);
    var r := HeadReply(f, f.node.id, pid)[0];
    ExecutePieces(f, pid, known);
    TailOk(f.node, known);
    PiecesOk(f, g, m, r, known);
    PiecesViews(f, g, m, r, known);
  }

  /** g is f after its first node executed m with reply r. */
  ghost predicate Pieces(f: Forest, g: Forest, m: Message, r: Message) {
    && f.Tree? && f.node.down != [] && f.node.down[0] == m && m.id == f.node.id && r.command != HeartBeat
    && g.Tree? && g.rest == f.rest && g.node.id == f.node.id
    && g.node.down == f.node.down[1..] && g.node.up == f.node.up + [Reply(f.node.id, r)]
    && g.node.log == f.node.log + [Exec(m, r)]
    && Ids(g.kids) == Ids(f.kids) + Born(m)
    && (forall t :: t in Ids(f.kids) ==> ViewOf(g.kids, t) == ViewOf(f.kids, t))
    && (m.command == Create ==> ViewOf(g.kids, m.data) == View([], [], []))
  }

  lemma PiecesOk(f: Forest, g: Forest, m: Message, r: Message, known: set<int>)
    requires TreeOk(f, known) && Pieces(f, g, m, r) && Executable(f, m, known)
    requires NodeOk(g.node) && TreeOk(g.kids, known) && forall x :: x in g.node.down ==> Downward(x, known)
    ensures TreeOk(g, known)
  {
    hide NodeOk, ViewOf;
  }

  lemma PiecesViews(f: Forest, g: Forest, m: Message, r: Message, known: set<int>)
    requires TreeOk(f, known) && Pieces(f, g, m, r) && Executable(f, m, known)
    requires forall x :: x in g.node.down ==> Downward(x, known)
    ensures Executed(f, g, f.node.id, m, r)
  {
    hide NodeOk, NodesOk, DownOk, ViewOf, Unique;
    var x := f.node;
    forall t ensures From(g.node.up, t) == if t == x.id then From(x.up, t) + [r] else From(x.up, t) {
      FromConcat(x.up, [Reply(x.id, r)], t);
    }
    if m.command == Create {
      ForNone(g.node.down, m.data, known);
      FromNone(g.node.up, m.data);
    }
    hide UpOk;
    forall t ensures For(x.down, t) == if t == x.id then [m] + For(g.node.down, t) else For(g.node.down, t) {
    }
    PiecesPaths(f, g, m, r);
  }

  lemma PiecesPaths(f: Forest, g: Forest, m: Message, r: Message)
    requires Unique(f) && Pieces(f, g, m, r) && (m.command == Create ==> m.data !in Ids(f))
    requires forall t :: From(g.node.up, t) == if t == f.node.id then From(f.node.up, t) + [r] else From(f.node.up, t)
    requires forall t :: (For(f.node.down, t) ==
                          if t == f.node.id then [m] + For(g.node.down, t) else For(g.node.down, t))
    requires m.command == Create ==> For(g.node.down, m.data) == [] && From(g.node.up, m.data) == []
    ensures Executed(f, g, f.node.id, m, r)
  {
    hide For, From;
  }

  /** The command at the head of the link of n, addressed to n, is executed there and nowhere else. */
  lemma {:induction false} ExecuteViews(f: Forest, n: int, pid: int, known: set<int>)
    requires TreeOk(f, known) && -1 !in Ids(f) && n in Ids(f) && Waiting(f, n)
    requires Head(f, n).id == n && Executable(f, Head(f, n), known)
    ensures |HeadReply(f, n, pid)| == 1 && TreeOk(Deliver(f, n, pid), known)
    ensures Executed(f, Deliver(f, n, pid), n, Head(f, n), HeadReply(f, n, pid)[0])
  {
    var Tree(x, kids, rest) := f;
    if n == x.id {
      ExecuteHere(f, pid, known);
    } else if n in Ids(kids) {
      ExecuteViews(kids, n, pid, known);
      ExecuteBelow(f, Deliver(kids, n, pid), n, Head(f, n), HeadReply(f, n, pid)[0], known);
    } else {
      ExecuteViews(rest, n, pid, known);
      ExecuteBeside(f, Deliver(rest, n, pid), n, Head(f, n), HeadReply(f, n, pid)[0], known);
    }
  }

  lemma ExecuteBelow(f: Forest, kids': Forest, n: int, m: Message, r: Message, known: set<int>)
    requires TreeOk(f, known) && f.Tree? && n in Ids(f.kids) && Executable(f, m, known)
    requires TreeOk(kids', known) && Executed(f.kids, kids', n, m, r)
    ensures TreeOk(f.(kids := kids'), known) && Executed(f, f.(kids := kids'), n, m, r)
  {
    hide NodeOk, ViewOf, For, From;
    KidsOk(f, kids', known);
    var x := f.node;
    if m.command == Create {
      ForNone(x.down, m.data, known);
      FromNone(x.up, m.data);
    }
    BelowViews(f, kids', n, m, r);
  }

  /** Children with the same ids, or with one new id, keep the tree in order. */
  lemma KidsOk(f: Forest, kids': Forest, known: set<int>)
    requires TreeOk(f, known) && f.Tree? && TreeOk(kids', known)
    requires Ids(f.kids) <= Ids(kids') && (Ids(kids') - Ids(f.kids)) !! Ids(f)
    ensures TreeOk(f.(kids := kids'), known)
  {
    hide NodeOk;
  }

  lemma BelowViews(f: Forest, kids': Forest, n: int, m: Message, r: Message)
    requires Unique(f) && f.Tree? && n in Ids(f.kids) && (m.command == Create ==> m.data !in Ids(f))
    requires Executed(f.kids, kids', n, m, r)
    requires m.command == Create ==> For(f.node.down, m.data) == [] && From(f.node.up, m.data) == []
    ensures Executed(f, f.(kids := kids'), n, m, r)
  {
    NotTheNode(f);
    hide For, From, Unique, ViewOf;
    var x, g := f.node, f.(kids := kids');
    forall t | t in Ids(f) && t != n ensures ViewOf(g, t) == ViewOf(f, t) {
      ViewParts(f, t);
      ViewParts(g, t);
    }
    BelowView(f, kids', n, m, r);
    if m.command == Create {
      ViewParts(g, m.data);
    }
  }

  lemma BelowView(f: Forest, kids': Forest, n: int, m: Message, r: Message)
    requires f.Tree? && n in Ids(f.kids) && n != f.node.id && Executed(f.kids, kids', n, m, r)
    ensures var g := f.(kids := kids');
      && ViewOf(f, n).down == [m] + ViewOf(g, n).down
      && ViewOf(g, n).log == ViewOf(f, n).log + [Exec(m, r)]
      && ViewOf(g, n).up == ViewOf(f, n).up + [r]
  {
    hide For, From, ViewOf;
    ViewParts(f, n);
    ViewParts(f.(kids := kids'), n);
    Associative([m], ViewOf(kids', n).down, For(f.node.down, n));
    Associative(From(f.node.up, n), ViewOf(f.kids, n).up, [r]);
  }

  /** A view, taken apart. */
  lemma ViewParts(f: Forest, t: int)
    requires f.Tree?
    ensures ViewOf(f, t) ==
      (if t == f.node.id then View(f.node.log, For(f.node.down, t), From(f.node.up, t))
       else if t in Ids(f.kids) then
         View(ViewOf(f.kids, t).log, ViewOf(f.kids, t).down + For(f.node.down, t), From(f.node.up, t) + ViewOf(f.kids, t).up)
       else ViewOf(f.rest, t))
  {
  }

  lemma NotTheNode(f: Forest)
    requires Unique(f) && f.Tree?
    ensures f.node.id !in Ids(f.kids) && f.node.id !in Ids(f.rest) && Ids(f.kids) !! Ids(f.rest)
  {
  }

  lemma ExecuteBeside(f: Forest, rest': Forest, n: int, m: Message, r: Message, known: set<int>)
    requires TreeOk(f, known) && f.Tree? && n in Ids(f.rest) && Executable(f, m, known)
    requires TreeOk(rest', known) && Executed(f.rest, rest', n, m, r)
    ensures TreeOk(f.(rest := rest'), known) && Executed(f, f.(rest := rest'), n, m, r)
  {
    hide NodeOk, For, From, ViewOf;
    RestOk(f, rest', known);
    hide UpOk, DownOk, NodesOk;
    BesideViews(f, rest', n, m, r);
  }

  lemma BesideViews(f: Forest, rest': Forest, n: int, m: Message, r: Message)
    requires Unique(f) && f.Tree? && n in Ids(f.rest) && (m.command == Create ==> m.data !in Ids(f))
    requires Executed(f.rest, rest', n, m, r)
    ensures Executed(f, f.(rest := rest'), n, m, r)
  {
    hide For, From, Unique;
    NotTheNode(f);
  }

  // ----- replies on their way up

  predicate Sending(f: Forest, n: int) {
    match f
    case Nil => false
    case Tree(x, kids, rest) =>
      if n == x.id then x.up != [] else if n in Ids(kids) then Sending(kids, n) else Sending(rest, n)
  }

  /** A relay takes at most one reply out of the tree, from the front of its sender's way up. */
  ghost predicate Relayed(f: Forest, g: Forest, out: seq<Reply>) {
    && Ids(g) == Ids(f) && |out| <= 1 && (forall r :: r in out ==> r.from in Ids(f))
    && forall t :: t in Ids(f) ==>
         && ViewOf(g, t).log == ViewOf(f, t).log && ViewOf(g, t).down == ViewOf(f, t).down
         && ViewOf(f, t).up == From(out, t) + ViewOf(g, t).up
  }

  lemma {:induction false} RelayViews(f: Forest, n: int, known: set<int>)
    requires TreeOk(f, known)
    ensures var (g, out) := Relay(f, n);
      TreeOk(g, known) && Relayed(f, g, out)
  {
    if f.Tree? {
      var Tree(x, kids, rest) := f;
      if n == x.id {
        RelayHere(f, known);
      } else if n in Ids(kids) {
        RelayViews(kids, n, known);
        var (kids', out) := Relay(kids, n);
        RelayBelow(f, kids', out, known);
      } else {
        RelayViews(rest, n, known);
        var (rest', out) := Relay(rest, n);
        RelayBeside(f, rest', out, known);
      }
    }
  }

  lemma RelayHere(f: Forest, known: set<int>)
    requires TreeOk(f, known) && f.Tree?
    ensures var (g, out) := Relay(f, f.node.id);
      TreeOk(g, known) && Relayed(f, g, out)
  {
    hide NodeOk;
    if f.node.up != [] {
      var out, tail := [f.node.up[0]], f.node.up[1..];
      assert f.node.up == out + tail && f.node.up[0] in f.node.up;
      UpOkTail(f, tail, known);
      RelayFirst(f, out, tail);
    } else {
      assert forall t :: From([], t) == [];
    }
  }

  lemma UpOkTail(f: Forest, tail: seq<Reply>, known: set<int>)
    requires TreeOk(f, known) && f.Tree? && forall r :: r in tail ==> r in f.node.up
    ensures TreeOk(f.(node := f.node.(up := tail)), known)
  {
  }

  lemma RelayFirst(f: Forest, out: seq<Reply>, tail: seq<Reply>)
    requires Unique(f) && f.Tree? && f.node.up == out + tail && |out| == 1
    requires out[0].from == f.node.id || out[0].from in Ids(f.kids)
    ensures Relayed(f, f.(node := f.node.(up := tail)), out)
  {
    forall t | t in Ids(f) ensures From(f.node.up, t) == From(out, t) + From(tail, t) {
      FromConcat(out, tail, t);
    }
    forall t | t in Ids(f.rest) ensures From(out, t) == [] {
      FromNone(out, t);
    }
    hide From;
    RelayFirstViews(f, out, tail);
  }

  lemma RelayFirstViews(f: Forest, out: seq<Reply>, tail: seq<Reply>)
    requires Unique(f) && f.Tree? && |out| == 1 && out[0].from in Ids(f)
    requires forall t :: t in Ids(f) ==> From(f.node.up, t) == From(out, t) + From(tail, t)
    requires forall t :: t in Ids(f.rest) ==> From(out, t) == []
    ensures Relayed(f, f.(node := f.node.(up := tail)), out)
  {
    NotTheNode(f);
    hide From, ViewOf, Unique;
    forall t | t in Ids(f) ensures PassedOn(f, f.(node := f.node.(up := tail)), out, t) {
      hide PassedOn;
      RelayFirstView(f, out, tail, t);
    }
  }

  /** What Relayed says of one node. */
  ghost predicate PassedOn(f: Forest, g: Forest, out: seq<Reply>, t: int) {
    && ViewOf(g, t).log == ViewOf(f, t).log && ViewOf(g, t).down == ViewOf(f, t).down
    && ViewOf(f, t).up == From(out, t) + ViewOf(g, t).up
  }

  lemma RelayFirstView(f: Forest, out: seq<Reply>, tail: seq<Reply>, t: int)
    requires f.Tree? && From(f.node.up, t) == From(out, t) + From(tail, t)
    requires t == f.node.id || t in Ids(f.kids) || From(out, t) == []
    ensures PassedOn(f, f.(node := f.node.(up := tail)), out, t)
  {
    hide From, For, ViewOf;
    ViewParts(f, t);
    ViewParts(f.(node := f.node.(up := tail)), t);
    Associative(From(out, t), From(tail, t), ViewOf(f.kids, t).up);
  }

  lemma Associative(a: seq<Message>, b: seq<Message>, c: seq<Message>)
    ensures a + (b + c) == (a + b) + c && a + [] == a && [] + a == a
  {
  }

  lemma RelayBelow(f: Forest, kids': Forest, out: seq<Reply>, known: set<int>)
    requires TreeOk(f, known) && f.Tree? && TreeOk(kids', known) && Relayed(f.kids, kids', out)
    ensures var g := Tree(f.node.(up := f.node.up + out), kids', f.rest);
      TreeOk(g, known) && Relayed(f, g, [])
  {
    hide NodeOk, ViewOf, From;
    KidsOk(f, kids', known);
    UpOkMore(f.(kids := kids'), out, known);
    BelowRelayed(f, kids', out);
  }

  lemma UpOkMore(f: Forest, out: seq<Reply>, known: set<int>)
    requires TreeOk(f, known) && f.Tree? && forall r :: r in out ==> r.from in Ids(f.kids)
    ensures TreeOk(f.(node := f.node.(up := f.node.up + out)), known)
  {
  }

  lemma BelowRelayed(f: Forest, kids': Forest, out: seq<Reply>)
    requires Unique(f) && f.Tree? && Relayed(f.kids, kids', out)
    ensures Relayed(f, Tree(f.node.(up := f.node.up + out), kids', f.rest), [])
  {
    hide ViewOf;
    NotTheNode(f);
    hide Unique;
    var x := f.node;
    forall t | t in Ids(f) ensures From(x.up + out, t) == From(x.up, t) + From(out, t) {
      FromConcat(x.up, out, t);
    }
    forall t | t !in Ids(f.kids) ensures From(out, t) == [] {
      FromNone(out, t);
    }
    assert forall t :: From([], t) == [];
    hide From;
    BelowRelayedViews(f, kids', out);
  }

  lemma BelowRelayedViews(f: Forest, kids': Forest, out: seq<Reply>)
    requires Unique(f) && f.Tree? && Relayed(f.kids, kids', out)
    requires forall t :: t in Ids(f) ==> From(f.node.up + out, t) == From(f.node.up, t) + From(out, t)
    requires forall t :: t !in Ids(f.kids) ==> From(out, t) == []
    requires forall t :: From([], t) == []
    ensures Relayed(f, Tree(f.node.(up := f.node.up + out), kids', f.rest), [])
  {
    NotTheNode(f);
    hide From, Unique, ViewOf;
    forall t | t in Ids(f) ensures PassedOn(f, Tree(f.node.(up := f.node.up + out), kids', f.rest), [], t) {
      assert t in Ids(f.kids) ==> PassedOn(f.kids, kids', out, t);
      hide PassedOn;
      BelowRelayedView(f, kids', out, t);
    }
  }

  lemma BelowRelayedView(f: Forest, kids': Forest, out: seq<Reply>, t: int)
    requires f.Tree? && f.node.id !in Ids(f.kids) && Ids(kids') == Ids(f.kids) && From([], t) == []
    requires t in Ids(f.kids) ==> PassedOn(f.kids, kids', out, t)
    requires From(f.node.up + out, t) == From(f.node.up, t) + From(out, t)
    requires t !in Ids(f.kids) ==> From(out, t) == []
    ensures PassedOn(f, Tree(f.node.(up := f.node.up + out), kids', f.rest), [], t)
  {
    hide From, For, ViewOf;
    ViewParts(f, t);
    ViewParts(Tree(f.node.(up := f.node.up + out), kids', f.rest), t);
    Associative(From(f.node.up, t), From(out, t), ViewOf(kids', t).up);
    Associative(From(f.node.up, t), [], []);
    Associative(ViewOf(f, t).up, [], []);
  }

  lemma RelayBeside(f: Forest, rest': Forest, out: seq<Reply>, known: set<int>)
    requires TreeOk(f, known) && f.Tree? && TreeOk(rest', known) && Relayed(f.rest, rest', out)
    ensures TreeOk(f.(rest := rest'), known) && Relayed(f, f.(rest := rest'), out)
  {
    hide NodeOk, For, ViewOf;
    NotTheNode(f);
    RestOk(f, rest', known);
    hide Unique, UpOk, DownOk, NodesOk;
    forall t | t !in Ids(f.rest) ensures From(out, t) == [] {
      FromNone(out, t);
    }
    hide From;
    BesideRelayedViews(f, rest', out);
  }

  lemma RestOk(f: Forest, rest': Forest, known: set<int>)
    requires TreeOk(f, known) && f.Tree? && TreeOk(rest', known)
    requires Ids(f.rest) <= Ids(rest') && (Ids(rest') - Ids(f.rest)) !! Ids(f)
    ensures TreeOk(f.(rest := rest'), known)
  {
    hide NodeOk;
  }

  lemma BesideRelayedViews(f: Forest, rest': Forest, out: seq<Reply>)
    requires Unique(f) && f.Tree? && Relayed(f.rest, rest', out)
    requires forall t :: t !in Ids(f.rest) ==> From(out, t) == []
    ensures Relayed(f, f.(rest := rest'), out)
  {
    hide For, From, Unique;
    NotTheNode(f);
  }

  lemma {:induction false} BeatViews(f: Forest, n: int, known: set<int>)
    requires TreeOk(f, known)
    ensures TreeOk(Beat(f, n), known) && Unchanged(f, Beat(f, n))
    decreases f, 1
  {
    if f.Tree? {
      BeatStep(f, n, known);
    } else {
      assert Unchanged(f, f);
    }
  }

  lemma {:induction false} BeatStep(f: Forest, n: int, known: set<int>)
    requires TreeOk(f, known) && f.Tree?
    ensures TreeOk(Beat(f, n), known) && Unchanged(f, Beat(f, n))
    decreases f, 0
  {
    hide Unchanged, TreeOk;
    PartsOk(f, known);
    if n == f.node.id {
      BeatHere(f, known);
    } else if n in Ids(f.kids) {
      BeatViews(f.kids, n, known);
      KidsUnchanged(f, Beat(f.kids, n), known);
    } else {
      BeatViews(f.rest, n, known);
      RestUnchanged(f, Beat(f.rest, n), known);
    }
  }

  lemma BeatHere(f: Forest, known: set<int>)
    requires TreeOk(f, known) && f.Tree?
    ensures TreeOk(Beat(f, f.node.id), known) && Unchanged(f, Beat(f, f.node.id))
  {
    var x := f.node;
    var beat := Reply(x.id, Message(HeartBeat, x.id, -1, ""));
    forall t ensures From(x.up + [beat], t) == From(x.up, t) {
      FromConcat(x.up, [beat], t);
    }
    hide From;
  }

  // ----- how much work is under way

  function Times(n: nat, cost: nat): nat {
    if n == 0 then 0 else cost + Times(n - 1, cost)
  }

  /** The most steps that one message sent to a list of children at this depth can lead to. */
  function BroadcastWork(f: Forest, depth: nat): nat {
    match f
    case Nil => 0
    case Tree(x, kids, rest) => 1 + depth + BroadcastWork(kids, depth + 1) + BroadcastWork(rest, depth)
  }

  /** The most steps that all messages under way can lead to, as long as no node is created. */
  function Work(f: Forest, depth: nat): nat {
    match f
    case Nil => 0
    case Tree(x, kids, rest) =>
      Times(|x.down|, 1 + depth + BroadcastWork(kids, depth + 1)) + Times(|x.up|, depth)
        + Work(kids, depth + 1) + Work(rest, depth)
  }

  lemma {:induction false} TimesAdd(a: nat, b: nat, cost: nat)
    ensures Times(a + b, cost) == Times(a, cost) + Times(b, cost)
    decreases a
  {
    if a > 0 {
      TimesAdd(a - 1, b, cost);
    }
  }

  lemma {:induction false} SendWork(f: Forest, m: Message, depth: nat)
    ensures Work(Broadcast(f, m), depth) == Work(f, depth) + BroadcastWork(f, depth)
    ensures BroadcastWork(Broadcast(f, m), depth) == BroadcastWork(f, depth)
  {
    if f.Tree? {
      SendWork(f.rest, m, depth);
      TimesAdd(|f.node.down|, 1, 1 + depth + BroadcastWork(f.kids, depth + 1));
    }
  }

  /** The work of one list of children, taken apart. */
  lemma WorkOf(f: Forest, depth: nat)
    requires f.Tree?
    ensures BroadcastWork(f, depth) == 1 + depth + BroadcastWork(f.kids, depth + 1) + BroadcastWork(f.rest, depth)
    ensures Work(f, depth) == Times(|f.node.down|, 1 + depth + BroadcastWork(f.kids, depth + 1))
      + Times(|f.node.up|, depth) + Work(f.kids, depth + 1) + Work(f.rest, depth)
  {
  }

  lemma KidsWork(f: Forest, kids': Forest, depth: nat)
    requires f.Tree? && BroadcastWork(kids', depth + 1) == BroadcastWork(f.kids, depth + 1)
    ensures BroadcastWork(f.(kids := kids'), depth) == BroadcastWork(f, depth)
    ensures Work(f.(kids := kids'), depth) - Work(f, depth) == Work(kids', depth + 1) - Work(f.kids, depth + 1)
  {
    hide Work, BroadcastWork, Times;
    WorkOf(f, depth);
    WorkOf(f.(kids := kids'), depth);
  }

  lemma RestWork(f: Forest, rest': Forest, depth: nat)
    requires f.Tree? && BroadcastWork(rest', depth) == BroadcastWork(f.rest, depth)
    ensures BroadcastWork(f.(rest := rest'), depth) == BroadcastWork(f, depth)
    ensures Work(f.(rest := rest'), depth) - Work(f, depth) == Work(rest', depth) - Work(f.rest, depth)
  {
    hide Work, BroadcastWork, Times;
    WorkOf(f, depth);
    WorkOf(f.(rest := rest'), depth);
  }

  /** Fewer messages down and more replies up. */
  lemma QueueWork(f: Forest, y: Node, depth: nat)
    requires f.Tree? && |y.down| <= |f.node.down| && |y.up| >= |f.node.up|
    ensures var g := f.(node := y);
      BroadcastWork(g, depth) == BroadcastWork(f, depth)
      && Work(g, depth) + Times(|f.node.down| - |y.down|, 1 + depth + BroadcastWork(f.kids, depth + 1))
           == Work(f, depth) + Times(|y.up| - |f.node.up|, depth)
  {
    hide Work, BroadcastWork, Times;
    WorkOf(f, depth);
    WorkOf(f.(node := y), depth);
    TimesAdd(|y.down|, |f.node.down| - |y.down|, 1 + depth + BroadcastWork(f.kids, depth + 1));
    TimesAdd(|f.node.up|, |y.up| - |f.node.up|, depth);
  }

  lemma TimesOnce(cost: nat)
    ensures Times(1, cost) == cost && Times(0, cost) == 0
  {
  }

  /** Delivering a message that creates no node leaves less work. */
  lemma {:induction false} DeliverWork(f: Forest, n: int, pid: int, depth: nat)
    requires Waiting(f, n) && (Head(f, n).command == Create ==> Head(f, n).id != n)
    ensures Work(Deliver(f, n, pid), depth) < Work(f, depth)
    ensures BroadcastWork(Deliver(f, n, pid), depth) == BroadcastWork(f, depth)
  {
    hide Work, BroadcastWork, Receive;
    if n == f.node.id {
      DeliverHereWork(f, pid, depth);
    } else if n in Ids(f.kids) {
      DeliverWork(f.kids, n, pid, depth + 1);
      KidsWork(f, Deliver(f.kids, n, pid), depth);
    } else {
      DeliverWork(f.rest, n, pid, depth);
      RestWork(f, Deliver(f.rest, n, pid), depth);
    }
  }

  lemma DeliverHereWork(f: Forest, pid: int, depth: nat)
    requires f.Tree? && f.node.down != [] && (f.node.down[0].command == Create ==> f.node.down[0].id != f.node.id)
    ensures var g := Deliver(f, f.node.id, pid);
      Work(g, depth) < Work(f, depth) && BroadcastWork(g, depth) == BroadcastWork(f, depth)
  {
    hide Work, BroadcastWork, Broadcast, Times;
    var Tree(x, kids, rest) := f;
    var g := Deliver(f, x.id, pid);
    var more := |g.node.up| - |x.up|;
    assert 0 <= more <= 1 && g.rest == rest && |g.node.down| == |x.down| - 1;
    assert g.kids == kids || (more == 0 && g.kids == Broadcast(kids, x.down[0]));
    hide Deliver, Receive;
    SendWork(kids, x.down[0], depth + 1);
    TimesOnce(depth);
    TimesOnce(1 + depth + BroadcastWork(kids, depth + 1));
    QueueWork(f, g.node, depth);
    KidsWork(f.(node := g.node), g.kids, depth);
    assert g == f.(node := g.node).(kids := g.kids);
  }

  /** Relaying a reply leaves less work. */
  lemma {:induction false} RelayWork(f: Forest, n: int, depth: nat)
    requires Sending(f, n) && depth > 0
    ensures var (g, out) := Relay(f, n);
      |out| <= 1 && Work(g, depth) + Times(|out|, depth - 1) < Work(f, depth)
      && BroadcastWork(g, depth) == BroadcastWork(f, depth)
  {
    hide Work, BroadcastWork, Times;
    var Tree(x, kids, rest) := f;
    TimesOnce(depth - 1);
    TimesOnce(depth);
    if n == x.id {
      var g := Relay(f, n).0;
      TimesOnce(1 + depth + BroadcastWork(kids, depth + 1));
      QueueWork(g, x, depth);
      assert g.(node := x) == f;
    } else if n in Ids(kids) {
      RelayWork(kids, n, depth + 1);
      var (kids', out) := Relay(kids, n);
      KidsWork(f, kids', depth);
      QueueWork(f.(kids := kids'), x.(up := x.up + out), depth);
    } else {
      RelayWork(rest, n, depth);
      RestWork(f, Relay(rest, n).0, depth);
    }
  }

  /** Without work left no message is under way. */
  lemma {:induction false} NoWorkIsQuiet(f: Forest, depth: nat)
    requires depth > 0 && Work(f, depth) == 0
    ensures forall t :: ViewOf(f, t).down == [] && ViewOf(f, t).up == []
  {
    if f.Tree? {
      var Tree(x, kids, rest) := f;
      NoWorkIsQuiet(kids, depth + 1);
      NoWorkIsQuiet(rest, depth);
      assert x.down == [] && x.up == [];
    }
  }

  /** As long as work is left some link has a message waiting. */
  lemma {:induction false} WorkMeansMessage(f: Forest, depth: nat) returns (n: int)
    requires depth > 0 && Unique(f) && Work(f, depth) > 0
    ensures n in Ids(f) && (Waiting(f, n) || Sending(f, n))
  {
    var Tree(x, kids, rest) := f;
    if x.down != [] || x.up != [] {
      n := x.id;
    } else if Work(kids, depth + 1) > 0 {
      n := WorkMeansMessage(kids, depth + 1);
    } else {
      n := WorkMeansMessage(rest, depth);
    }
  }
}
