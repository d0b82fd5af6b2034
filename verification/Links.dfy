/** The objects of Lab 5 and the tree of the network take the same steps: what a node or the controller
    holds is what the tree shows of it. */
module Links {
  import opened Messages
  import opened Wrappers
  import opened Tree
  import opened Network
  import Nodes
  import Control

  // ----- what one list of children shows

  function Children(f: Forest): seq<int> {
    match f
    case Nil => []
    case Tree(x, _, rest) => [x.id] + Children(rest)
  }

  /** What was sent to each child and not yet taken by it. */
  function Downs(f: Forest): (r: seq<seq<Message>>)
    ensures |r| == |Children(f)|
  {
    match f
    case Nil => []
    case Tree(x, _, rest) => [x.down] + Downs(rest)
  }

  function Texts(q: seq<Reply>): seq<Message> {
    seq(|q|, i requires 0 <= i < |q| => q[i].msg)
  }

  lemma TextsConcat(a: seq<Reply>, b: seq<Reply>)
    ensures Texts(a + b) == Texts(a) + Texts(b)
  {
  }

  lemma TextsFirst(q: seq<Reply>)
    ensures |Texts(q)| == |q|
    ensures q != [] ==> Texts(q[1..]) == Texts(q)[1..] && Texts([q[0]]) == [Texts(q)[0]] && Texts(q)[0] == q[0].msg
  {
  }

  /** What each child sent and its parent has not taken yet. */
  function Inboxes(f: Forest): (r: seq<seq<Message>>)
    ensures |r| == |Children(f)|
  {
    match f
    case Nil => []
    case Tree(x, _, rest) => [Texts(x.up)] + Inboxes(rest)
  }

  /** A node with its children, as its object holds it; its up queue is what its parent has not taken. */
  function Show(x: Node, kids: Forest): Nodes.State {
    Nodes.State(x.dict, x.beat, Children(kids), Texts(x.up), Downs(kids), Inboxes(kids))
  }

  lemma {:induction false} ShowBroadcast(f: Forest, m: Message)
    ensures var g := Broadcast(f, m);
      Children(g) == Children(f) && Downs(g) == ToAll(Downs(f), m) && Inboxes(g) == Inboxes(f)
  {
    if f.Tree? {
      ShowBroadcast(f.rest, m);
    }
  }

  lemma {:induction false} ShowAppend(f: Forest, id: int)
    ensures var g := Append(f, id);
      Children(g) == Children(f) + [id] && Downs(g) == Downs(f) + [[]] && Inboxes(g) == Inboxes(f) + [[]]
  {
    if f.Tree? {
      ShowAppend(f.rest, id);
    } else {
      assert Texts([]) == [];
    }
  }

  // ----- a message from the parent

  /** Taking a message from the parent in the tree is what the handlers of the object do. */
  lemma ReceiveFollows(x: Node, kids: Forest, pid: int)
    requires x.down != []
    ensures var (y, kids') := Receive(x, kids, pid);
      && y.id == x.id && y.down == x.down[1..]
      && Nodes.Follows(Show(x, kids), Nodes.OnParent(x.id, x.dict, x.beat, x.down[0], pid), x.down[0], Show(y, kids'))
  {
    var e := Nodes.OnParent(x.id, x.dict, x.beat, x.down[0], pid);
    ShowBroadcast(kids, x.down[0]);
    if e.child.Some? {
      ShowAppend(kids, e.child.value);
    }
    hide Broadcast, Append;
    TextsConcat(x.up, Tagged(x.id, e.replies));
    assert Texts(Tagged(x.id, e.replies)) == e.replies;
  }

  // ----- a message from a child

  /** The link of the i-th child of a list f loses its oldest message. */
  ghost predicate OneLess(f: Forest, i: nat, g: Forest, out: seq<Reply>)
    requires i < |Children(f)|
  {
    && Children(g) == Children(f) && Downs(g) == Downs(f)
    && (Inboxes(f)[i] == [] ==> out == [] && g == f)
    && (Inboxes(f)[i] != [] ==>
          Texts(out) == [Inboxes(f)[i][0]] && Inboxes(g) == Inboxes(f)[i := Inboxes(f)[i][1..]])
  }

  lemma {:induction false} RelayOne(f: Forest, i: nat)
    requires Unique(f) && i < |Children(f)|
    ensures var (g, out) := Relay(f, Children(f)[i]); OneLess(f, i, g, out)
  {
    var n := Children(f)[i];
    if i == 0 {
      FirstLess(f);
    } else {
      ChildIn(f.rest, i - 1);
      RelayOne(f.rest, i - 1);
      hide OneLess;
      assert n in Ids(f.rest) && n != f.node.id && n !in Ids(f.kids);
      var (rest', out) := Relay(f.rest, n);
      assert Relay(f, n) == (f.(rest := rest'), out);
      NextLess(f, i, rest', out);
    }
  }

  lemma FirstLess(f: Forest)
    requires f.Tree?
    ensures var (g, out) := Relay(f, f.node.id); OneLess(f, 0, g, out)
  {
    hide OneLess;
    if f.node.up != [] {
      SomeLess(f);
    } else {
      NothingLess(f);
    }
  }

  lemma NothingLess(f: Forest)
    requires f.Tree? && f.node.up == []
    ensures OneLess(f, 0, f, [])
  {
    TextsFirst(f.node.up);
    hide Texts;
  }

  lemma SomeLess(f: Forest)
    requires f.Tree? && f.node.up != []
    ensures OneLess(f, 0, f.(node := f.node.(up := f.node.up[1..])), [f.node.up[0]])
  {
    hide Texts;
    TextsFirst(f.node.up);
    var q, others := Texts(f.node.up), Inboxes(f.rest);
    ReplaceFirst(q, q[1..], others);
    assert Inboxes(f) == [q] + others;
    var g := f.(node := f.node.(up := f.node.up[1..]));
    assert Inboxes(g) == [q[1..]] + others;
    assert Children(g) == Children(f) && Downs(g) == Downs(f);
    hide Inboxes, Children, Downs;
  }

  lemma ReplaceFirst(q: seq<Message>, r: seq<Message>, others: seq<seq<Message>>)
    ensures ([q] + others)[0 := r] == [r] + others && ([q] + others)[0] == q
  {
  }

  lemma NextLess(f: Forest, i: nat, rest': Forest, out: seq<Reply>)
    requires f.Tree? && 0 < i < |Children(f)| && OneLess(f.rest, i - 1, rest', out)
    ensures OneLess(f, i, f.(rest := rest'), out)
  {
    hide Texts;
    var g := f.(rest := rest');
    assert Children(g) == [f.node.id] + Children(rest') && Downs(g) == [f.node.down] + Downs(rest');
    assert Inboxes(g) == [Texts(f.node.up)] + Inboxes(rest') && Inboxes(f) == [Texts(f.node.up)] + Inboxes(f.rest);
  }

  lemma {:induction false} ChildIn(f: Forest, i: nat)
    requires i < |Children(f)|
    ensures Children(f)[i] in Ids(f)
  {
    if i > 0 {
      ChildIn(f.rest, i - 1);
    }
  }

  /** The list that starts with node n. */
  function Find(f: Forest, n: int): (r: Forest)
    requires n in Ids(f)
    ensures r.Tree? && r.node.id == n
  {
    var Tree(x, kids, rest) := f;
    if n == x.id then f else if n in Ids(kids) then Find(kids, n) else Find(rest, n)
  }

  /** Node p of the tree as its object holds it. */
  function ShowAt(f: Forest, p: int): Nodes.State
    requires p in Ids(f)
  {
    Show(Find(f, p).node, Find(f, p).kids)
  }

  /** When the parent p of a node takes a message from it, p does exactly the turn of its object on that
      child: the same message, behind those p sent before, or nothing when there is none. Nothing leaves
      the tree. */
  lemma {:induction false} RelayIsTurn(f: Forest, p: int, i: nat)
    requires Unique(f) && p in Ids(f) && i < |ShowAt(f, p).children|
    ensures var (g, out) := Relay(f, ShowAt(f, p).children[i]);
      && Ids(g) == Ids(f) && out == [] && Nodes.TurnOn(ShowAt(f, p), i, ShowAt(g, p))
  {
    var Tree(x, kids, rest) := f;
    var n := ShowAt(f, p).children[i];
    KidsOfFound(f, p, i);
    if p == x.id {
      RelayHereTurn(x, kids, rest, i);
    } else if p in Ids(kids) {
      RelayIsTurn(kids, p, i);
      assert x.up + [] == x.up;
    } else {
      RelayIsTurn(rest, p, i);
    }
  }

  lemma RelayHereTurn(x: Node, kids: Forest, rest: Forest, i: nat)
    requires Unique(Tree(x, kids, rest)) && i < |Children(kids)|
    ensures var n := Children(kids)[i];
      var (g, out) := Relay(Tree(x, kids, rest), n);
      && n in Ids(kids) && n != x.id
      && Ids(g) == Ids(Tree(x, kids, rest)) && out == [] && g.Tree? && g.node.id == x.id
      && Nodes.TurnOn(Show(x, kids), i, Show(g.node, g.kids))
  {
    ChildIn(kids, i);
    RelayOne(kids, i);
    RelayKeepsIds(kids, Children(kids)[i]);
    var (kids', out) := Relay(kids, Children(kids)[i]);
    hide Relay;
    TextsConcat(x.up, out);
    TextsFirst([]);
    hide Texts;
  }

  lemma {:induction false} RelayKeepsIds(f: Forest, n: int)
    ensures Ids(Relay(f, n).0) == Ids(f)
  {
    if f.Tree? {
      RelayKeepsIds(f.kids, n);
      RelayKeepsIds(f.rest, n);
    }
  }

  /** The children of a node lie where the node lies. */
  lemma {:induction false} KidsOfFound(f: Forest, p: int, i: nat)
    requires Unique(f) && p in Ids(f) && i < |Children(Find(f, p).kids)|
    ensures var n, Tree(x, kids, rest) := Children(Find(f, p).kids)[i], f;
      && n != x.id && n in Ids(f)
      && (p == x.id || p in Ids(kids) ==> n in Ids(kids))
      && (p != x.id && p !in Ids(kids) ==> n in Ids(rest) && n !in Ids(kids))
  {
    if p == f.node.id {
      ChildIn(f.kids, i);
    } else if p in Ids(f.kids) {
      KidsOfFound(f.kids, p, i);
    } else {
      KidsOfFound(f.rest, p, i);
    }
  }

  // ----- heartbeats

  /** A heartbeat of node n goes to its parent, behind what n sent before. */
  lemma {:induction false} BeatIsSent(f: Forest, n: int)
    requires n in Ids(f)
    ensures var g := Beat(f, n);
      && Ids(g) == Ids(f)
      && ShowAt(g, n) == ShowAt(f, n).(up := ShowAt(f, n).up + [Message(HeartBeat, n, -1, "")])
  {
    var Tree(x, kids, rest) := f;
    if n == x.id {
      var beat := Reply(n, Message(HeartBeat, n, -1, ""));
      TextsConcat(x.up, [beat]);
      TextsFirst([beat]);
    } else if n in Ids(kids) {
      BeatIsSent(kids, n);
    } else {
      BeatIsSent(rest, n);
    }
  }

  /** A node may send a heartbeat exactly when it has a period. */
  lemma PulseIsSent(s: Net, n: int)
    requires n in Ids(s.tree)
    ensures Enabled(s, Pulse(n)) <==> BeatOf(s.tree, n) > 0
    ensures BeatOf(s.tree, n) == ShowAt(s.tree, n).beat
    ensures Enabled(s, Pulse(n)) ==>
      var r := Next(s, Pulse(n));
      && n in Ids(r.tree) && r.ctl == s.ctl
      && ShowAt(r.tree, n) == ShowAt(s.tree, n).(up := ShowAt(s.tree, n).up + [Message(HeartBeat, n, -1, "")])
  {
    BeatIsSent(s.tree, n);
    BeatShown(s.tree, n);
    hide Beat, BeatOf, ShowAt;
  }

  lemma {:induction false} BeatShown(f: Forest, n: int)
    requires n in Ids(f)
    ensures BeatOf(f, n) == ShowAt(f, n).beat
  {
    if n != f.node.id {
      if n in Ids(f.kids) { BeatShown(f.kids, n); } else { BeatShown(f.rest, n); }
    }
  }

  /** A new node is as its constructor leaves it. */
  lemma {:induction false} NewNodeIsEmpty(f: Forest, id: int)
    requires id !in Ids(f)
    ensures id in Ids(Append(f, id)) && ShowAt(Append(f, id), id) == Nodes.State(map[], 0, [], [], [], [])
  {
    if f.Tree? {
      NewNodeIsEmpty(f.rest, id);
    } else {
      TextsFirst([]);
    }
  }

  // ----- the controller

  /** The controller of a network state as its object holds it. */
  function ShowController(s: Net): Control.Whole {
    Control.Whole(s.ctl.nodeIds, s.ctl.pending, Children(s.tree), Downs(s.tree))
  }

  /** A command line does to the network what the handlers of the controller do to the object. */
  lemma EnterIsHandled(s: Net, input: Control.Input)
    ensures var w, r := ShowController(s), ShowController(OnEnter(s, input));
      match input
      case CreateNode(child, parent) =>
        if child in w.nodeIds || parent !in w.nodeIds then r == w
        else if parent == -1
        then r == w.(nodeIds := w.nodeIds + {child}, children := w.children + [child], down := w.down + [[]])
        else Control.IsPosted(w, Message(Create, parent, child, ""), r)
      case Add(id, key, value) =>
        if id in w.nodeIds then Control.IsPosted(w, Message(ExecAdd, id, value, key), r) else r == w
      case FindKey(id, key) =>
        if id in w.nodeIds then Control.IsPosted(w, Message(ExecFnd, id, -1, key), r) else r == w
      case PingNode(id) =>
        if id in w.nodeIds then Control.IsPosted(w, Message(Ping, id, 0, ""), r) else r == w
      case SetBeat(period) =>
        r == w.(down := ToAll(w.down, Message(HeartBeat, -1, period, "")))
  {
    ShowBroadcast(s.tree, Control.Request(input));
    if Control.Local(input) {
      ShowAppend(s.tree, input.child);
    }
    hide Broadcast, Append;
  }

  /** When the controller takes a message from its i-th child, it is the oldest one of that child. */
  lemma ControllerTakes(s: Net, i: nat)
    requires Unique(s.tree) && i < |Children(s.tree)| && Inboxes(s.tree)[i] != []
    ensures var n := Children(s.tree)[i];
      var e := Up(n);
      && Enabled(s, e)
      && var r := Next(s, e);
         && r.ctl == Control.OnChild(s.ctl, Inboxes(s.tree)[i][0])
         && Inboxes(r.tree) == Inboxes(s.tree)[i := Inboxes(s.tree)[i][1..]]
         && Children(r.tree) == Children(s.tree) && Downs(r.tree) == Downs(s.tree)
  {
    ChildIn(s.tree, i);
    ChildSends(s.tree, i);
    RelayOne(s.tree, i);
    var out := Relay(s.tree, Children(s.tree)[i]).1;
    TextsFirst(out);
    hide Relay, Texts;
    assert |out| == 1 && out[0].msg == Inboxes(s.tree)[i][0];
  }

  lemma {:induction false} ChildSends(f: Forest, i: nat)
    requires Unique(f) && i < |Children(f)|
    ensures Sending(f, Children(f)[i]) <==> Inboxes(f)[i] != []
  {
    if i > 0 {
      ChildIn(f.rest, i - 1);
      ChildSends(f.rest, i - 1);
    }
  }
}
