/** From the command lines to what the nodes do: the commands of Lab 5 seen from the keyboard. */
module Commands {
  import opened Messages
  import opened Wrappers
  import opened Tree
  import opened Network
  import opened Protocol
  import Nodes
  import Control

  /** The command line is for node t, and the controller knows the ids it needs. */
  predicate AcceptedFor(nodeIds: set<int>, input: Control.Input, t: int) {
    match input
    case CreateNode(child, parent) => parent == t && parent in nodeIds && child !in nodeIds
    case Add(id, _, _) => id == t && id in nodeIds
    case FindKey(id, _) => id == t && id in nodeIds
    case PingNode(id) => id == t && id in nodeIds
    case SetBeat(_) => false
  }

  /** The command lines for node t that were accepted in the first x steps of a run, in order. */
  ghost function Accepted(run: seq<Net>, events: seq<Event>, x: nat, t: int): seq<Control.Input>
    requires |run| == |events| + 1 && x < |run|
  {
    if x == 0 then [] else
      var e := events[x - 1];
      Accepted(run, events, x - 1, t)
        + if e.Enter? && AcceptedFor(run[x - 1].ctl.nodeIds, e.input, t) then [e.input] else []
  }

  /** The message says what the command line says: kind, addressee, and child, key and value where it has
      them. */
  predicate Says(m: Message, input: Control.Input) {
    match input
    case CreateNode(child, parent) => m.command == Create && m.id == parent && m.data == child
    case Add(id, key, value) => m.command == ExecAdd && m.id == id && m.key == key && m.data == value
    case FindKey(id, key) => m.command == ExecFnd && m.id == id && m.key == key
    case PingNode(id) => m.command == Ping && m.id == id
    case SetBeat(_) => false
  }

  ghost predicate AllSaid(q: seq<Message>, inputs: seq<Control.Input>) {
    |q| == |inputs| && forall k :: 0 <= k < |q| ==> Says(q[k], inputs[k])
  }

  /** A step adds to what is issued to t exactly when it is an accepted command line for t. */
  lemma StepIssues(s: Net, e: Event, t: int)
    requires Enabled(s, e) && t != -1
    ensures var was, now := At(s.issued, t), At(Next(s, e).issued, t);
      if e.Enter? && AcceptedFor(s.ctl.nodeIds, e.input, t)
      then |now| == |was| + 1 && now[..|was|] == was && Says(now[|was|], e.input)
      else now == was
  {
    hide Relay, Deliver, Broadcast, Append, Beat;
    if e.Enter? {
      var m := Control.Request(e.input);
      assert At(s.issued, t) + [m] == At(s.issued, t) + [m];
    }
  }

  lemma {:induction false} IssuedIsAccepted(run: seq<Net>, events: seq<Event>, x: nat, t: int)
    requires Run(run, events) && x < |run| && t != -1
    ensures AllSaid(At(run[x].issued, t), Accepted(run, events, x, t))
    decreases x
  {
    hide Next, Enabled, AcceptedFor, Says;
    if x > 0 {
      IssuedIsAccepted(run, events, x - 1, t);
      StepIssues(run[x - 1], events[x - 1], t);
    }
  }

  /** The accepted command lines for a node are, one to one and in order, the commands it executed followed
      by those on their way to it. */
  lemma AcceptedAreExecuted(run: seq<Net>, events: seq<Event>, x: nat, t: int)
    requires Run(run, events) && x < |run| && t in Ids(run[x].tree)
    ensures var inputs, v := Accepted(run, events, x, t), ViewOf(run[x].tree, t);
      && |inputs| == |v.log| + |v.down|
      && (forall k :: 0 <= k < |v.log| ==> Says(v.log[k].request, inputs[k]))
      && forall k :: 0 <= k < |v.down| ==> Says(v.down[k], inputs[|v.log| + k])
  {
    hide Inv, Run, Accepted, ViewOf, AllSaid, Says, Requests, Unique, TreeShape;
    RunLength(run, events);
    var s := run[x];
    EveryState(run, events, x);
    NoNodeMinusOne(s);
    IssuedIsAccepted(run, events, x, t);
    Protocol.ExecutedInOrder(s, t);
    SaidInTwo(ViewOf(s.tree, t).log, ViewOf(s.tree, t).down, Accepted(run, events, x, t));
  }

  lemma RunLength(run: seq<Net>, events: seq<Event>)
    requires Run(run, events)
    ensures |run| == |events| + 1
  {
    hide Enabled, Next;
  }

  lemma NoNodeMinusOne(s: Net)
    requires Inv(s)
    ensures -1 !in Ids(s.tree)
  {
    hide TreeShape, Inv;
    assert TreeShape(s) ==> -1 !in Ids(s.tree) by { ShapeMinusOne(s); }
    InvTreeShape(s);
  }

  lemma ShapeMinusOne(s: Net)
    ensures TreeShape(s) ==> -1 !in Ids(s.tree)
  {
    hide Unique;
  }

  lemma SaidInTwo(log: seq<Exec>, down: seq<Message>, inputs: seq<Control.Input>)
    requires AllSaid(Requests(log) + down, inputs)
    ensures |inputs| == |log| + |down|
    ensures forall k :: 0 <= k < |log| ==> Says(log[k].request, inputs[k])
    ensures forall k :: 0 <= k < |down| ==> Says(down[k], inputs[|log| + k])
  {
    hide Says;
    var all := Requests(log) + down;
    forall k | 0 <= k < |log| ensures Says(log[k].request, inputs[k]) {
      assert all[k] == log[k].request;
    }
    forall k | 0 <= k < |down| ensures Says(down[k], inputs[|log| + k]) {
      assert all[|log| + k] == down[k];
    }
  }

  /** Command j is the last accepted add of the key before command k. */
  ghost predicate IsLastAddBefore(inputs: seq<Control.Input>, k: int, key: string, j: int) {
    && 0 <= j < k <= |inputs| && inputs[j].Add? && inputs[j].key == key
    && forall i :: j < i < k ==> !(inputs[i].Add? && inputs[i].key == key)
  }

  /** Over every run: the k-th reply of node t answers the k-th accepted command line for t. To a find of a
      key it carries the value of the last accepted add of that key to t before, and it is the error reply
      exactly when there was none. */
  lemma FindAnswersLastAdd(run: seq<Net>, events: seq<Event>, x: nat, t: int, k: nat)
    requires Run(run, events) && x < |run| && k < |At(run[x].answers, t)|
    ensures k < |Accepted(run, events, x, t)|
    ensures var inputs, reply := Accepted(run, events, x, t), At(run[x].answers, t)[k];
      inputs[k].FindKey? ==>
        var key := inputs[k].key;
        && reply.id == t && reply.key == key
        && (reply.command == ExecFnd || reply.command == ExecErr)
        && (reply.command == ExecErr <==> forall j :: 0 <= j < k ==> !(inputs[j].Add? && inputs[j].key == key))
        && (reply.command == ExecFnd ==> exists j :: IsLastAddBefore(inputs, k, key, j) && reply.data == inputs[j].value)
  {
    var s, inputs := run[x], Accepted(run, events, x, t);
    EveryState(run, events, x);
    assert t != -1 by { InvTreeShape(s); AnswersAreRight(s, t, k); }
    IssuedIsAccepted(run, events, x, t);
    FindCarriesLastAdd(run, events, x, t, k);
    hide Inv, Run, Accepted;
    FindInWords(At(s.issued, t), inputs, t, k, At(s.answers, t)[k]);
  }

  /** Over every run: the k-th reply of node t to a ping, an add or a create is the one for the k-th accepted
      command line for t. */
  lemma AnswersFitCommands(run: seq<Net>, events: seq<Event>, x: nat, t: int, k: nat)
    requires Run(run, events) && x < |run| && k < |At(run[x].answers, t)|
    ensures k < |Accepted(run, events, x, t)|
    ensures var reply := At(run[x].answers, t)[k];
      match Accepted(run, events, x, t)[k]
      case CreateNode(child, parent) => parent == t && reply.command == Create && reply.id == child
      case Add(id, key, value) => id == t && reply == Message(ExecAdd, t, value, key)
      case FindKey(id, key) => id == t && (reply.command == ExecFnd || reply.command == ExecErr)
      case PingNode(id) => id == t && reply.command == Ping && reply.id == t
      case SetBeat(_) => false
  {
    var s := run[x];
    EveryState(run, events, x);
    assert t != -1 by { InvTreeShape(s); AnswersAreRight(s, t, k); }
    IssuedIsAccepted(run, events, x, t);
    AnswersAreRight(s, t, k);
    IssuedTo(s, t, k);
    hide Inv, Run, Accepted;
    assert Says(At(s.issued, t)[k], Accepted(run, events, x, t)[k]);
  }

  lemma IssuedTo(s: Net, t: int, k: nat)
    requires Inv(s) && k < |At(s.issued, t)|
    ensures At(s.issued, t)[k].id == t
  {
    hide TreeInv, OrderInv, CreateInv, BornInv, PendingInv;
    assert At(s.issued, t)[k] in At(s.issued, t);
  }

  /** The same for the messages that say what the command lines say. */
  lemma FindInWords(issued: seq<Message>, inputs: seq<Control.Input>, t: int, k: nat, reply: Message)
    requires AllSaid(issued, inputs) && k < |issued|
    requires issued[k].command == ExecFnd ==>
        var key := issued[k].key;
        if exists j :: 0 <= j < k && Nodes.Adds(issued[j], key)
        then exists j :: 0 <= j < k && Nodes.IsLastAdd(issued[..k], key, j)
                         && reply == Message(ExecFnd, t, issued[j].data, key)
        else reply == Message(ExecErr, t, -1, key)
    ensures inputs[k].FindKey? ==>
        var key := inputs[k].key;
        && reply.id == t && reply.key == key
        && (reply.command == ExecFnd || reply.command == ExecErr)
        && (reply.command == ExecErr <==> forall j :: 0 <= j < k ==> !(inputs[j].Add? && inputs[j].key == key))
        && (reply.command == ExecFnd ==> exists j :: IsLastAddBefore(inputs, k, key, j) && reply.data == inputs[j].value)
  {
    if inputs[k].FindKey? {
      var key := inputs[k].key;
      assert Says(issued[k], inputs[k]);
      forall j | 0 <= j < k ensures Nodes.Adds(issued[j], key) <==> inputs[j].Add? && inputs[j].key == key {
        assert Says(issued[j], inputs[j]);
      }
      if exists j :: 0 <= j < k && Nodes.Adds(issued[j], key) {
        var j :| 0 <= j < k && Nodes.IsLastAdd(issued[..k], key, j) && reply == Message(ExecFnd, t, issued[j].data, key);
        LastAddInWords(issued, inputs, k, key, j);
      }
    }
  }

  lemma LastAddInWords(issued: seq<Message>, inputs: seq<Control.Input>, k: nat, key: string, j: nat)
    requires AllSaid(issued, inputs) && k < |issued| && j < k && Nodes.IsLastAdd(issued[..k], key, j)
    ensures IsLastAddBefore(inputs, k, key, j) && issued[j].data == inputs[j].value
  {
    assert Says(issued[j], inputs[j]) && issued[..k][j] == issued[j];
    forall i | j < i < k ensures !(inputs[i].Add? && inputs[i].key == key) {
      assert Says(issued[i], inputs[i]) && issued[..k][i] == issued[i];
    }
  }
}
