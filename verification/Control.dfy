/** The controller of Lab 5: its node ids and pending list, as a value and as a class. */
module Control {
  import opened Messages
  import opened Wrappers

  datatype State = State(nodeIds: set<int>, pending: seq<Message>)

  // ----- the pending list

  /** The test of remove_pending_message. */
  predicate Matches(m: Message, command: Command, id: int) {
    m.command == command && (m.id == id || (m.command == Create && m.data == id))
  }

  /** Removes the first match. */
  function RemovePending(pending: seq<Message>, command: Command, id: int): seq<Message> {
    if pending == [] then []
    else if Matches(pending[0], command, id) then pending[1..]
    else [pending[0]] + RemovePending(pending[1..], command, id)
  }

  /** Where the first match is decides what goes. */
  lemma {:induction false} RemovesAt(q: seq<Message>, command: Command, id: int, i: nat)
    requires i <= |q| && forall j :: 0 <= j < i ==> !Matches(q[j], command, id)
    requires i < |q| ==> Matches(q[i], command, id)
    ensures RemovePending(q, command, id) == if i < |q| then q[..i] + q[i + 1..] else q
    decreases i
  {
    if i > 0 {
      RemovesAt(q[1..], command, id, i - 1);
      assert i < |q| ==> [q[0]] + (q[1..][..i - 1] + q[1..][i..]) == q[..i] + q[i + 1..];
    }
  }

  /** The command whose pending entry a reply takes away. */
  function Answered(reply: Message): Option<Command> {
    match reply.command
    case Create => Some(Create)
    case Ping => Some(Ping)
    case ExecErr => Some(ExecFnd)
    case ExecAdd => Some(ExecAdd)
    case ExecFnd => Some(ExecFnd)
    case HeartBeat => None
  }

  /** handle_child_message without its output and its beat clock. */
  function OnChild(s: State, reply: Message): State {
    State(if reply.command == Create then s.nodeIds + {reply.id} else s.nodeIds,
          match Answered(reply)
          case Some(command) => RemovePending(s.pending, command, reply.id)
          case None => s.pending)
  }

  /** How many of the flags are off. */
  function Off(flags: seq<bool>): nat {
    if flags == [] then 0 else Off(flags[..|flags| - 1]) + if flags[|flags| - 1] then 0 else 1
  }

  /** The entries that did not time out. */
  function Unexpired(pending: seq<Message>, expired: seq<bool>): seq<Message>
    requires |expired| == |pending|
  {
    if pending == [] then []
    else (if expired[0] then [] else [pending[0]]) + Unexpired(pending[1..], expired[1..])
  }

  /** The sweep over the list was has kept the first it entries of q and still has to look at the rest of
      q, which is was from index clock on. */
  ghost predicate Swept(was: seq<Message>, expired: seq<bool>, q: seq<Message>, it: nat, clock: nat) {
    && |expired| == |was| && clock <= |was| && it <= |q| && q[it..] == was[clock..]
    && q[..it] + Unexpired(was[clock..], expired[clock..]) == Unexpired(was, expired)
  }

  lemma {:induction false} OffFront(flags: seq<bool>, i: nat)
    requires 0 < i <= |flags|
    ensures Off(flags[..i]) == (if flags[0] then 0 else 1) + Off(flags[1..][..i - 1])
    decreases i
  {
    assert flags[1..][..i - 1] == flags[1..i];
    if i > 1 {
      assert flags[..i][..i - 1] == flags[..i - 1] && flags[1..i][..i - 2] == flags[1..i - 1];
      assert flags[1..][..i - 2] == flags[1..i - 1];
      OffFront(flags, i - 1);
    }
  }

  /** Exactly the entries without a flag stay, each behind those without a flag before it. */
  lemma {:induction false} UnexpiredAt(q: seq<Message>, expired: seq<bool>)
    requires |expired| == |q|
    ensures |Unexpired(q, expired)| == Off(expired)
    ensures forall i :: 0 <= i < |q| && !expired[i] ==>
      Off(expired[..i]) < |Unexpired(q, expired)| && Unexpired(q, expired)[Off(expired[..i])] == q[i]
    decreases |q|
  {
    if q != [] {
      var r, rest := Unexpired(q, expired), Unexpired(q[1..], expired[1..]);
      UnexpiredAt(q[1..], expired[1..]);
      OffFront(expired, |q|);
      assert expired[..|q|] == expired && expired[1..][..|q| - 1] == expired[1..];
      assert r == (if expired[0] then [] else [q[0]]) + rest;
      hide Unexpired, Off;
      forall i | 0 <= i < |q| && !expired[i] ensures Off(expired[..i]) < |r| && r[Off(expired[..i])] == q[i] {
        UnexpiredFront(q, expired, r, rest, i);
      }
    }
  }

  lemma UnexpiredFront(q: seq<Message>, expired: seq<bool>, r: seq<Message>, rest: seq<Message>, i: nat)
    requires |expired| == |q| && i < |q| && !expired[i]
    requires r == (if expired[0] then [] else [q[0]]) + rest
    requires i > 0 ==> Off(expired[1..][..i - 1]) < |rest| && rest[Off(expired[1..][..i - 1])] == q[1..][i - 1]
    ensures Off(expired[..i]) < |r| && r[Off(expired[..i])] == q[i]
  {
    if i > 0 {
      OffFront(expired, i);
    } else {
      assert expired[..0] == [];
    }
  }

  lemma SweepStart(was: seq<Message>, expired: seq<bool>)
    requires |expired| == |was|
    ensures Swept(was, expired, was, 0, 0)
  {
    assert was[..0] == [] && was[0..] == was && expired[0..] == expired;
  }

  lemma SweepTurn(was: seq<Message>, expired: seq<bool>, q: seq<Message>, it: nat, clock: nat)
    requires Swept(was, expired, q, it, clock) && it < |q|
    ensures clock < |was| == |expired|
    ensures expired[clock] ==> Swept(was, expired, q[..it] + q[it + 1..], it, clock + 1)
    ensures !expired[clock] ==> Swept(was, expired, q, it + 1, clock + 1)
  {
    var kept, rest := q[..it], was[clock..];
    assert rest[1..] == was[clock + 1..] == q[it + 1..] && expired[clock..][1..] == expired[clock + 1..];
    assert Unexpired(rest, expired[clock..]) ==
      (if expired[clock] then [] else [rest[0]]) + Unexpired(was[clock + 1..], expired[clock + 1..]);
    hide Unexpired;
    if expired[clock] {
      assert (kept + rest[1..])[..it] == kept && (kept + rest[1..])[it..] == rest[1..];
    } else {
      assert q[..it + 1] == kept + [rest[0]];
    }
  }

  lemma SweepEnd(was: seq<Message>, expired: seq<bool>, q: seq<Message>, clock: nat)
    requires Swept(was, expired, q, |q|, clock)
    ensures q == Unexpired(was, expired)
  {
    assert was[clock..] == [] && q[..|q|] == q;
  }

  // ----- commands

  datatype Input =
    | CreateNode(child: int, parent: int)
    | Add(id: int, key: string, value: int)
    | FindKey(id: int, key: string)
    | PingNode(id: int)
    | SetBeat(period: int)

  /** The message a command sends to all children, when its ids are known. */
  function Request(input: Input): Message {
    match input
    case CreateNode(child, parent) => Message(Create, parent, child, "")
    case Add(id, key, value) => Message(ExecAdd, id, value, key)
    case FindKey(id, key) => Message(ExecFnd, id, -1, key)
    case PingNode(id) => Message(Ping, id, 0, "")
    case SetBeat(period) => Message(HeartBeat, -1, period, "")
  }

  /** The command is refused with an error: an id exists already or is not known. */
  predicate Refused(nodeIds: set<int>, input: Input) {
    match input
    case CreateNode(child, parent) => child in nodeIds || parent !in nodeIds
    case Add(id, _, _) => id !in nodeIds
    case FindKey(id, _) => id !in nodeIds
    case PingNode(id) => id !in nodeIds
    case SetBeat(_) => false
  }

  /** The controller forks the node itself. */
  predicate Local(input: Input) {
    input.CreateNode? && input.parent == -1
  }

  function OnInput(s: State, input: Input): State {
    if Refused(s.nodeIds, input) then s
    else if Local(input) then s.(nodeIds := s.nodeIds + {input.child})
    else if input.SetBeat? then s
    else s.(pending := s.pending + [Request(input)])
  }

  // ----- the controller as an object

  /** All that the controller holds: its state, its children, and what it sent to each of them. */
  datatype Whole = Whole(nodeIds: set<int>, pending: seq<Message>, children: seq<int>, down: seq<seq<Message>>)

  /** One more pending entry, and the message sent to every child. */
  predicate IsPosted(w: Whole, m: Message, r: Whole) {
    && r.nodeIds == w.nodeIds && r.children == w.children && r.pending == w.pending + [m]
    && |r.down| == |w.down| && forall i :: 0 <= i < |w.down| ==> r.down[i] == w.down[i] + [m]
  }

  function Posted(w: Whole, m: Message): (r: Whole)
    ensures IsPosted(w, m, r)
  {
    w.(pending := w.pending + [m], down := ToAll(w.down, m))
  }

  class Controller {
    var nodeIds: set<int>
    var pending: seq<Message>
    var children: seq<int>
    /** Sent to each child. */
    var down: seq<seq<Message>>

    ghost predicate Valid()
      reads this
    {
      |down| == |children|
    }

    ghost function Abstract(): State
      reads this
    {
      State(nodeIds, pending)
    }

    ghost function AsWhole(): Whole
      reads this
    {
      Whole(nodeIds, pending, children, down)
    }

    constructor ()
      ensures Valid() && Abstract() == State({-1}, []) && children == [] && down == []
    {
      nodeIds, pending, children, down := {-1}, [], [], [];
    }

    /** find_if and erase. */
    method RemovePendingMessage(command: Command, id: int)
      modifies this`pending
      ensures pending == RemovePending(old(pending), command, id)
    {
      var it := 0;
      while it < |pending| && !Matches(pending[it], command, id)
        invariant 0 <= it <= |pending|
        invariant forall j :: 0 <= j < it ==> !Matches(pending[j], command, id)
      {
        it := it + 1;
      }
      RemovesAt(pending, command, id, it);
      if it < |pending| {
        pending := pending[..it] + pending[it + 1..];
      }
    }

    method HandleChildMessage(reply: Message)
      requires Valid()
      modifies this`nodeIds, this`pending
      ensures Valid() && Abstract() == OnChild(old(Abstract()), reply)
      ensures nodeIds == if reply.command == Create then old(nodeIds) + {reply.id} else old(nodeIds)
      ensures reply.command == HeartBeat ==> pending == old(pending)
    {
      match reply.command {
        case Create =>
          nodeIds := nodeIds + {reply.id};
          RemovePendingMessage(Create, reply.id);
        case Ping => RemovePendingMessage(Ping, reply.id);
        case ExecErr => RemovePendingMessage(ExecFnd, reply.id);
        case ExecAdd => RemovePendingMessage(ExecAdd, reply.id);
        case ExecFnd => RemovePendingMessage(ExecFnd, reply.id);
        case HeartBeat =>
      }
    }

    /** check_pending_messages: erases while iterating; expired says which entries are too old. */
    method CheckPendingMessages(expired: seq<bool>)
      requires |expired| == |pending|
      modifies this`pending
      ensures pending == Unexpired(old(pending), expired) && |pending| == Off(expired)
      ensures forall i :: 0 <= i < |expired| && !expired[i] ==>
        Off(expired[..i]) < |pending| && pending[Off(expired[..i])] == old(pending)[i]
    {
      UnexpiredAt(pending, expired);
      hide Off, Unexpired;
      ghost var was := pending;
      var it, clock := 0, 0;
      SweepStart(was, expired);
      hide Swept;
      while it < |pending|
        invariant 0 <= it <= |pending| && 0 <= clock && Swept(was, expired, pending, it, clock)
        decreases |pending| - it
      {
        SweepTurn(was, expired, pending, it, clock);
        if expired[clock] {
          pending := pending[..it] + pending[it + 1..];
        } else {
          it := it + 1;
        }
        clock := clock + 1;
      }
      SweepEnd(was, expired, pending, clock);
    }

    /** Sends the message to every child. */
    method SendToChildren(m: Message)
      requires Valid()
      modifies this`down
      ensures Valid() && down == ToAll(old(down), m)
    {
      var i := 0;
      while i < |children|
        invariant 0 <= i <= |children| && |down| == |children|
        invariant forall j :: 0 <= j < |down| ==> down[j] == old(down)[j] + if j < i then [m] else []
      {
        down := down[i := down[i] + [m]];
        i := i + 1;
      }
    }

    /** broadcast_message */
    method BroadcastMessage(m: Message)
      requires Valid()
      modifies this`pending, this`down
      ensures Valid() && pending == old(pending) + [m] && down == ToAll(old(down), m)
    {
      pending := pending + [m];
      SendToChildren(m);
    }

    /** The command handlers. A command whose ids are not as they should be changes nothing. */
    method HandleCommand(input: Input)
      requires Valid()
      modifies this
      ensures Valid() && Abstract() == OnInput(old(Abstract()), input)
      ensures AsWhole() == match input
        case CreateNode(child, parent) =>
          if child in old(nodeIds) || parent !in old(nodeIds) then old(AsWhole())
          else if parent == -1
          then old(AsWhole()).(nodeIds := old(nodeIds) + {child}, children := old(children) + [child],
                             down := old(down) + [[]])
          else Posted(old(AsWhole()), Message(Create, parent, child, ""))
        case Add(id, key, value) =>
          if id in old(nodeIds) then Posted(old(AsWhole()), Message(ExecAdd, id, value, key)) else old(AsWhole())
        case FindKey(id, key) =>
          if id in old(nodeIds) then Posted(old(AsWhole()), Message(ExecFnd, id, -1, key)) else old(AsWhole())
        case PingNode(id) =>
          if id in old(nodeIds) then Posted(old(AsWhole()), Message(Ping, id, 0, "")) else old(AsWhole())
        case SetBeat(period) =>
          old(AsWhole()).(down := ToAll(old(down), Message(HeartBeat, -1, period, "")))
    {
      match input {
        case CreateNode(child, parent) =>
          if child in nodeIds || parent !in nodeIds {
            return;
          }
          if parent == -1 {
            children, down := children + [child], down + [[]];
            nodeIds := nodeIds + {child};
          } else {
            BroadcastMessage(Message(Create, parent, child, ""));
          }
        case Add(id, key, value) =>
          if id in nodeIds {
            BroadcastMessage(Message(ExecAdd, id, value, key));
          }
        case FindKey(id, key) =>
          if id in nodeIds {
            BroadcastMessage(Message(ExecFnd, id, -1, key));
          }
        case PingNode(id) =>
          if id in nodeIds {
            BroadcastMessage(Message(Ping, id, 0, ""));
          }
        case SetBeat(period) =>
          SendToChildren(Message(HeartBeat, -1, period, ""));
      }
    }
  }
}
