/** A computing node of Lab 5: what it does with one message from its parent, as a value and as a class. */
module Nodes {
  import opened Messages
  import opened Wrappers

  /** What the handlers of run do: new dictionary and heartbeat period, replies to the parent, a child
      to create, and whether the message goes on to all children. */
  datatype Effect = Effect(dict: map<string, int>, beat: int, replies: seq<Message>, child: Option<int>, forward: bool)

  /** The switch of run with its handlers; pid is the process id that a fork returns. */
  function OnParent(id: int, dict: map<string, int>, beat: int, m: Message, pid: int): Effect {
    var idle := Effect(dict, beat, [], None, false);
    if m.command == HeartBeat then idle.(beat := m.data, forward := true)
    else if m.command == ExecErr then idle
    else if m.id != id then idle.(forward := true)
    else match m.command
      case Create => idle.(replies := [Message(Create, m.data, pid, "")], child := Some(m.data))
      case Ping => idle.(replies := [m])
      case ExecAdd => idle.(dict := dict[m.key := m.data], replies := [m])
      case ExecFnd =>
        idle.(replies := [if m.key in dict then Message(ExecFnd, id, dict[m.key], m.key)
                          else Message(ExecErr, id, -1, m.key)])
  }

  // ----- what a node must answer, said without a dictionary

  predicate Adds(m: Message, key: string) {
    m.command == ExecAdd && m.key == key
  }

  /** The value of the last ExecAdd for the key. */
  function LastAdd(commands: seq<Message>, key: string): Option<int>
    decreases |commands|
  {
    if commands == [] then None
    else if Adds(commands[|commands| - 1], key) then Some(commands[|commands| - 1].data)
    else LastAdd(commands[..|commands| - 1], key)
  }

  /** Command j is the last ExecAdd for the key. */
  ghost predicate IsLastAdd(commands: seq<Message>, key: string, j: int) {
    && 0 <= j < |commands| && Adds(commands[j], key)
    && forall i :: j < i < |commands| ==> !Adds(commands[i], key)
  }

  lemma {:induction false} LastAddIsLast(commands: seq<Message>, key: string)
    ensures match LastAdd(commands, key)
      case None => forall j :: 0 <= j < |commands| ==> !Adds(commands[j], key)
      case Some(v) => exists j :: IsLastAdd(commands, key, j) && commands[j].data == v
    decreases |commands|
  {
    if commands != [] {
      var n := |commands| - 1;
      if Adds(commands[n], key) {
        assert IsLastAdd(commands, key, n);
      } else {
        LastAddIsLast(commands[..n], key);
        if LastAdd(commands[..n], key).Some? {
          var j :| IsLastAdd(commands[..n], key, j) && commands[..n][j].data == LastAdd(commands[..n], key).value;
          assert forall i :: j < i < n ==> commands[..n][i] == commands[i];
          assert IsLastAdd(commands, key, j);
        } else {
          assert forall j :: 0 <= j < n ==> commands[..n][j] == commands[j];
        }
      }
    }
  }

  /** The right reply of node id to a command, given the commands it got before. */
  predicate RightReply(id: int, before: seq<Message>, m: Message, reply: Message) {
    match m.command
    case Create => reply.command == Create && reply.id == m.data
    case Ping => reply == m
    case ExecAdd => reply == m
    case ExecFnd =>
      reply == (match LastAdd(before, m.key)
                case Some(v) => Message(ExecFnd, id, v, m.key)
                case None => Message(ExecErr, id, -1, m.key))
    case _ => false
  }

  /** The dictionary holds, for every key, the value of the last ExecAdd. */
  ghost predicate DictIs(dict: map<string, int>, commands: seq<Message>) {
    forall key :: LastAdd(commands, key) == if key in dict then Some(dict[key]) else None
  }

  /** Executing the next command gives the right reply and keeps the dictionary right. */
  lemma ExecuteIsRight(id: int, dict: map<string, int>, beat: int, before: seq<Message>, m: Message, pid: int)
    requires DictIs(dict, before) && IsRequest(m) && m.id == id
    ensures var e := OnParent(id, dict, beat, m, pid);
      |e.replies| == 1 && RightReply(id, before, m, e.replies[0]) && DictIs(e.dict, before + [m]) && !e.forward
  {
    var e := OnParent(id, dict, beat, m, pid);
    assert (before + [m])[..|before|] == before;
    forall key ensures LastAdd(before + [m], key) == if key in e.dict then Some(e.dict[key]) else None {
      assert LastAdd(before, key) == if key in dict then Some(dict[key]) else None;
    }
    assert LastAdd(before, m.key) == if m.key in dict then Some(dict[m.key]) else None;
  }

  // ----- the node as an object

  /** What a node holds: besides its fields, what it sent to its parent and to each child, and what each
      child sent and the node has not taken yet. */
  datatype State = State(dict: map<string, int>, beat: int, children: seq<int>,
                         up: seq<Message>, down: seq<seq<Message>>, inbox: seq<seq<Message>>)

  /** The new state is the old one changed by the effect of the message, with children in order of creation. */
  predicate Follows(s: State, e: Effect, m: Message, r: State) {
    && r.dict == e.dict && r.beat == e.beat && r.up == s.up + e.replies
    && r.children == s.children + (if e.child.Some? then [e.child.value] else [])
    && r.inbox == s.inbox + (if e.child.Some? then [[]] else [])
    && r.down == (if e.forward then ToAll(s.down, m) else s.down) + if e.child.Some? then [[]] else []
  }

  /** A turn on child i: its oldest message, if there is one, moves to the parent. */
  predicate TurnOn(s: State, i: nat, r: State)
    requires i < |s.inbox|
  {
    if s.inbox[i] == [] then r == s
    else r == s.(up := s.up + [s.inbox[i][0]], inbox := s.inbox[i := s.inbox[i][1..]])
  }

  class ComputingNode {
    const id: int
    var dictionary: map<string, int>
    var children: seq<int>
    var heartbeat: int
    var up: seq<Message>
    var down: seq<seq<Message>>
    var inbox: seq<seq<Message>>

    ghost predicate Valid()
      reads this
    {
      |down| == |children| == |inbox|
    }

    ghost function Abstract(): State
      reads this
    {
      State(dictionary, heartbeat, children, up, down, inbox)
    }

    constructor (id: int)
      ensures Valid() && this.id == id && Abstract() == State(map[], 0, [], [], [], [])
    {
      this.id, dictionary, children, heartbeat, up, down, inbox := id, map[], [], 0, [], [], [];
    }

    /** Sends the message to every child. */
    method BroadcastToChildren(m: Message)
      requires Valid()
      modifies this`down
      ensures Valid() && down == ToAll(old(down), m)
    {
      var i := 0;
      while i < |children|
        invariant 0 <= i <= |children| && |down| == |children|
        invariant forall j :: 0 <= j < |down| ==> down[j] == old(down)[j] + if j < i then [m] else []
      {
        down := down[i := down[i] + [m]];
        i := i + 1;
      }
    }

    method HandleCreate(m: Message, pid: int)
      requires Valid() && m.command == Create
      modifies this
      ensures Valid() && Abstract() == old(Abstract()).(
        children := if m.id == id then old(children) + [m.data] else old(children),
        inbox := if m.id == id then old(inbox) + [[]] else old(inbox),
        up := if m.id == id then old(up) + [Message(Create, m.data, pid, "")] else old(up),
        down := if m.id == id then old(down) + [[]] else ToAll(old(down), m))
    {
      if m.id == id {
        children, down, inbox := children + [m.data], down + [[]], inbox + [[]];
        up := up + [Message(Create, m.data, pid, "")];
      } else {
        BroadcastToChildren(m);
      }
    }

    method HandlePing(m: Message)
      requires Valid() && m.command == Ping
      modifies this
      ensures Valid() && Abstract() == if m.id == id
        then old(Abstract()).(up := old(up) + [m]) else old(Abstract()).(down := ToAll(old(down), m))
    {
      if m.id == id {
        up := up + [m];
      } else {
        BroadcastToChildren(m);
      }
    }

    method HandleHeartbeat(m: Message)
      requires Valid() && m.command == HeartBeat
      modifies this
      ensures Valid() && Abstract() == old(Abstract()).(beat := m.data, down := ToAll(old(down), m))
    {
      heartbeat := m.data;
      BroadcastToChildren(m);
    }

    method HandleExecAdd(m: Message)
      requires Valid() && m.command == ExecAdd
      modifies this
      ensures Valid() && Abstract() == if m.id == id
        then old(Abstract()).(dict := old(dictionary)[m.key := m.data], up := old(up) + [m])
        else old(Abstract()).(down := ToAll(old(down), m))
    {
      if m.id == id {
        dictionary := dictionary[m.key := m.data];
        up := up + [m];
      } else {
        BroadcastToChildren(m);
      }
    }

    method HandleExecFind(m: Message)
      requires Valid() && m.command == ExecFnd
      modifies this
      ensures Valid() && Abstract() ==
        if m.id != id then old(Abstract()).(down := ToAll(old(down), m))
        else if m.key in old(dictionary)
        then old(Abstract()).(up := old(up) + [Message(ExecFnd, id, old(dictionary)[m.key], m.key)])
        else old(Abstract()).(up := old(up) + [Message(ExecErr, id, -1, m.key)])
    {
      if m.id == id {
        if m.key in dictionary {
          up := up + [Message(ExecFnd, id, dictionary[m.key], m.key)];
        } else {
          up := up + [Message(ExecErr, id, -1, m.key)];
        }
      } else {
        BroadcastToChildren(m);
      }
    }

    /** The switch of run on a message from the parent. */
    method HandleParentMessage(m: Message, pid: int)
      requires Valid()
      modifies this
      ensures Valid()
      ensures Follows(old(Abstract()), OnParent(id, old(dictionary), old(heartbeat), m, pid), m, Abstract())
    {
      match m.command {
        case Create => HandleCreate(m, pid);
        case Ping => HandlePing(m);
        case HeartBeat => HandleHeartbeat(m);
        case ExecAdd => HandleExecAdd(m);
        case ExecFnd => HandleExecFind(m);
        case ExecErr =>
      }
    }

    /** One turn of the loop over the children in run: the oldest message of child i goes to the parent,
        if there is one. The messages of the other children wait where they are. */
    method TakeFromChild(i: nat)
      requires Valid() && i < |children|
      modifies this`up, this`inbox
      ensures Valid() && TurnOn(old(Abstract()), i, Abstract())
      ensures old(inbox)[i] == [] ==> up == old(up) && inbox == old(inbox)
      ensures old(inbox)[i] != [] ==> up == old(up) + [old(inbox)[i][0]] && inbox[i] == old(inbox)[i][1..]
      ensures forall j :: 0 <= j < |inbox| && j != i ==> inbox[j] == old(inbox)[j]
    {
      if inbox[i] != [] {
        up := up + [inbox[i][0]];
        inbox := inbox[i := inbox[i][1..]];
      }
    }

    /** The loop over the children in run: each child that has a message loses its oldest one, and these
        arrive in the order of the children. */
    method PollChildren()
      requires Valid()
      modifies this`up, this`inbox
      ensures Valid() && OneTaken(old(inbox), inbox) && up == old(up) + Heads(old(inbox))
      ensures |up| == |old(up)| + Nonempty(old(inbox)) && up[..|old(up)|] == old(up)
      ensures forall i :: 0 <= i < |inbox| && old(inbox)[i] != [] ==>
        Nonempty(old(inbox)[..i]) < Nonempty(old(inbox))
        && up[|old(up)| + Nonempty(old(inbox)[..i])] == old(inbox)[i][0]
    {
      ghost var was := inbox;
      var i := 0;
      assert was[..0] == [];
      hide Heads, Nonempty;
      while i < |children|
        invariant 0 <= i <= |children| && |children| == |inbox| == |was| && Valid()
        invariant up == old(up) + Heads(was[..i])
        invariant forall j :: 0 <= j < i ==> inbox[j] == if was[j] == [] then [] else was[j][1..]
        invariant forall j :: i <= j < |was| ==> inbox[j] == was[j]
      {
        HeadsNext(was, i);
        TakeFromChild(i);
        i := i + 1;
      }
      assert was[..i] == was;
      forall j | 0 <= j < |was| && was[j] != []
        ensures Nonempty(was[..j]) < |Heads(was)| && Heads(was)[Nonempty(was[..j])] == was[j][0]
      {
        HeadsAt(was, j);
      }
    }
  }

  /** Each queue that is not empty is one message shorter. */
  predicate OneTaken(was: seq<seq<Message>>, inbox: seq<seq<Message>>) {
    |inbox| == |was| && forall i :: 0 <= i < |was| ==> inbox[i] == if was[i] == [] then [] else was[i][1..]
  }

  /** How many of the queues hold something. */
  function Nonempty(inbox: seq<seq<Message>>): nat
    decreases |inbox|
  {
    if inbox == [] then 0 else Nonempty(inbox[..|inbox| - 1]) + if inbox[|inbox| - 1] == [] then 0 else 1
  }

  /** The oldest message of each queue that has one, in the order of the queues. */
  function Heads(inbox: seq<seq<Message>>): (r: seq<Message>)
    ensures |r| == Nonempty(inbox)
    decreases |inbox|
  {
    if inbox == [] then [] else
      var n := |inbox| - 1;
      Heads(inbox[..n]) + if inbox[n] == [] then [] else [inbox[n][0]]
  }

  /** The head of a queue comes behind those of the queues before it. */
  lemma {:induction false} HeadsAt(inbox: seq<seq<Message>>, i: nat)
    requires i < |inbox| && inbox[i] != []
    ensures Nonempty(inbox[..i]) < |Heads(inbox)| && Heads(inbox)[Nonempty(inbox[..i])] == inbox[i][0]
    decreases |inbox|
  {
    var n := |inbox| - 1;
    if i < n {
      assert inbox[..n][..i] == inbox[..i];
      HeadsAt(inbox[..n], i);
    }
  }

  lemma HeadsNext(inbox: seq<seq<Message>>, i: nat)
    requires i < |inbox|
    ensures forall up :: (up + Heads(inbox[..i])) + (if inbox[i] == [] then [] else [inbox[i][0]])
                           == up + Heads(inbox[..i + 1])
  {
    assert inbox[..i + 1][..i] == inbox[..i];
  }

  /** All messages that wait for the node. */
  function InAll(inbox: seq<seq<Message>>): multiset<Message>
    decreases |inbox|
  {
    if inbox == [] then multiset{} else InAll(inbox[..|inbox| - 1]) + multiset(inbox[|inbox| - 1])
  }

  lemma Regroup(a: multiset<Message>, b: multiset<Message>, c: multiset<Message>, d: multiset<Message>)
    ensures (a + b) + (c + d) == (a + c) + (b + d)
  {
  }

  /** One pass over the children neither loses nor duplicates a message. */
  lemma {:induction false} PollConserves(was: seq<seq<Message>>, inbox: seq<seq<Message>>)
    requires OneTaken(was, inbox)
    ensures InAll(was) == multiset(Heads(was)) + InAll(inbox)
    decreases |was|
  {
    if was != [] {
      var n := |was| - 1;
      assert OneTaken(was[..n], inbox[..n]);
      PollConserves(was[..n], inbox[..n]);
      LastQueue(was, inbox);
    }
  }

  lemma LastQueue(was: seq<seq<Message>>, inbox: seq<seq<Message>>)
    requires was != [] && OneTaken(was, inbox)
    requires var n := |was| - 1; InAll(was[..n]) == multiset(Heads(was[..n])) + InAll(inbox[..n])
    ensures InAll(was) == multiset(Heads(was)) + InAll(inbox)
  {
    var n := |was| - 1;
    var first := if was[n] == [] then [] else [was[n][0]];
    assert was[n] == first + inbox[n];
    assert Heads(was) == Heads(was[..n]) + first;
    assert InAll(was) == InAll(was[..n]) + multiset(was[n]) && InAll(inbox) == InAll(inbox[..n]) + multiset(inbox[n]);
    hide Heads, OneTaken, InAll, Nonempty;
    assert multiset(was[n]) == multiset(first) + multiset(inbox[n]);
    assert multiset(Heads(was)) == multiset(Heads(was[..n])) + multiset(first);
    Regroup(multiset(Heads(was[..n])), InAll(inbox[..n]), multiset(first), multiset(inbox[n]));
  }
}
