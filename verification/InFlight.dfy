/** Pending entries against what is still on its way, and what is left when the network comes to rest. */
module InFlight {
  import opened Messages
  import opened Wrappers
  import opened Tree
  import opened Network
  import opened Protocol
  import opened Pending
  import Nodes
  import Control

  // ----- replies by kind

  /** The reply is one that a command of this kind gets. */
  predicate Responds(reply: Message, k: Key) {
    match k
    case To(command, _) => Control.Answered(reply) == Some(command)
    case NewChild(child) => reply.command == Create && reply.id == child
  }

  function CountReplies(q: seq<Message>, k: Key): nat {
    if q == [] then 0 else (if Responds(q[0], k) then 1 else 0) + CountReplies(q[1..], k)
  }

  /** The commands of a kind on their way down to node t, and the replies to such commands on their way up
      from it. */
  function OnTheWay(s: Net, t: int, k: Key): nat {
    Count(ViewOf(s.tree, t).down, k) + CountReplies(ViewOf(s.tree, t).up, k)
  }

  /** The keys of commands to t. */
  predicate KeyFor(k: Key, t: int) {
    k.To? ==> k.id == t
  }

  lemma {:induction false} RepliesCount(requests: seq<Message>, replies: seq<Message>, t: int, k: Key)
    requires |requests| == |replies| && KeyFor(k, t)
    requires forall i :: 0 <= i < |requests| ==> Names(requests[i], t, replies[i])
    ensures CountReplies(replies, k) == Count(requests, k)
    decreases |requests|
  {
    if requests != [] {
      assert Names(requests[0], t, replies[0]);
      RepliesCount(requests[1..], replies[1..], t, k);
    }
  }

  lemma ReplyNames(id: int, before: seq<Message>, m: Message, reply: Message)
    requires Nodes.RightReply(id, before, m, reply) && m.id == id
    ensures Names(m, id, reply)
  {
  }

  /** What is outstanding of a kind is what is on its way down, or answered and on its way up. */
  lemma OutstandingIsOnTheWay(s: Net, t: int, k: Key)
    requires Inv(s) && t in Ids(s.tree) && KeyFor(k, t)
    ensures Count(Outstanding(s, t), k) == OnTheWay(s, t, k)
  {
    hide IssuedInv, CreateInv, BornInv, PendingInv, DownOk, UpOk, Unique;
    LogIsOk(s.tree, t);
    assert InOrder(s, t);
    hide NodesOk, ViewOf, OrderInv;
    var v, n := ViewOf(s.tree, t), |At(s.answers, t)|;
    var requests, replies := Requests(v.log), Replies(v.log);
    forall i | n <= i < |v.log| ensures Names(requests[i], t, replies[i]) {
      ReplyNames(t, requests[..i], v.log[i].request, v.log[i].reply);
    }
    hide Requests, Replies;
    Suffixes(requests, replies, v.down, v.up, At(s.issued, t), At(s.answers, t));
    assert Outstanding(s, t) == requests[n..] + v.down;
    hide Outstanding, LogOk, Count, Names, OnTheWay;
    RepliesCount(requests[n..], replies[n..], t, k);
    CountConcat(requests[n..], v.down, k);
    assert OnTheWay(s, t, k) == Count(v.down, k) + CountReplies(v.up, k) by { OnTheWayParts(s, t, k); }
  }

  lemma OnTheWayParts(s: Net, t: int, k: Key)
    ensures OnTheWay(s, t, k) == Count(ViewOf(s.tree, t).down, k) + CountReplies(ViewOf(s.tree, t).up, k)
  {
  }

  lemma Suffixes(requests: seq<Message>, replies: seq<Message>, down: seq<Message>, up: seq<Message>,
                 issued: seq<Message>, answers: seq<Message>)
    requires |requests| == |replies| && issued == requests + down && answers + up == replies
    ensures |answers| <= |requests| && issued[|answers|..] == requests[|answers|..] + down
    ensures up == replies[|answers|..]
  {
  }

  // ----- pending entries never outnumber what is on its way

  /** Entries whose commands lie in a list, in order, are not more than that list has. */
  lemma {:induction false} RefsCount(q: seq<Message>, refs: seq<Ref>, issued: seq<Message>, t: int, low: nat, k: Key)
    requires |q| == |refs| && Ordered(refs) && low <= |issued|
    requires forall i :: 0 <= i < |q| && Fits(q[i], k) ==>
      refs[i].to == t && low <= refs[i].index < |issued| && issued[refs[i].index] == q[i]
    ensures Count(q, k) <= Count(issued[low..], k)
    decreases |q|
  {
    if q != [] {
      if Fits(q[0], k) {
        var j := refs[0].index;
        assert issued[low..] == issued[low..j] + ([issued[j]] + issued[j + 1..]);
        CountConcat(issued[low..j], [issued[j]] + issued[j + 1..], k);
        CountConcat([issued[j]], issued[j + 1..], k);
        forall i | 0 <= i < |q| - 1 && Fits(q[1..][i], k) ensures j + 1 <= refs[1..][i].index {
          assert Fits(q[i + 1], k) && refs[0].to == refs[i + 1].to;
        }
        RefsCount(q[1..], refs[1..], issued, t, j + 1, k);
      } else {
        RefsCount(q[1..], refs[1..], issued, t, low, k);
      }
    }
  }

  lemma PendingBelowOutstanding(s: Net, b: Books, t: int, k: Key)
    requires Inv(s) && BooksOk(s, b)
    requires match k case To(_, id) => id == t case NewChild(c) => c in s.parentOf && s.parentOf[c] == t
    ensures Count(s.ctl.pending, k) <= Count(Outstanding(s, t), k)
  {
    var q, issued, low := s.ctl.pending, At(s.issued, t), |At(s.answers, t)|;
    NoAnswersFromNowhere(s);
    forall i | 0 <= i < |q| && Fits(q[i], k)
      ensures b.refs[i].to == t && low <= b.refs[i].index < |issued| && issued[b.refs[i].index] == q[i]
    {
      assert Stands(s, b.refs[i], q[i]);
      hide Inv;
      if k.NewChild? {
        PendingParent(s, b, q[i]);
      }
    }
    hide Inv, Complete, EndsOk;
    RefsCount(q, b.refs, issued, t, low, k);
  }

  lemma PendingIsKnown(s: Net, m: Message)
    requires Inv(s) && m in s.ctl.pending && m.id != -1
    ensures m.id in Ids(s.tree)
  {
  }

  /** While commands are in flight, timeouts and late replies included: the pending entries of a kind, by
      command and addressee or by the child to create, never outnumber the commands of that kind on their
      way down to the addressee and the replies to such commands on their way up from it. */
  lemma PendingBelowInFlight(run: seq<Net>, events: seq<Event>, x: nat, m: Message)
    requires Run(run, events) && x < |run| && m in run[x].ctl.pending && m.id != -1
    ensures var s, k, c := run[x], To(m.command, m.id), NewChild(m.data);
      && m.id in Ids(s.tree)
      && 0 < Count(s.ctl.pending, k) <= OnTheWay(s, m.id, k)
      && (m.command == Create ==>
            && m.data in s.parentOf && s.parentOf[m.data] == m.id
            && 0 < Count(s.ctl.pending, c) <= OnTheWay(s, m.id, c))
  {
    var s, b := run[x], BooksAt(run, events, x);
    EveryState(run, events, x);
    EveryBook(run, events, x);
    hide Inv, BooksOk, BooksAt, Run, OnTheWay, Outstanding, Count;
    PendingIsKnown(s, m);
    CountMember(s.ctl.pending, m, To(m.command, m.id));
    PendingBelowOutstanding(s, b, m.id, To(m.command, m.id));
    OutstandingIsOnTheWay(s, m.id, To(m.command, m.id));
    if m.command == Create {
      PendingParent(s, b, m);
      CountMember(s.ctl.pending, m, NewChild(m.data));
      PendingBelowOutstanding(s, b, m.id, NewChild(m.data));
      OutstandingIsOnTheWay(s, m.id, NewChild(m.data));
    }
  }

  // ----- runs without timeouts

  ghost predicate NoTimeouts(events: seq<Event>) {
    forall x :: 0 <= x < |events| ==> !events[x].Expire?
  }

  /** For every node the pending list holds exactly what is outstanding, in order. */
  ghost predicate Mirror(s: Net) {
    forall t :: For(s.ctl.pending, t) == Outstanding(s, t)
  }

  lemma {:induction false} ForMember(q: seq<Message>, t: int, m: Message)
    requires m in For(q, t)
    ensures m in q && m.id == t
    decreases |q|
  {
    if q[0].id != t || m != q[0] {
      ForMember(q[1..], t, m);
    }
  }

  lemma {:induction false} RemoveFirstFor(q: seq<Message>, command: Command, id: int, t: int)
    requires forall m :: m in q && Control.Matches(m, command, id) ==> m.id == t
    requires For(q, t) != [] && Control.Matches(For(q, t)[0], command, id)
    ensures forall x :: For(Control.RemovePending(q, command, id), x) == if x == t then For(q, t)[1..] else For(q, x)
    decreases |q|
  {
    assert q[0] in q;
    if !Control.Matches(q[0], command, id) {
      assert q[0].id != t;
      RemoveFirstFor(q[1..], command, id, t);
      var rest := Control.RemovePending(q[1..], command, id);
      assert ([q[0]] + rest)[1..] == rest;
    }
  }

  lemma PostMirror(s: Net, e: Event)
    requires Inv(s) && Mirror(s) && Enabled(s, e) && Posts(s, e)
    ensures Mirror(Next(s, e))
  {
    NoAnswersFromNowhere(s);
    hide Inv, Broadcast, Mirror, Outstanding;
    var r, m := Next(s, e), Control.Request(e.input);
    PostedMirror(s, r, m);
  }

  lemma PostedMirror(s: Net, r: Net, m: Message)
    requires Mirror(s) && r.ctl.pending == s.ctl.pending + [m] && r.answers == s.answers
    requires r.issued == s.issued[m.id := At(s.issued, m.id) + [m]] && |At(s.answers, m.id)| <= |At(s.issued, m.id)|
    ensures Mirror(r)
  {
    forall t ensures For(r.ctl.pending, t) == Outstanding(r, t) {
      ForConcat(s.ctl.pending, [m], t);
      assert For([m], t) == if t == m.id then [m] else [];
      hide For;
    }
  }

  lemma ReplyMirror(s: Net, after: Net, r: Reply)
    requires Mirror(s) && MatchesKind(s, r)
    requires after.ctl.pending == Drop(s.ctl.pending, Hit(s, r)) && after.issued == s.issued
    requires after.answers == s.answers[r.from := At(s.answers, r.from) + [r.msg]]
    ensures Mirror(after)
  {
    hide Outstanding, Drop, Hit, For, MatchesKind, Mirror;
    HeadIsPending(s, r);
    HitRemoves(s, r);
    AnsweredOne(s, after, r);
    RemoveFirstFor(s.ctl.pending, Control.Answered(r.msg).value, r.msg.id, r.from);
    AnsweredMirror(s, after, r.from);
  }

  lemma HitRemoves(s: Net, r: Reply)
    requires r.msg.command != HeartBeat
    ensures Drop(s.ctl.pending, Hit(s, r)) ==
      Control.RemovePending(s.ctl.pending, Control.Answered(r.msg).value, r.msg.id)
  {
    Control.RemovesAt(s.ctl.pending, Control.Answered(r.msg).value, r.msg.id, Hit(s, r));
  }

  /** The command that a reply answers is the first of its node on the pending list. */
  lemma HeadIsPending(s: Net, r: Reply)
    requires Mirror(s) && MatchesKind(s, r)
    ensures Control.Answered(r.msg).Some? && |At(s.answers, r.from)| < |At(s.issued, r.from)|
    ensures var q, command := For(s.ctl.pending, r.from), Control.Answered(r.msg).value;
      && q != [] && Control.Matches(q[0], command, r.msg.id)
      && forall m :: m in s.ctl.pending && Control.Matches(m, command, r.msg.id) ==> m.id == r.from
  {
    var t, q := r.from, At(s.issued, r.from)[|At(s.answers, r.from)|];
    assert For(s.ctl.pending, t) == Outstanding(s, t) && Outstanding(s, t)[0] == q;
    hide Mirror, For, Outstanding;
    ForMember(s.ctl.pending, t, q);
  }

  lemma AnsweredMirror(s: Net, after: Net, t: int)
    requires Mirror(s) && Outstanding(s, t) != [] && Outstanding(after, t) == Outstanding(s, t)[1..]
    requires forall x :: x != t ==> Outstanding(after, x) == Outstanding(s, x)
    requires For(s.ctl.pending, t) != []
    requires forall x :: For(after.ctl.pending, x) == if x == t then For(s.ctl.pending, t)[1..] else For(s.ctl.pending, x)
    ensures Mirror(after)
  {
    hide Outstanding, For;
    forall x ensures For(after.ctl.pending, x) == Outstanding(after, x) {
      assert For(s.ctl.pending, x) == Outstanding(s, x);
    }
  }

  /** A reply settles the oldest outstanding command of its node. */
  lemma AnsweredOne(s: Net, after: Net, r: Reply)
    requires |At(s.answers, r.from)| < |At(s.issued, r.from)| && after.issued == s.issued
    requires after.answers == s.answers[r.from := At(s.answers, r.from) + [r.msg]]
    ensures var t := r.from;
      && Outstanding(s, t) != [] && Outstanding(s, t)[0] == At(s.issued, t)[|At(s.answers, t)|]
      && Outstanding(after, t) == Outstanding(s, t)[1..]
      && forall x :: x != t ==> Outstanding(after, x) == Outstanding(s, x)
  {
  }

  lemma StepMirror(s: Net, b: Books, e: Event)
    requires Inv(s) && BooksOk(s, b) && Mirror(s) && Enabled(s, e) && !e.Expire?
    ensures Mirror(Next(s, e))
  {
    hide Inv, BooksOk, Mirror, Enabled, Next;
    if Posts(s, e) {
      PostMirror(s, e);
    } else if Answer(s, e).Some? {
      ReplyMatchesKind(s, b, e.n);
      ReplyDrops(s, e.n);
      ReplyMirror(s, Next(s, e), Answer(s, e).value);
    } else {
      OtherStep(s, e);
      SameMirror(s, Next(s, e));
    }
  }

  lemma SameMirror(s: Net, r: Net)
    requires Mirror(s) && r.ctl.pending == s.ctl.pending && r.issued == s.issued && r.answers == s.answers
    ensures Mirror(r)
  {
    hide For;
    forall t ensures For(r.ctl.pending, t) == Outstanding(r, t) {
      assert Outstanding(r, t) == Outstanding(s, t);
    }
  }

  /** As long as nothing timed out, the pending entries for each node are, in order, exactly the commands
      issued to it and not yet answered: every reply takes away its own entry. */
  lemma {:induction false} EveryMirror(run: seq<Net>, events: seq<Event>, x: nat)
    requires Run(run, events) && x < |run| && NoTimeouts(events[..x])
    ensures Mirror(run[x])
    decreases x
  {
    hide Inv, Next, Enabled, Mirror, BooksOk, BooksAt;
    if x == 0 {
      NothingMirrored();
    } else {
      assert events[..x][x - 1] == events[x - 1] && forall y :: 0 <= y < x - 1 ==> events[..x - 1][y] == events[..x][y];
      EveryMirror(run, events, x - 1);
      EveryState(run, events, x - 1);
      EveryBook(run, events, x - 1);
      StepMirror(run[x - 1], BooksAt(run, events, x - 1), events[x - 1]);
    }
  }

  lemma NothingMirrored()
    ensures Mirror(Start())
  {
  }

  /** The commands of one kind. */
  function OfKind(q: seq<Message>, n: Message): seq<Message> {
    if q == [] then [] else (if SameKind(q[0], n) then [q[0]] else []) + OfKind(q[1..], n)
  }

  lemma {:induction false} OfKindFor(q: seq<Message>, n: Message)
    ensures OfKind(For(q, n.id), n) == OfKind(q, n)
    decreases |q|
  {
    if q != [] {
      OfKindFor(q[1..], n);
      var rest := For(q[1..], n.id);
      if q[0].id == n.id {
        assert ([q[0]] + rest)[0] == q[0] && ([q[0]] + rest)[1..] == rest;
      } else {
        assert [] + rest == rest && !SameKind(q[0], n);
      }
    }
  }

  /** Kind by kind, as long as nothing timed out. */
  lemma KindMirror(run: seq<Net>, events: seq<Event>, x: nat, n: Message)
    requires Run(run, events) && x < |run| && NoTimeouts(events[..x])
    ensures OfKind(run[x].ctl.pending, n) == OfKind(Outstanding(run[x], n.id), n)
  {
    EveryMirror(run, events, x);
    OfKindFor(run[x].ctl.pending, n);
    hide Run, OfKind, Outstanding;
  }

  // ----- a quiet network

  /** Nothing is on its way and only commands to -1, which no node has as its id, are pending. */
  ghost predicate Settled(s: Net) {
    && Quiet(s) && (forall m :: m in s.ctl.pending ==> m.id == -1)
    && forall t :: t in Ids(s.tree) ==>
         At(s.issued, t) == Requests(ViewOf(s.tree, t).log) && At(s.answers, t) == Replies(ViewOf(s.tree, t).log)
  }

  lemma QuietHasNoEntries(s: Net, b: Books)
    requires Inv(s) && BooksOk(s, b) && Quiet(s)
    ensures Settled(s)
  {
    NoWork(s);
    forall t | t in Ids(s.tree)
      ensures At(s.issued, t) == Requests(ViewOf(s.tree, t).log) && At(s.answers, t) == Replies(ViewOf(s.tree, t).log)
    {
      QuietMeansAnswered(s, t);
    }
    hide Inv, BooksOk, Quiet, Outstanding, ViewOf, Count;
    forall m | m in s.ctl.pending ensures m.id == -1 {
      if m.id != -1 {
        var k := To(m.command, m.id);
        PendingIsKnown(s, m);
        CountMember(s.ctl.pending, m, k);
        PendingBelowOutstanding(s, b, m.id, k);
        OutstandingIsOnTheWay(s, m.id, k);
        NothingOnTheWay(s, m.id, k);
      }
    }
  }

  lemma NothingOnTheWay(s: Net, t: int, k: Key)
    requires ViewOf(s.tree, t).down == [] && ViewOf(s.tree, t).up == []
    ensures OnTheWay(s, t, k) == 0
  {
  }

  /** A command line that addresses the controller's own id as if it were a node. */
  predicate ToMinusOne(e: Event) {
    e.Enter? && !e.input.CreateNode? && !e.input.SetBeat? && e.input.id == -1
  }

  lemma StepMinusOne(s: Net, e: Event)
    requires Inv(s) && Enabled(s, e)
    ensures At(Next(s, e).issued, -1) == At(s.issued, -1) + if ToMinusOne(e) then [Control.Request(e.input)] else []
  {
    hide TreeOk, OrderInv, IssuedInv, CreateInv, BornInv, PendingInv, Relay, Deliver, Broadcast, Append, Beat;
  }

  lemma {:induction false} IssuedToMinusOne(run: seq<Net>, events: seq<Event>, x: nat)
    requires Run(run, events) && x < |run|
    ensures At(run[x].issued, -1) == [] <==> forall y :: 0 <= y < x ==> !ToMinusOne(events[y])
    decreases x
  {
    hide Inv, Next, Enabled;
    if x > 0 {
      EveryState(run, events, x - 1);
      IssuedToMinusOne(run, events, x - 1);
      StepMinusOne(run[x - 1], events[x - 1]);
    }
  }

  lemma UnansweredExpires(s: Net, b: Books, a: Ref)
    requires EndsOk(s, b) && At(s.answers, a.to) == []
    ensures a in b.ended ==> b.ended[a].Expired?
  {
    assert a in b.ended && b.ended[a].Taken? ==> TakenOk(s, b, a, b.ended[a].reply);
  }

  /** Only a timeout takes away an entry for -1. */
  lemma MinusOneExpires(s: Net, b: Books)
    requires Inv(s) && BooksOk(s, b) && Settled(s)
    ensures s.ctl.pending == [] <==>
      forall k: nat :: k < |At(s.issued, -1)| ==> Ref(-1, k) in b.ended && b.ended[Ref(-1, k)].Expired?
  {
    NoAnswersFromNowhere(s);
    hide Inv, Open, Quiet;
    forall k: nat | k < |At(s.issued, -1)|
      ensures Ref(-1, k) in b.refs || (Ref(-1, k) in b.ended && b.ended[Ref(-1, k)].Expired?)
    {
      UnansweredExpires(s, b, Ref(-1, k));
    }
    if s.ctl.pending != [] {
      assert Stands(s, b.refs[0], s.ctl.pending[0]) && s.ctl.pending[0] in s.ctl.pending;
      assert b.refs[0] == Ref(-1, b.refs[0].index) && b.refs[0] in b.refs;
    }
  }

  /** In every run, timeouts included, a quiet network has executed and answered every command, and its
      pending list is empty if and only if every command that was addressed to -1 timed out; so it is empty
      when no command was. As long as nothing timed out the list holds exactly the commands to -1. */
  lemma QuietPending(run: seq<Net>, events: seq<Event>, x: nat)
    requires Run(run, events) && x < |run| && Quiet(run[x])
    ensures var s, b := run[x], BooksAt(run, events, x);
      && Settled(s)
      && (s.ctl.pending == [] <==>
            forall k: nat :: k < |At(s.issued, -1)| ==> Ref(-1, k) in b.ended && b.ended[Ref(-1, k)].Expired?)
      && ((forall y :: 0 <= y < x ==> !ToMinusOne(events[y])) ==> s.ctl.pending == [])
      && (NoTimeouts(events[..x]) ==> s.ctl.pending == At(s.issued, -1))
      && (NoTimeouts(events[..x]) ==> (s.ctl.pending == [] <==> forall y :: 0 <= y < x ==> !ToMinusOne(events[y])))
  {
    var s, b := run[x], BooksAt(run, events, x);
    EveryState(run, events, x);
    EveryBook(run, events, x);
    hide Inv, BooksOk, Run, BooksAt, Settled, Quiet, NoTimeouts;
    QuietHasNoEntries(s, b);
    MinusOneExpires(s, b);
    IssuedToMinusOne(run, events, x);
    if NoTimeouts(events[..x]) {
      EveryMirror(run, events, x);
      MirroredToMinusOne(s);
    }
  }

  lemma MirroredToMinusOne(s: Net)
    requires Inv(s) && Mirror(s) && Settled(s)
    ensures s.ctl.pending == At(s.issued, -1)
  {
    NoAnswersFromNowhere(s);
    hide Inv, Quiet;
    AllForMinusOne(s.ctl.pending);
    assert For(s.ctl.pending, -1) == Outstanding(s, -1);
  }

  lemma {:induction false} AllForMinusOne(q: seq<Message>)
    requires forall m :: m in q ==> m.id == -1
    ensures For(q, -1) == q
    decreases |q|
  {
    if q != [] {
      assert q[0] in q;
      AllForMinusOne(q[1..]);
    }
  }

  /** A ping of -1, which is always a known id, stays pending in a quiet network. */
  lemma PingOfMinusOneStays() returns (run: seq<Net>, events: seq<Event>)
    ensures Run(run, events) && NoTimeouts(events)
    ensures Quiet(run[|run| - 1]) && run[|run| - 1].ctl.pending == [Message(Ping, -1, 0, "")]
  {
    events := [Enter(Control.PingNode(-1))];
    run := [Start(), Next(Start(), events[0])];
  }

  // ----- coming to rest

  /** A run that no delivery can extend has settled. */
  lemma StuckIsSettled(run: seq<Net>, events: seq<Event>)
    requires Run(run, events)
    requires forall n :: !Enabled(run[|events|], Down(n, 0)) && !Enabled(run[|events|], Up(n))
    ensures Settled(run[|events|])
    ensures NoneToMinusOne(events) ==> run[|events|].ctl.pending == []
  {
    var s := run[|events|];
    if !Quiet(s) {
      var e := NotQuietMoves(s);
    }
    QuietIsSettled(run, events);
  }

  lemma QuietIsSettled(run: seq<Net>, events: seq<Event>)
    requires Run(run, events) && Quiet(run[|events|])
    ensures Settled(run[|events|])
    ensures NoneToMinusOne(events) ==> run[|events|].ctl.pending == []
  {
    assert |run| == |events| + 1;
    hide Run, Settled, Quiet, BooksAt;
    QuietPending(run, events, |events|);
  }

  ghost predicate NoneToMinusOne(events: seq<Event>) {
    forall y :: 0 <= y < |events| ==> !ToMinusOne(events[y])
  }

  /** While the network is not quiet, an internal step; then nothing more. */
  ghost predicate GoesOn(s: Net, e: Event, r: Net) {
    if Quiet(s) then r == s else Enabled(s, e) && Internal(e) && r == Next(s, e)
  }

  /** However the internal steps are chosen, a reachable network to which no more commands are given
      settles. */
  lemma EverySettles(past: seq<Net>, done: seq<Event>, run: nat -> Net, events: nat -> Event) returns (x: nat)
    requires Run(past, done) && run(0) == past[|done|]
    requires forall y: nat :: GoesOn(run(y), events(y), run(y + 1))
    ensures Settled(run(x))
    ensures NoneToMinusOne(done) ==> run(x).ctl.pending == []
  {
    x := SettlesFrom(past, done, run, events, 0);
  }

  lemma NotToMinusOne(s: Net, e: Event, r: Net)
    requires GoesOn(s, e, r)
    ensures !Quiet(s) ==> !ToMinusOne(e) && Enabled(s, e) && Internal(e) && r == Next(s, e)
  {
    hide Enabled, Next, Quiet;
  }

  lemma RunOn(past: seq<Net>, done: seq<Event>, e: Event, r: Net)
    requires Run(past, done) && Enabled(past[|done|], e) && r == Next(past[|done|], e)
    ensures Run(past + [r], done + [e]) && (past + [r])[|done| + 1] == r
    ensures NoneToMinusOne(done) && !ToMinusOne(e) ==> NoneToMinusOne(done + [e])
  {
    hide Enabled, Next;
  }

  lemma {:induction false} SettlesFrom(past: seq<Net>, done: seq<Event>, run: nat -> Net, events: nat -> Event, from: nat)
    returns (x: nat)
    requires Run(past, done) && run(from) == past[|done|]
    requires forall y: nat :: GoesOn(run(y), events(y), run(y + 1))
    ensures Settled(run(x))
    ensures NoneToMinusOne(done) ==> run(x).ctl.pending == []
    decreases Unborn(run(from)), Work(run(from).tree, 1), |run(from).ctl.pending|
  {
    var s, e := run(from), events(from);
    assert GoesOn(s, e, run(from + 1));
    NotToMinusOne(s, e, run(from + 1));
    assert |past| == |done| + 1;
    hide Inv, Enabled, Next, Work, Unborn, Settled, Quiet, Run, BooksAt, GoesOn, ToMinusOne, NoneToMinusOne;
    if Quiet(s) {
      QuietIsSettled(past, done);
      x := from;
    } else {
      EveryState(past, done, |done|);
      InternalDecreases(s, e);
      RunOn(past, done, e, run(from + 1));
      x := SettlesFrom(past + [run(from + 1)], done + [e], run, events, from + 1);
    }
  }

  // ----- a sweep of the pending list

  /** One call of check_pending_messages is a sequence of timeouts. */
  lemma SweepIsTimeouts(s: Net, expired: seq<bool>) returns (run: seq<Net>, events: seq<Event>)
    requires |expired| == |s.ctl.pending|
    ensures Path(run, events) && run[0] == s && forall y :: 0 <= y < |events| ==> events[y].Expire?
    ensures run[|events|] == s.(ctl := s.ctl.(pending := Control.Unexpired(s.ctl.pending, expired)))
  {
    run, events := SweepFrom(s, [], s.ctl.pending, expired);
  }

  lemma {:induction false} SweepFrom(s: Net, kept: seq<Message>, rest: seq<Message>, expired: seq<bool>)
    returns (run: seq<Net>, events: seq<Event>)
    requires s.ctl.pending == kept + rest && |expired| == |rest|
    ensures Path(run, events) && run[0] == s && forall y :: 0 <= y < |events| ==> events[y].Expire?
    ensures run[|events|] == s.(ctl := s.ctl.(pending := kept + Control.Unexpired(rest, expired)))
    decreases |rest|
  {
    hide Enabled, Next, Path;
    if rest == [] {
      run, events := [s], [];
      assert Path(run, events) by { NoSteps(s); }
    } else if expired[0] {
      var r := s.(ctl := s.ctl.(pending := kept + rest[1..]));
      TimesOut(s, kept, rest);
      var run', events' := SweepFrom(r, kept, rest[1..], expired[1..]);
      PathFrom(s, Expire(|kept|), run', events');
      run, events := [s] + run', [Expire(|kept|)] + events';
    } else {
      run, events := SweepFrom(s, kept + [rest[0]], rest[1..], expired[1..]);
      assert (kept + [rest[0]]) + Control.Unexpired(rest[1..], expired[1..]) == kept + Control.Unexpired(rest, expired);
    }
  }

  lemma TimesOut(s: Net, kept: seq<Message>, rest: seq<Message>)
    requires s.ctl.pending == kept + rest && rest != []
    ensures Enabled(s, Expire(|kept|))
    ensures Next(s, Expire(|kept|)) == s.(ctl := s.ctl.(pending := kept + rest[1..]))
  {
    assert s.ctl.pending[..|kept|] == kept && s.ctl.pending[|kept| + 1..] == rest[1..];
  }
}
