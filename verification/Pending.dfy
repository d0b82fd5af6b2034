/** The pending list of the Lab 5 controller: which command each entry stands for, what takes it away,
    and what is left when the network is quiet. */
module Pending {
  import opened Messages
  import opened Wrappers
  import opened Tree
  import opened Network
  import opened Protocol
  import Nodes
  import Control

  // ----- history: the command behind each entry

  /** The index-th command issued to a node. */
  datatype Ref = Ref(to: int, index: nat)

  /** An entry left the list by timeout, or with the k-th reply of its node. */
  datatype End = Expired | Taken(reply: nat)

  /** refs[i] is the command of the i-th pending entry; ended says what became of all other entries. */
  datatype Books = Books(refs: seq<Ref>, ended: map<Ref, End>)

  /** The index at which find_if stops. */
  function FirstMatch(q: seq<Message>, command: Command, id: int): (i: nat)
    ensures i <= |q| && (i < |q| ==> Control.Matches(q[i], command, id))
    ensures forall j :: 0 <= j < i ==> !Control.Matches(q[j], command, id)
  {
    if q == [] || Control.Matches(q[0], command, id) then 0 else 1 + FirstMatch(q[1..], command, id)
  }

  /** The sequence without its i-th element, if there is one. */
  function Drop<T>(q: seq<T>, i: nat): (r: seq<T>)
    ensures i < |q| ==> |r| == |q| - 1
  {
    if i < |q| then q[..i] + q[i + 1..] else q
  }

  /** The reply to a command that a step hands to the controller. */
  function Answer(s: Net, e: Event): Option<Reply> {
    if e.Up? && Relay(s.tree, e.n).1 != [] && Relay(s.tree, e.n).1[0].msg.command != HeartBeat
    then Some(Relay(s.tree, e.n).1[0]) else None
  }

  /** The index of the entry that a reply takes away; past the end when there is none. */
  function Hit(s: Net, r: Reply): (i: nat)
    requires r.msg.command != HeartBeat
    ensures i <= |s.ctl.pending|
  {
    FirstMatch(s.ctl.pending, Control.Answered(r.msg).value, r.msg.id)
  }

  /** The step puts its command on the pending list. */
  predicate Posts(s: Net, e: Event) {
    e.Enter? && !Control.Refused(s.ctl.nodeIds, e.input) && !Control.Local(e.input) && !e.input.SetBeat?
  }

  function Close(b: Books, i: nat, end: End): Books {
    if i < |b.refs| then Books(Drop(b.refs, i), b.ended[b.refs[i] := end]) else b
  }

  /** The books after a step. */
  function Keep(s: Net, b: Books, e: Event): Books {
    if Posts(s, e) then
      var m := Control.Request(e.input);
      b.(refs := b.refs + [Ref(m.id, |At(s.issued, m.id)|)])
    else if e.Expire? then Close(b, e.index, Expired)
    else match Answer(s, e)
      case Some(r) => Close(b, Hit(s, r), Taken(|At(s.answers, r.from)|))
      case None => b
  }

  ghost function BooksAt(run: seq<Net>, events: seq<Event>, x: nat): Books
    requires |run| == |events| + 1 && x < |run|
  {
    if x == 0 then Books([], map[]) else Keep(run[x - 1], BooksAt(run, events, x - 1), events[x - 1])
  }

  // ----- what the books keep

  ghost predicate Stands(s: Net, r: Ref, m: Message) {
    r.to == m.id && r.index < |At(s.issued, r.to)| && At(s.issued, r.to)[r.index] == m
  }

  /** Entries for one node are in the order of issue. */
  ghost predicate Ordered(refs: seq<Ref>) {
    forall i, j :: 0 <= i < j < |refs| && refs[i].to == refs[j].to ==> refs[i].index < refs[j].index
  }

  /** Same command, same addressee, and for a create the same child. */
  predicate SameKind(m: Message, n: Message) {
    m.command == n.command && m.id == n.id && (m.command == Create ==> m.data == n.data)
  }

  /** An entry goes with the reply to its own command, or with an earlier one whose entry had gone. */
  ghost predicate TakenOk(s: Net, b: Books, r: Ref, k: nat) {
    && k <= r.index < |At(s.issued, r.to)| && k < |At(s.answers, r.to)|
    && SameKind(At(s.issued, r.to)[k], At(s.issued, r.to)[r.index])
    && (k < r.index ==>
          && Ref(r.to, k) in b.ended
          && (b.ended[Ref(r.to, k)].Taken? ==> b.ended[Ref(r.to, k)].reply < k))
  }

  ghost predicate Matched(s: Net, b: Books) {
    && |b.refs| == |s.ctl.pending| && Ordered(b.refs)
    && forall i :: 0 <= i < |b.refs| ==> Stands(s, b.refs[i], s.ctl.pending[i])
  }

  /** Every command ever issued is pending or has ended, and not both. */
  ghost predicate Complete(s: Net, b: Books) {
    && (forall r :: r in b.ended ==> r.index < |At(s.issued, r.to)| && r !in b.refs)
    && forall t, k: nat :: k < |At(s.issued, t)| ==> Ref(t, k) in b.refs || Ref(t, k) in b.ended
  }

  /** No answered command is pending. */
  ghost predicate Open(s: Net, b: Books) {
    forall i :: 0 <= i < |b.refs| ==> |At(s.answers, b.refs[i].to)| <= b.refs[i].index
  }

  ghost predicate EndsOk(s: Net, b: Books) {
    forall r :: r in b.ended && b.ended[r].Taken? ==> TakenOk(s, b, r, b.ended[r].reply)
  }

  ghost predicate BooksOk(s: Net, b: Books) {
    Matched(s, b) && Complete(s, b) && Open(s, b) && EndsOk(s, b)
  }

  // ----- every step keeps them

  lemma DropAt<T>(q: seq<T>, i: nat, j: nat)
    requires i < |q| && j < |q| - 1
    ensures Drop(q, i)[j] == q[if j < i then j else j + 1]
  {
  }

  lemma DropMembers(refs: seq<Ref>, i: nat)
    requires Ordered(refs) && i < |refs|
    ensures forall r :: r in Drop(refs, i) <==> r in refs && r != refs[i]
  {
    var d := Drop(refs, i);
    forall r | r in refs && r != refs[i] ensures r in d {
      var j :| 0 <= j < |refs| && refs[j] == r;
      var k := if j < i then j else j - 1;
      DropAt(refs, i, k);
      assert d[k] in d;
    }
    hide Drop;
    forall j: nat | j < |d| ensures d[j] in refs && d[j] != refs[i] {
      DropAt(refs, i, j);
    }
  }

  lemma DropOrdered(refs: seq<Ref>, i: nat)
    requires Ordered(refs) && i < |refs|
    ensures Ordered(Drop(refs, i))
  {
    var d := Drop(refs, i);
    hide Drop;
    forall j: nat, k: nat | j < k < |d| && d[j].to == d[k].to ensures d[j].index < d[k].index {
      DropAt(refs, i, j);
      DropAt(refs, i, k);
    }
  }

  lemma DropMatched(s: Net, b: Books, r: Net, i: nat, end: End)
    requires Matched(s, b) && i < |b.refs| && r.issued == s.issued && r.ctl.pending == Drop(s.ctl.pending, i)
    ensures Matched(r, Close(b, i, end))
  {
    DropOrdered(b.refs, i);
    hide Ordered, Drop;
    forall j: nat | j < |b.refs| - 1 ensures Stands(r, Drop(b.refs, i)[j], r.ctl.pending[j]) {
      DropAt(b.refs, i, j);
      DropAt(s.ctl.pending, i, j);
      var k := if j < i then j else j + 1;
      assert Stands(s, b.refs[k], s.ctl.pending[k]);
    }
  }

  lemma CloseComplete(s: Net, b: Books, r: Net, i: nat, end: End)
    requires Matched(s, b) && Complete(s, b) && i < |b.refs| && r.issued == s.issued
    ensures Complete(r, Close(b, i, end)) && b.refs[i] !in b.ended
  {
    DropMembers(b.refs, i);
    assert b.refs[i] in b.refs && Stands(s, b.refs[i], s.ctl.pending[i]);
    hide Drop, Matched, Ordered;
    forall t, k: nat | k < |At(r.issued, t)|
      ensures Ref(t, k) in Close(b, i, end).refs || Ref(t, k) in Close(b, i, end).ended
    {
      assert Ref(t, k) in b.refs || Ref(t, k) in b.ended;
    }
  }

  /** Later answers and one more ended entry leave the account of the other entries valid. */
  lemma TakenStays(s: Net, b: Books, r: Net, c: Books, x: Ref, k: nat)
    requires TakenOk(s, b, x, k) && r.issued == s.issued && |At(s.answers, x.to)| <= |At(r.answers, x.to)|
    requires forall y :: y in b.ended ==> y in c.ended && c.ended[y] == b.ended[y]
    ensures TakenOk(r, c, x, k)
  {
  }

  lemma CloseKeeps(s: Net, b: Books, r: Net, i: nat, end: End)
    requires BooksOk(s, b) && i < |b.refs| && r.issued == s.issued && r.ctl.pending == Drop(s.ctl.pending, i)
    requires forall t :: |At(s.answers, t)| <= |At(r.answers, t)|
    requires Open(r, Close(b, i, end)) && (end.Taken? ==> TakenOk(r, b, b.refs[i], end.reply))
    ensures BooksOk(r, Close(b, i, end))
  {
    var c := Close(b, i, end);
    DropMatched(s, b, r, i, end);
    CloseComplete(s, b, r, i, end);
    hide Matched, Complete, Open, Drop, TakenOk;
    forall x | x in c.ended && c.ended[x].Taken? ensures TakenOk(r, c, x, c.ended[x].reply) {
      TakenStays(if x == b.refs[i] then r else s, b, r, c, x, c.ended[x].reply);
    }
  }

  lemma ExpireKeeps(s: Net, b: Books, i: nat)
    requires BooksOk(s, b) && Enabled(s, Expire(i))
    ensures BooksOk(Next(s, Expire(i)), Close(b, i, Expired))
  {
    var r := Next(s, Expire(i));
    hide Complete, EndsOk;
    forall j: nat | j < |b.refs| - 1
      ensures |At(r.answers, Drop(b.refs, i)[j].to)| <= Drop(b.refs, i)[j].index
    {
      DropAt(b.refs, i, j);
    }
    hide Matched, Open, BooksOk;
    CloseKeeps(s, b, r, i, Expired);
  }

  lemma PostKeeps(s: Net, b: Books, e: Event)
    requires Inv(s) && BooksOk(s, b) && Enabled(s, e) && Posts(s, e)
    ensures BooksOk(Next(s, e), Keep(s, b, e))
  {
    NoAnswersFromNowhere(s);
    hide Inv, Broadcast, BooksOk;
    PostedKeeps(s, b, Next(s, e), Control.Request(e.input));
  }

  /** There are never more answers than commands. */
  lemma NoAnswersFromNowhere(s: Net)
    requires Inv(s)
    ensures forall t :: |At(s.answers, t)| <= |At(s.issued, t)|
    ensures At(s.answers, -1) == []
  {
    hide TreeOk, IssuedInv, CreateInv, BornInv, PendingInv;
    assert -1 !in Ids(s.tree);
    forall t ensures |At(s.answers, t)| <= |At(s.issued, t)| {
      AnswersFit(s, t);
    }
  }

  lemma PostedKeeps(s: Net, b: Books, r: Net, m: Message)
    requires BooksOk(s, b) && r.ctl.pending == s.ctl.pending + [m]
    requires r.issued == s.issued[m.id := At(s.issued, m.id) + [m]] && r.answers == s.answers
    requires |At(s.answers, m.id)| <= |At(s.issued, m.id)|
    ensures BooksOk(r, b.(refs := b.refs + [Ref(m.id, |At(s.issued, m.id)|)]))
  {
    hide BooksOk, Matched, Complete, Open, EndsOk;
    assert Matched(s, b) && Complete(s, b) && Open(s, b) && EndsOk(s, b) by { BooksParts(s, b); }
    var c := b.(refs := b.refs + [Ref(m.id, |At(s.issued, m.id)|)]);
    PostedMatched(s, b, r, m);
    PostedComplete(s, b, r, m);
    PostedOpen(s, b, r, m);
    PostedEnds(s, b, r, m);
    BooksParts(r, c);
  }

  lemma BooksParts(s: Net, b: Books)
    ensures BooksOk(s, b) <==> Matched(s, b) && Complete(s, b) && Open(s, b) && EndsOk(s, b)
  {
  }

  lemma PostedMatched(s: Net, b: Books, r: Net, m: Message)
    requires Matched(s, b) && r.ctl.pending == s.ctl.pending + [m]
    requires r.issued == s.issued[m.id := At(s.issued, m.id) + [m]]
    ensures Matched(r, b.(refs := b.refs + [Ref(m.id, |At(s.issued, m.id)|)]))
  {
    var c := b.(refs := b.refs + [Ref(m.id, |At(s.issued, m.id)|)]);
    forall i | 0 <= i < |c.refs| ensures Stands(r, c.refs[i], r.ctl.pending[i]) {
      assert i < |b.refs| ==> Stands(s, b.refs[i], s.ctl.pending[i]);
    }
    assert forall i :: 0 <= i < |b.refs| ==> Stands(s, b.refs[i], s.ctl.pending[i]);
  }

  lemma PostedComplete(s: Net, b: Books, r: Net, m: Message)
    requires Complete(s, b) && r.issued == s.issued[m.id := At(s.issued, m.id) + [m]]
    ensures Complete(r, b.(refs := b.refs + [Ref(m.id, |At(s.issued, m.id)|)]))
  {
    var refs := b.refs + [Ref(m.id, |At(s.issued, m.id)|)];
    forall t, k: nat | k < |At(r.issued, t)| ensures Ref(t, k) in refs || Ref(t, k) in b.ended {
      if k < |At(s.issued, t)| {
        assert Ref(t, k) in b.refs || Ref(t, k) in b.ended;
      } else {
        assert Ref(t, k) == refs[|b.refs|];
      }
    }
  }

  lemma PostedOpen(s: Net, b: Books, r: Net, m: Message)
    requires Open(s, b) && r.answers == s.answers && |At(s.answers, m.id)| <= |At(s.issued, m.id)|
    ensures Open(r, b.(refs := b.refs + [Ref(m.id, |At(s.issued, m.id)|)]))
  {
  }

  lemma PostedEnds(s: Net, b: Books, r: Net, m: Message)
    requires EndsOk(s, b) && r.issued == s.issued[m.id := At(s.issued, m.id) + [m]] && r.answers == s.answers
    ensures EndsOk(r, b.(refs := b.refs + [Ref(m.id, |At(s.issued, m.id)|)]))
  {
    forall x | x in b.ended && b.ended[x].Taken?
      ensures TakenOk(r, b.(refs := b.refs + [Ref(m.id, |At(s.issued, m.id)|)]), x, b.ended[x].reply)
    {
      assert TakenOk(s, b, x, b.ended[x].reply);
    }
  }

  // ----- a reply

  /** A pending create names the node its child hangs below. */
  lemma PendingParent(s: Net, b: Books, m: Message)
    requires Inv(s) && BooksOk(s, b) && m in s.ctl.pending && m.command == Create
    ensures m.id != -1 && m.data in s.parentOf && s.parentOf[m.data] == m.id
  {
    hide TreeInv, OrderInv, IssuedInv, BornInv, Complete, Open, EndsOk;
    var i :| 0 <= i < |s.ctl.pending| && s.ctl.pending[i] == m;
    assert Stands(s, b.refs[i], m);
    assert m in At(s.issued, m.id);
    CountMember(At(s.issued, m.id), m, NewChild(m.data));
    hide Count, Matched;
  }

  /** The command that a reply answers: the oldest one of its node without an answer. */
  function Cause(s: Net, r: Reply): Ref {
    Ref(r.from, |At(s.answers, r.from)|)
  }

  /** A reply matches exactly the pending entries of the kind of the command it answers. */
  ghost predicate MatchesKind(s: Net, r: Reply) {
    var a := Cause(s, r);
    && r.msg.command != HeartBeat && a.index < |At(s.issued, a.to)|
    && var q := At(s.issued, a.to)[a.index];
       && Control.Answered(r.msg) == Some(q.command) && q.id == a.to
       && forall m :: m in s.ctl.pending ==> (Control.Matches(m, q.command, r.msg.id) <==> SameKind(m, q))
  }

  lemma ReplyMatchesKind(s: Net, b: Books, n: int)
    requires Inv(s) && BooksOk(s, b) && Answer(s, Up(n)).Some?
    ensures MatchesKind(s, Answer(s, Up(n)).value)
  {
    hide TreeOk, OrderInv, IssuedInv, CreateInv, BornInv, PendingInv, Relay, BooksOk, MatchesKind;
    RelayViews(s.tree, n, s.ctl.nodeIds);
    var (tree, out) := Relay(s.tree, n);
    assert out == [out[0]];
    RelayedMatchesKind(s, b, tree, out[0]);
  }

  lemma RelayedMatchesKind(s: Net, b: Books, tree: Forest, r: Reply)
    requires Inv(s) && BooksOk(s, b) && Relayed(s.tree, tree, [r]) && r.msg.command != HeartBeat
    ensures MatchesKind(s, r)
  {
    hide OrderInv, IssuedInv, CreateInv, BornInv, PendingInv, ViewOf, DownOk, UpOk, BooksOk;
    NextAnswer(s, tree, r);
    hide Unique, NodesOk;
    var q := At(s.issued, r.from)[|At(s.answers, r.from)|];
    AnswerMatches(s, r.from, q, r.msg);
    var k := if q.command == Create then NewChild(q.data) else To(q.command, r.from);
    MatchesOneKey(s, r.from, q, r.msg, k);
    forall m | m in s.ctl.pending ensures Control.Matches(m, q.command, r.msg.id) <==> SameKind(m, q) {
      if m.command == Create {
        PendingParent(s, b, m);
      }
    }
  }

  /** The entry that a reply takes away is of the right kind and not older than the command it answers. It
      is the entry of that very command if this one is still pending. */
  lemma HitIsOldest(s: Net, b: Books, r: Reply)
    requires BooksOk(s, b) && MatchesKind(s, r)
    ensures var a, i := Cause(s, r), Hit(s, r);
      && (i < |b.refs| ==>
            && b.refs[i].to == a.to && a.index <= b.refs[i].index < |At(s.issued, a.to)|
            && SameKind(At(s.issued, a.to)[b.refs[i].index], At(s.issued, a.to)[a.index]))
      && (a in b.refs ==> i < |b.refs| && b.refs[i] == a)
  {
    hide Complete, EndsOk;
    var a, i, q := Cause(s, r), Hit(s, r), At(s.issued, r.from)[|At(s.answers, r.from)|];
    if i < |b.refs| {
      assert Stands(s, b.refs[i], s.ctl.pending[i]) && s.ctl.pending[i] in s.ctl.pending;
    }
    if a in b.refs {
      var j :| 0 <= j < |b.refs| && b.refs[j] == a;
      assert Stands(s, b.refs[j], s.ctl.pending[j]) && s.ctl.pending[j] in s.ctl.pending;
      assert Control.Matches(s.ctl.pending[j], q.command, r.msg.id);
    }
  }

  /** What the controller does with the reply is to drop the entry at the hit. */
  lemma ReplyDrops(s: Net, n: int)
    requires Enabled(s, Up(n)) && Answer(s, Up(n)).Some?
    ensures var r, after := Answer(s, Up(n)).value, Next(s, Up(n));
      && after.ctl.pending == Drop(s.ctl.pending, Hit(s, r))
      && after.issued == s.issued && after.answers == s.answers[r.from := At(s.answers, r.from) + [r.msg]]
  {
    hide Relay;
    var r := Answer(s, Up(n)).value;
    Control.RemovesAt(s.ctl.pending, Control.Answered(r.msg).value, r.msg.id, Hit(s, r));
  }

  lemma ReplyKeeps(s: Net, b: Books, after: Net, r: Reply)
    requires BooksOk(s, b) && MatchesKind(s, r)
    requires after.ctl.pending == Drop(s.ctl.pending, Hit(s, r)) && after.issued == s.issued
    requires after.answers == s.answers[r.from := At(s.answers, r.from) + [r.msg]]
    ensures BooksOk(after, Close(b, Hit(s, r), Taken(|At(s.answers, r.from)|)))
  {
    var a, i := Cause(s, r), Hit(s, r);
    var c := Close(b, i, Taken(a.index));
    HitIsOldest(s, b, r);
    ReplyOpen(s, b, after, r);
    if i < |b.refs| {
      ReplyTakenOk(s, b, after, r);
      hide BooksOk;
      CloseKeeps(s, b, after, i, Taken(a.index));
    } else {
      MissKeeps(s, b, after);
    }
  }

  lemma ReplyOpen(s: Net, b: Books, after: Net, r: Reply)
    requires BooksOk(s, b) && after.answers == s.answers[r.from := At(s.answers, r.from) + [r.msg]]
    requires MatchesKind(s, r) && (Cause(s, r) in b.refs ==> Hit(s, r) < |b.refs| && b.refs[Hit(s, r)] == Cause(s, r))
    ensures Open(after, Close(b, Hit(s, r), Taken(|At(s.answers, r.from)|)))
  {
    var i, c := Hit(s, r), Close(b, Hit(s, r), Taken(|At(s.answers, r.from)|));
    if i < |b.refs| {
      DropMembers(b.refs, i);
    }
    assert Open(s, b);
    hide BooksOk, Matched, Complete, Open, EndsOk, MatchesKind, Drop, Ordered;
    forall x | x in c.refs ensures x in b.refs && x != Cause(s, r) {
    }
    OpenAfter(s, b, after, c, r);
  }

  lemma OpenAfter(s: Net, b: Books, after: Net, c: Books, r: Reply)
    requires Open(s, b) && after.answers == s.answers[r.from := At(s.answers, r.from) + [r.msg]]
    requires forall x :: x in c.refs ==> x in b.refs && x != Cause(s, r)
    ensures Open(after, c)
  {
    forall j | 0 <= j < |c.refs| ensures |At(after.answers, c.refs[j].to)| <= c.refs[j].index {
      var x := c.refs[j];
      assert x in c.refs;
      var k :| 0 <= k < |b.refs| && b.refs[k] == x;
      assert |At(s.answers, b.refs[k].to)| <= b.refs[k].index;
    }
  }

  lemma ReplyTakenOk(s: Net, b: Books, after: Net, r: Reply)
    requires BooksOk(s, b) && MatchesKind(s, r) && Hit(s, r) < |b.refs| && after.issued == s.issued
    requires after.answers == s.answers[r.from := At(s.answers, r.from) + [r.msg]]
    ensures TakenOk(after, b, b.refs[Hit(s, r)], |At(s.answers, r.from)|)
  {
    var a, x := Cause(s, r), b.refs[Hit(s, r)];
    HitIsOldest(s, b, r);
    hide Matched, Open;
    assert a in b.refs || a in b.ended;
    assert a in b.ended && b.ended[a].Taken? ==> TakenOk(s, b, a, b.ended[a].reply);
  }

  /** A reply that hits nothing. */
  lemma MissKeeps(s: Net, b: Books, after: Net)
    requires BooksOk(s, b) && Open(after, b) && after.ctl.pending == s.ctl.pending && after.issued == s.issued
    requires forall t :: |At(s.answers, t)| <= |At(after.answers, t)|
    ensures BooksOk(after, b)
  {
    assert Matched(after, b) by {
      forall i | 0 <= i < |b.refs| ensures Stands(after, b.refs[i], after.ctl.pending[i]) {
        assert Stands(s, b.refs[i], s.ctl.pending[i]);
      }
    }
    forall x | x in b.ended && b.ended[x].Taken? ensures TakenOk(after, b, x, b.ended[x].reply) {
      TakenStays(s, b, after, b, x, b.ended[x].reply);
    }
  }

  lemma StepBooks(s: Net, b: Books, e: Event)
    requires Inv(s) && BooksOk(s, b) && Enabled(s, e)
    ensures BooksOk(Next(s, e), Keep(s, b, e))
  {
    hide Inv, BooksOk;
    if Posts(s, e) {
      PostKeeps(s, b, e);
    } else if e.Expire? {
      assert |b.refs| == |s.ctl.pending| by { BooksParts(s, b); }
      ExpireKeeps(s, b, e.index);
    } else if Answer(s, e).Some? {
      ReplyMatchesKind(s, b, e.n);
      ReplyDrops(s, e.n);
      ReplyKeeps(s, b, Next(s, e), Answer(s, e).value);
    } else {
      OtherStep(s, e);
      BooksParts(s, b);
      MissKeeps(s, b, Next(s, e));
    }
  }

  lemma OtherStep(s: Net, e: Event)
    requires Enabled(s, e) && !Posts(s, e) && !e.Expire? && Answer(s, e).None?
    ensures var r := Next(s, e); r.ctl.pending == s.ctl.pending && r.issued == s.issued && r.answers == s.answers
  {
    hide Relay, Deliver, Broadcast, Append, Beat;
  }

  /** The books are right in every state of every run. */
  lemma {:induction false} EveryBook(run: seq<Net>, events: seq<Event>, x: nat)
    requires Run(run, events) && x < |run|
    ensures BooksOk(run[x], BooksAt(run, events, x))
    decreases x
  {
    hide Inv, Next, Enabled, BooksOk, Keep;
    if x == 0 {
      NoBooks();
    } else {
      EveryBook(run, events, x - 1);
      EveryState(run, events, x - 1);
      StepBooks(run[x - 1], BooksAt(run, events, x - 1), events[x - 1]);
    }
  }

  lemma NoBooks()
    ensures BooksOk(Start(), Books([], map[]))
  {
  }

  // ----- which entry a reply takes away

  /** The entry that goes is that of the command the reply answers. */
  ghost predicate TakesItsOwn(s: Net, b: Books, r: Reply) {
    r.msg.command != HeartBeat && Hit(s, r) < |b.refs| && b.refs[Hit(s, r)] == Cause(s, r)
  }

  /** The entry of a command of this kind, issued to the same node no later, timed out. */
  ghost predicate TimedOutBefore(s: Net, b: Books, a: Ref)
    requires a.index < |At(s.issued, a.to)|
  {
    exists j: nat :: j <= a.index && Ref(a.to, j) in b.ended && b.ended[Ref(a.to, j)].Expired?
                     && SameKind(At(s.issued, a.to)[j], At(s.issued, a.to)[a.index])
  }

  /** Over every run, timeouts included: a reply takes away the entry of the command it answers if and only
      if that entry is still there, that is, neither timed out nor went with an earlier reply. Otherwise it
      takes nothing or an entry of the same kind for a later command. It goes wrong only after an entry of
      the same kind timed out; for a create, only when its own entry did. */
  lemma ReplyTakes(run: seq<Net>, events: seq<Event>, x: nat)
    requires Run(run, events) && x < |events| && Answer(run[x], events[x]).Some?
    ensures
      var s, b, r := run[x], BooksAt(run, events, x), Answer(run[x], events[x]).value;
      var a, i := Cause(s, r), Hit(s, r);
      && |b.refs| == |s.ctl.pending| && a.index < |At(s.issued, a.to)|
      && run[x + 1].ctl.pending == Drop(s.ctl.pending, i)
      && (TakesItsOwn(s, b, r) <==> a !in b.ended)
      && (i < |b.refs| && !TakesItsOwn(s, b, r) ==>
            && b.refs[i].to == a.to && a.index < b.refs[i].index < |At(s.issued, a.to)|
            && SameKind(At(s.issued, a.to)[b.refs[i].index], At(s.issued, a.to)[a.index]))
      && (!TakesItsOwn(s, b, r) ==> TimedOutBefore(s, b, a))
      && (At(s.issued, a.to)[a.index].command == Create ==>
            (TakesItsOwn(s, b, r) <==> !(a in b.ended && b.ended[a].Expired?)))
  {
    var s, b, r := run[x], BooksAt(run, events, x), Answer(run[x], events[x]).value;
    EveryState(run, events, x);
    EveryBook(run, events, x);
    hide Inv, BooksOk, Next, Enabled, BooksAt, Run, Hit, TimedOutBefore, TakesItsOwn;
    ReplyMatchesKind(s, b, events[x].n);
    StepDrops(run, events, x);
    ReplyTakesHere(s, b, r);
  }

  lemma StepDrops(run: seq<Net>, events: seq<Event>, x: nat)
    requires Run(run, events) && x < |events| && Answer(run[x], events[x]).Some?
    ensures run[x + 1].ctl.pending == Drop(run[x].ctl.pending, Hit(run[x], Answer(run[x], events[x]).value))
  {
    hide Next, Drop, Hit, Enabled;
    ReplyDrops(run[x], events[x].n);
  }

  lemma ReplyTakesHere(s: Net, b: Books, r: Reply)
    requires Inv(s) && BooksOk(s, b) && MatchesKind(s, r)
    ensures var a, i := Cause(s, r), Hit(s, r);
      && |b.refs| == |s.ctl.pending| && a.index < |At(s.issued, a.to)|
      && (TakesItsOwn(s, b, r) <==> a !in b.ended)
      && (i < |b.refs| && !TakesItsOwn(s, b, r) ==>
            && b.refs[i].to == a.to && a.index < b.refs[i].index < |At(s.issued, a.to)|
            && SameKind(At(s.issued, a.to)[b.refs[i].index], At(s.issued, a.to)[a.index]))
      && (!TakesItsOwn(s, b, r) ==> TimedOutBefore(s, b, a))
      && (At(s.issued, a.to)[a.index].command == Create ==>
            (TakesItsOwn(s, b, r) <==> !(a in b.ended && b.ended[a].Expired?)))
  {
    var a := Cause(s, r);
    HitIsOldest(s, b, r);
    OneOrTheOther(s, b, a);
    if a in b.ended {
      TimeoutBehind(s, b, a);
      if At(s.issued, a.to)[a.index].command == Create {
        CreateEndsOnce(s, b, a);
      }
    }
    hide Inv, BooksOk, Hit, TimedOutBefore;
  }

  lemma OneOrTheOther(s: Net, b: Books, a: Ref)
    requires BooksOk(s, b) && a.index < |At(s.issued, a.to)|
    ensures a in b.refs <==> a !in b.ended
    ensures |b.refs| == |s.ctl.pending|
    ensures a in b.ended && b.ended[a].Taken? ==> TakenOk(s, b, a, b.ended[a].reply)
  {
    hide Open;
    assert a == Ref(a.to, a.index);
  }

  /** An entry that ended before the reply to its command came, ended because of a timeout. */
  lemma {:induction false} TimeoutBehind(s: Net, b: Books, a: Ref)
    requires BooksOk(s, b) && a.index < |At(s.issued, a.to)| && a in b.ended
    requires b.ended[a].Taken? ==> b.ended[a].reply < a.index || |At(s.answers, a.to)| <= a.index
    ensures TimedOutBefore(s, b, a)
    decreases a.index
  {
    OneOrTheOther(s, b, a);
    if b.ended[a].Taken? {
      var c := Ref(a.to, b.ended[a].reply);
      hide BooksOk;
      TimeoutBehind(s, b, c);
      var j: nat :| j <= c.index && Ref(a.to, j) in b.ended && b.ended[Ref(a.to, j)].Expired?
                    && SameKind(At(s.issued, a.to)[j], At(s.issued, a.to)[c.index]);
    } else {
      assert Ref(a.to, a.index) == a;
    }
  }

  lemma CountTwice(q: seq<Message>, i: nat, j: nat, k: Key)
    requires i < j < |q| && Fits(q[i], k) && Fits(q[j], k)
    ensures Count(q, k) >= 2
  {
    assert q == q[..j] + q[j..];
    CountConcat(q[..j], q[j..], k);
    assert q[..j][i] in q[..j] && q[j..][0] in q[j..];
    CountMember(q[..j], q[i], k);
    CountMember(q[j..], q[j], k);
  }

  /** No two create commands to a node are of one kind. */
  lemma CreateEndsOnce(s: Net, b: Books, a: Ref)
    requires Inv(s) && BooksOk(s, b) && a.index < |At(s.issued, a.to)| && a in b.ended
    requires |At(s.answers, a.to)| <= a.index && At(s.issued, a.to)[a.index].command == Create
    ensures b.ended[a].Expired?
  {
    NoAnswersFromNowhere(s);
    OneOrTheOther(s, b, a);
    AskedOnce(s, a.to, At(s.issued, a.to)[a.index].data);
    hide Inv, BooksOk, Count;
    if b.ended[a].Taken? {
      CountTwice(At(s.issued, a.to), b.ended[a].reply, a.index, NewChild(At(s.issued, a.to)[a.index].data));
    }
  }

  lemma AskedOnce(s: Net, t: int, c: int)
    requires Inv(s)
    ensures t != -1 ==> Count(At(s.issued, t), NewChild(c)) <= 1
  {
    hide TreeInv, OrderInv, IssuedInv, BornInv, PendingInv, Count;
  }

  /** A late reply: the first find times out, a second one is issued, and the reply to the first takes the
      entry of the second, which is not answered yet. */
  lemma LateReplyTakesLaterEntry() returns (run: seq<Net>, events: seq<Event>)
    ensures Run(run, events) && run[|events|].ctl.pending == []
    ensures var s, b := run[|events|], BooksAt(run, events, |events|);
      && At(s.issued, 1) == [Message(ExecFnd, 1, -1, "a"), Message(ExecFnd, 1, -1, "b")]
      && At(s.answers, 1) == [Message(ExecErr, 1, -1, "a")]
      && b.ended == map[Ref(1, 0) := Expired, Ref(1, 1) := Taken(0)]
  {
    events := [Enter(Control.CreateNode(1, -1)), Enter(Control.FindKey(1, "a")), Expire(0),
               Enter(Control.FindKey(1, "b")), Down(1, 0), Up(1)];
    run := LateReplyRun(events);
    LateReplyBooks(run, events);
  }

  /** Node 1 alone, with what was issued, what is pending, and its answers. */
  function OneNode(down: seq<Message>, up: seq<Reply>, log: seq<Exec>, pending: seq<Message>,
                   issued: map<int, seq<Message>>, answers: map<int, seq<Message>>): Net {
    Net(Control.State({-1, 1}, pending), Tree(Node(1, map[], 0, down, up, log), Nil, Nil), issued, answers, map[1 := -1])
  }

  function FindMessage(key: string): Message {
    Message(ExecFnd, 1, -1, key)
  }

  lemma OneNodeFind(key: string, q: seq<Message>, pending: seq<Message>, issued: map<int, seq<Message>>)
    requires At(issued, 1) == q
    ensures var s, m := OneNode(q, [], [], pending, issued, map[]), FindMessage(key);
      && Enabled(s, Enter(Control.FindKey(1, key)))
      && Next(s, Enter(Control.FindKey(1, key)))
           == OneNode(q + [m], [], [], pending + [m], issued[1 := q + [m]], map[])
  {
    var s, m := OneNode(q, [], [], pending, issued, map[]), FindMessage(key);
    assert Control.Request(Control.FindKey(1, key)) == m;
    assert Control.OnInput(s.ctl, Control.FindKey(1, key)) == Control.State({-1, 1}, pending + [m]);
    assert Broadcast(s.tree, m) == Tree(Node(1, map[], 0, q + [m], [], []), Nil, Nil);
    assert Next(s, Enter(Control.FindKey(1, key))).issued == issued[1 := q + [m]];
  }

  lemma OneNodeAnswers(a: Message, c: Message)
    requires a == FindMessage("a") && c == FindMessage("b")
    ensures var err := Message(ExecErr, 1, -1, "a");
      var s := OneNode([a, c], [], [], [c], map[1 := [a, c]], map[]);
      var t := OneNode([c], [Reply(1, err)], [Exec(a, err)], [c], map[1 := [a, c]], map[]);
      && Enabled(s, Down(1, 0)) && Next(s, Down(1, 0)) == t
      && Enabled(t, Up(1))
      && Next(t, Up(1)) == OneNode([c], [], [Exec(a, err)], [], map[1 := [a, c]], map[1 := [err]])
  {
    var err := Message(ExecErr, 1, -1, "a");
    var s := OneNode([a, c], [], [], [c], map[1 := [a, c]], map[]);
    var t := OneNode([c], [Reply(1, err)], [Exec(a, err)], [c], map[1 := [a, c]], map[]);
    assert Nodes.OnParent(1, map[], 0, a, 0).replies == [err];
    assert Receive(s.tree.node, Nil, 0).0 == t.tree.node;
    assert t.tree.node.up[1..] == [] && [Reply(1, err)][0] == Reply(1, err);
    assert Relay(t.tree, 1).1 == [Reply(1, err)];
    assert Relay(t.tree, 1).0 == t.tree.(node := t.tree.node.(up := []));
    assert Control.OnChild(t.ctl, err) == Control.State({-1, 1}, []);
    assert At(t.answers, 1) + [err] == [err];
    assert Next(t, Up(1)).answers == t.answers[1 := [err]];
    assert Next(t, Up(1)).tree == OneNode([c], [], [Exec(a, err)], [], map[], map[]).tree;
    assert Next(s, Down(1, 0)).tree == t.tree;
  }

  lemma FirstNode()
    ensures var e := Enter(Control.CreateNode(1, -1));
      Enabled(Start(), e) && Next(Start(), e) == OneNode([], [], [], [], map[], map[])
  {
  }

  lemma OneNodeTimeout(a: Message)
    ensures var s := OneNode([a], [], [], [a], map[1 := [a]], map[]);
      Enabled(s, Expire(0)) && Next(s, Expire(0)) == OneNode([a], [], [], [], map[1 := [a]], map[])
  {
  }

  lemma LateReplyRun(events: seq<Event>) returns (run: seq<Net>)
    requires events == [Enter(Control.CreateNode(1, -1)), Enter(Control.FindKey(1, "a")), Expire(0),
                        Enter(Control.FindKey(1, "b")), Down(1, 0), Up(1)]
    ensures var a, c, err := FindMessage("a"), FindMessage("b"), Message(ExecErr, 1, -1, "a");
      && Run(run, events)
      && run[1] == OneNode([], [], [], [], map[], map[])
      && run[2] == OneNode([a], [], [], [a], map[1 := [a]], map[])
      && run[3] == OneNode([a], [], [], [], map[1 := [a]], map[])
      && run[4] == OneNode([a, c], [], [], [c], map[1 := [a, c]], map[])
      && run[5] == OneNode([c], [Reply(1, err)], [Exec(a, err)], [c], map[1 := [a, c]], map[])
      && run[6] == OneNode([c], [], [Exec(a, err)], [], map[1 := [a, c]], map[1 := [err]])
  {
    var a, c, err := FindMessage("a"), FindMessage("b"), Message(ExecErr, 1, -1, "a");
    var n1 := OneNode([], [], [], [], map[], map[]);
    var n2 := OneNode([a], [], [], [a], map[1 := [a]], map[]);
    var n3 := OneNode([a], [], [], [], map[1 := [a]], map[]);
    var n4 := OneNode([a, c], [], [], [c], map[1 := [a, c]], map[]);
    var n5 := OneNode([c], [Reply(1, err)], [Exec(a, err)], [c], map[1 := [a, c]], map[]);
    var n6 := OneNode([c], [], [Exec(a, err)], [], map[1 := [a, c]], map[1 := [err]]);
    run := [Start(), n1, n2, n3, n4, n5, n6];
    hide Next, Enabled, OneNode, FindMessage;
    FirstNode();
    OneNodeFind("a", [], [], map[]);
    assert [] + [a] == [a] && [] + [c] == [c] && [a] + [c] == [a, c];
    OneNodeTimeout(a);
    OneNodeFind("b", [a], [], map[1 := [a]]);
    OneNodeAnswers(a, c);
    assert map[][1 := [a]] == map[1 := [a]] && map[1 := [a]][1 := [a, c]] == map[1 := [a, c]];
    assert Next(run[0], events[0]) == run[1] && Next(run[1], events[1]) == run[2];
    assert Next(run[2], events[2]) == run[3] && Next(run[3], events[3]) == run[4];
    assert Next(run[4], events[4]) == run[5] && Next(run[5], events[5]) == run[6];
    forall x | 0 <= x < 6 ensures Enabled(run[x], events[x]) && run[x + 1] == Next(run[x], events[x]) {
      assert x == 0 || x == 1 || x == 2 || x == 3 || x == 4 || x == 5;
    }
  }

  lemma LateReplyBooks(run: seq<Net>, events: seq<Event>)
    requires events == [Enter(Control.CreateNode(1, -1)), Enter(Control.FindKey(1, "a")), Expire(0),
                        Enter(Control.FindKey(1, "b")), Down(1, 0), Up(1)]
    requires |run| == 7 && At(run[1].issued, 1) == [] && At(run[3].issued, 1) == [FindMessage("a")]
    requires forall x :: 0 <= x < 6 ==> run[x].ctl.nodeIds == if x == 0 then {-1} else {-1, 1}
    requires Answer(run[5], events[5]) == Some(Reply(1, Message(ExecErr, 1, -1, "a")))
    requires run[5].ctl.pending == [FindMessage("b")] && At(run[5].answers, 1) == []
    ensures BooksAt(run, events, 6).ended == map[Ref(1, 0) := Expired, Ref(1, 1) := Taken(0)]
  {
    assert BooksAt(run, events, 1) == Books([], map[]);
    assert BooksAt(run, events, 2) == Books([Ref(1, 0)], map[]);
    assert BooksAt(run, events, 3) == Books([], map[Ref(1, 0) := Expired]);
    assert BooksAt(run, events, 4) == Books([Ref(1, 1)], map[Ref(1, 0) := Expired]);
    assert BooksAt(run, events, 5) == Books([Ref(1, 1)], map[Ref(1, 0) := Expired]);
    assert Hit(run[5], Reply(1, Message(ExecErr, 1, -1, "a"))) == 0;
  }
}
