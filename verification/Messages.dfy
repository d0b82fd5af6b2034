/** The messages of Lab 5. */
module Messages {

  datatype Command = Create | Ping | ExecAdd | ExecFnd | ExecErr | HeartBeat

  /** id is the addressee of a request and the subject of a reply; data is add_data, key is val. */
  datatype Message = Message(command: Command, id: int, data: int, key: string)

  /** The commands that a controller keeps on its pending list. */
  predicate IsRequest(m: Message) {
    m.command == Create || m.command == Ping || m.command == ExecAdd || m.command == ExecFnd
  }

  /** Every queue gets the message, behind what it holds. */
  function ToAll(queues: seq<seq<Message>>, m: Message): (r: seq<seq<Message>>)
    ensures |r| == |queues| && forall i :: 0 <= i < |r| ==> r[i] == queues[i] + [m]
  {
    seq(|queues|, i requires 0 <= i < |queues| => queues[i] + [m])
  }
}
