/** What an upload with `put` leaves on disk: the joined state machine of module Link and
    the handler of module UploadOutcome are about the same receiver. */
module UploadStored {
  import opened Wire
  import opened Blocks
  import opened Link
  import N = Netascii
  import W = WindowSender
  import P = ClientPut
  import U = UploadReceiver
  import O = UploadOutcome
  import T = LinkTheorems

  /** What the receiver handles in one action, if anything. */
  function Handled(c: Config, st: State, a: Action): seq<U.Event> {
    match a
    case Deliver =>
      if st.receiver.status == U.Receiving && st.data != [] && 1 <= st.data[0] <= |c.blocks|
      then [Arrival(c, st.data[0])] else []
    case Upset(e) => if st.receiver.status == U.Receiving && !e.DataPacket? then [e] else []
    case _ => []
  }

  /** All that it handles in a run. */
  function Events(c: Config, actions: seq<Action>): seq<U.Event>
    requires c.params.windowSize > 0
  {
    if actions == [] then []
    else
      var before := actions[..|actions| - 1];
      Events(c, before) + Handled(c, Run(c, before), actions[|actions| - 1])
  }

  lemma ReceiveOne(p: U.Params, r: U.Receiver, e: U.Event)
    requires p.windowSize > 0 && r.status == U.Receiving
    ensures U.Receive(p, r, [e]) == U.OnEvent(p, r, e).receiver
  {
    assert U.Receive(p, r, [e]) == U.Receive(p, U.OnEvent(p, r, e).receiver, [e][1..]);
  }

  lemma StepIsReceive(c: Config, st: State, a: Action)
    requires c.params.windowSize > 0
    ensures Step(c, st, a).receiver == U.Receive(c.params, st.receiver, Handled(c, st, a))
  {
    if Handled(c, st, a) != [] {
      ReceiveOne(c.params, st.receiver, Handled(c, st, a)[0]);
    }
  }

  /** The receiver of a run is the receive loop over what it handled. */
  lemma {:induction false} RunIsReceive(c: Config, actions: seq<Action>)
    requires c.params.windowSize > 0
    ensures Run(c, actions).receiver == U.Receive(c.params, U.Fresh, Events(c, actions))
  {
    if actions != [] {
      var before, a := actions[..|actions| - 1], actions[|actions| - 1];
      RunIsReceive(c, before);
      StepIsReceive(c, Run(c, before), a);
      U.AfterEnd(c.params, U.Fresh, Events(c, before), Handled(c, Run(c, before), a));
    }
  }

  function Converted(data: Bytes, netascii: bool): Bytes {
    if netascii then N.Decode(data) else data
  }

  /** `put` against the whole handler: what is to be written, in any run and mode, is
      nothing or the uploaded data, decoded if asked; once `put` has succeeded it is the
      data exactly off the multiples of the block size, and nothing on them. */
  lemma PutStores(data: Bytes, c: Config, netascii: bool, actions: seq<Action>)
    requires ValidConfig(c) && c.rule == StopAndWait && c.blocks == P.PutBlocks(data, c.params.blockSize)
    ensures var content := O.FinalContent(c.params, netascii, Events(c, actions));
            var offMultiples := |data| % c.params.blockSize != 0;
            && (content.Some? ==> offMultiples && content.value == Converted(data, netascii))
            && (Run(c, actions).sender.status == W.Completed ==>
                  content == if offMultiples then Some(Converted(data, netascii)) else None)
  {
    RunIsReceive(c, actions);
    T.UploadEndToEnd(data, c, actions);
  }

  /** `put` never encodes. In NETASCII mode the server therefore stores what was uploaded
      exactly when that has no CR LF or CR NUL pair. */
  lemma StoredUnchanged(data: Bytes, c: Config, actions: seq<Action>)
    requires ValidConfig(c) && c.rule == StopAndWait && c.blocks == P.PutBlocks(data, c.params.blockSize)
    requires O.FinalContent(c.params, true, Events(c, actions)).Some?
    ensures O.FinalContent(c.params, true, Events(c, actions)) == Some(data) <==> !N.HasCrPair(data)
  {
    PutStores(data, c, true, actions);
    N.DecodeIdentity(data);
  }
}
