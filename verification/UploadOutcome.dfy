/** What an upload leaves on disk: the whole handler of a write request, with its
    conversion and its temporary file. */
module UploadOutcome {
  import opened Wire
  import opened Netascii
  import U = UploadReceiver

  /** A file name within the target's directory. The other three texts name none: a path
      that ends in one of them has no file name. */
  type Name = s: string | IsFileName(s) witness "f"

  predicate IsFileName(s: string) {
    s != "" && s != "." && s != ".."
  }

  // ------------------------------------------------------------ the temporary name

  function LastDot(name: string): (i: int)
    ensures -1 <= i < |name|
    ensures i >= 0 ==> name[i] == '.'
    ensures forall k :: i < k < |name| ==> name[k] != '.'
  {
    if name == "" then -1
    else if name[|name| - 1] == '.' then |name| - 1
    else LastDot(name[..|name| - 1])
  }

  /** Path::file_stem: a leading dot does not begin an extension. */
  function Stem(name: string): string {
    if LastDot(name) <= 0 then name else name[..LastDot(name)]
  }

  /** The stem is the name up to its last dot, unless that is its first character. */
  lemma StemMeaning(name: string)
    ensures Stem(name) <= name
    ensures Stem(name) == name <==> forall i :: 0 < i < |name| ==> name[i] != '.'
    ensures Stem(name) != name ==>
              && Stem(name) != "" && name[|Stem(name)|] == '.'
              && forall i :: |Stem(name)| < i < |name| ==> name[i] != '.'
  {
  }

  /** Path::with_extension applied to ".tftp-tmp": without a file name it changes nothing. */
  function WithTempExtension(name: string): string {
    if IsFileName(name) then Stem(name) + "." + TEMP_EXTENSION else name
  }

  /** The temporary file is never the target itself, whatever its file name. */
  lemma TempDiffers(name: string)
    ensures WithTempExtension(name) != name <==> IsFileName(name)
  {
    LastDotOfTemp(Stem(name));
  }

  function TempName(name: Name): Name {
    assert |Stem(name) + "." + TEMP_EXTENSION| > 2;
    WithTempExtension(name)
  }

  /** Names with the same stem share their temporary file. */
  lemma TempCollides(a: Name, b: Name)
    ensures TempName(a) == TempName(b) <==> Stem(a) == Stem(b)
    ensures TempName(a) == Stem(a) + "..tftp-tmp"
  {
    var tail := "." + TEMP_EXTENSION;
    SameTail(Stem(a), Stem(b), tail);
    assert TempName(a) == Stem(a) + tail && TempName(b) == Stem(b) + tail;
    assert tail == "..tftp-tmp";
  }

  lemma SameTail(a: string, b: string, tail: string)
    ensures a + tail == b + tail <==> a == b
  {
    if a + tail == b + tail {
      assert |a + tail| == |b + tail|;
      assert a == (a + tail)[..|a|] && b == (b + tail)[..|b|];
    }
  }

  const TEMP_EXTENSION: string := ".tftp-tmp"

  lemma NoInnerDot(m: nat)
    requires 1 <= m < |TEMP_EXTENSION|
    ensures TEMP_EXTENSION[m] != '.'
  {
    assert TEMP_EXTENSION == ['.', 't', 'f', 't', 'p', '-', 't', 'm', 'p'];
  }

  lemma LastDotOfTemp(stem: string)
    ensures LastDot(stem + "." + TEMP_EXTENSION) == |stem| + 1
  {
    var temp := stem + "." + TEMP_EXTENSION;
    assert temp[|stem| + 1] == TEMP_EXTENSION[0] == '.';
    forall k | |stem| + 1 < k < |temp|
      ensures temp[k] != '.'
    {
      NoInnerDot(k - |stem| - 1);
    }
  }

  // ------------------------------------------------------------ the file store

  /** Where writing a file stops early, by an error or a crash; a write may have put
      any part of the data on disk. */
  datatype Fault = NoFault | AtDirectory | AtCreate | AtWrite(written: nat) | AtFlush | AtRename

  class FileStore {
    var files: map<Name, Bytes>

    constructor ()
      ensures files == map[]
    {
      files := map[];
    }

    function Content(name: Name): Option<Bytes>
      reads this
    {
      if name in files then Some(files[name]) else None
    }

    /** write_file_safely. Until the rename the target is not touched, and the rename
        replaces it as a whole. */
    method WriteFileSafely(name: Name, data: Bytes, fault: Fault) returns (ok: bool)
      modifies this
      ensures ok == fault.NoFault?
      ensures ok ==> Content(name) == Some(data) && Content(TempName(name)) == None
      ensures !ok ==> Content(name) == old(Content(name))
      ensures forall other :: other != name && other != TempName(name) ==> Content(other) == old(Content(other))
    {
      TempDiffers(name);
      var temp := TempName(name);
      if fault.AtDirectory? || fault.AtCreate? {
        return false;
      }
      files := files[temp := []];
      if fault.AtWrite? {
        files := files[temp := data[..Min(fault.written, |data|)]];
        return false;
      }
      files := files[temp := data];
      if fault.AtFlush? || fault.AtRename? {
        return false;
      }
      files := (files - {temp})[name := files[temp]];
      ok := true;
    }
  }

  // ------------------------------------------------------------ the handler

  /** The content the handler writes once the loop is done, or nothing. */
  function FinalContent(p: U.Params, netascii: bool, events: seq<U.Event>): Option<Bytes>
    requires p.windowSize > 0
  {
    var r := U.Receive(p, U.Fresh, events);
    if r.status != U.Finished then None
    else Some(if netascii then Decode(r.received) else r.received)
  }

  /** Something is written exactly when the packets accepted, consecutively numbered
      from 1, ended with a short block; it is then those payloads in order, decoded if
      asked, and within the size limit. */
  lemma WrittenExactly(p: U.Params, netascii: bool, events: seq<U.Event>)
    requires U.ValidParams(p)
    ensures var blocks := U.Accepted(p, U.Fresh, events);
            && U.CarriedInOrder(events, blocks, 1)
            && U.FullBeforeLast(blocks, p.blockSize)
            && FinalContent(p, netascii, events)
               == (if blocks != [] && |blocks[|blocks| - 1]| < p.blockSize
                   then Some(if netascii then Decode(Flatten(blocks)) else Flatten(blocks)) else None)
            && (FinalContent(p, netascii, events).Some? && p.sizeLimit > 0 ==>
                  |FinalContent(p, netascii, events).value| <= p.sizeLimit)
  {
    U.ReceiveMeaning(p, U.Fresh, events, 1);
    assert [] + Flatten(U.Accepted(p, U.Fresh, events)) == Flatten(U.Accepted(p, U.Fresh, events));
  }

  /** An upload that was ended by an ERROR, a failing socket, a timeout, a block out of order
      or one over the limit is never written, whatever arrives afterwards. */
  lemma AbortedIsNotWritten(p: U.Params, netascii: bool, events: seq<U.Event>, e: U.Event, more: seq<U.Event>,
                            index: nat)
    requires U.ValidParams(p)
    requires U.Receive(p, U.Fresh, events).status == U.Receiving
    requires U.Receive(p, U.Fresh, events).expected == Number(index)
    requires U.EndedBy(p, |U.Receive(p, U.Fresh, events).received|, index, e).Some?
    ensures FinalContent(p, netascii, events + ([e] + more)) == None
  {
    U.FatalEvent(p, U.Fresh, events, e, more, index);
  }

  /** handle_write_request over the events of a run (which may still be going on when
      they end): the target is untouched or holds exactly the final content. */
  method HandleWriteRequest(p: U.Params, netascii: bool, events: seq<U.Event>, store: FileStore, name: Name,
                            fault: Fault)
    returns (status: U.Status, acks: seq<U16>)
    requires U.ValidParams(p)
    modifies store
    ensures status == U.Receive(p, U.Fresh, events).status && acks == U.Acks(p, U.Fresh, events)
    ensures var content := FinalContent(p, netascii, events);
            store.Content(name) == if content.Some? && fault.NoFault? then content else old(store.Content(name))
    ensures forall other :: other != name && other != TempName(name) ==>
                              store.Content(other) == old(store.Content(other))
  {
    var loop := new U.ReceiveLoop(p);
    var i := 0;
    acks := [];
    while i < |events| && loop.status == U.Receiving
      invariant 0 <= i <= |events| && loop.params == p && fresh(loop) && store.files == old(store.files)
      invariant U.Receive(p, U.Fresh, events) == U.Receive(p, loop.State(), events[i..])
      invariant U.Acks(p, U.Fresh, events) == acks + U.Acks(p, loop.State(), events[i..])
    {
      assert events[i..][0] == events[i] && events[i..][1..] == events[i + 1..];
      var ack := loop.Handle(events[i]);
      if ack.Some? {
        acks := acks + [ack.value];
      }
      i := i + 1;
    }
    status := loop.status;
    if status == U.Finished {
      var data := loop.receivedData;
      if netascii {
        data := DecodeLoop(data);
      }
      var ok := store.WriteFileSafely(name, data, fault);
    }
  }
}
