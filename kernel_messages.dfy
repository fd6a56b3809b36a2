/** Kernel message passing (kernel/klib/synch/kernel_messages.cpp): the
    registry pairing message names with ID numbers, and each process's
    message queue with its one outstanding message. */
module KernelMessages {
  import opened Common

  /** klib_message_hdr; the contents pointer and originating process are
      modelled as opaque numbers, 0 standing for nullptr. */
  datatype MsgHdr = MsgHdr(msgId: nat, msgLength: nat, contents: nat, originatingProcess: nat)

  /** msg_name_id_map and msg_id_name_map. */
  class MessageRegistry {
    var nameToId: map<seq<char>, nat>
    var idToName: map<nat, seq<char>>

    /** The two maps are inverse to each other. */
    ghost predicate Valid()
      reads this
    {
      (forall n :: n in nameToId ==> nameToId[n] in idToName && idToName[nameToId[n]] == n) &&
      (forall i :: i in idToName ==> idToName[i] in nameToId && nameToId[idToName[i]] == i)
    }

    constructor ()
      ensures Valid() && nameToId == map[] && idToName == map[]
    {
      nameToId := map[];
      idToName := map[];
    }

    /** msg_register_msg_id: a name or a number already registered is
        ALREADY_EXISTS; otherwise both maps gain the pair. */
    method RegisterMsgId(name: seq<char>, id: nat) returns (result: ErrCode)
      requires Valid()
      modifies this
      ensures Valid()
      ensures name in old(nameToId) || id in old(idToName) ==>
        result == AlreadyExists && nameToId == old(nameToId) && idToName == old(idToName)
      ensures name !in old(nameToId) && id !in old(idToName) ==>
        result == NoError && nameToId == old(nameToId)[name := id] && idToName == old(idToName)[id := name]
    {
      if name in nameToId {
        result := AlreadyExists;
      } else if id in idToName {
        result := AlreadyExists;
      } else {
        nameToId := nameToId[name := id];
        idToName := idToName[id := name];
        result := NoError;
      }
    }

    /** msg_get_msg_id. */
    method GetMsgId(name: seq<char>) returns (result: ErrCode, id: Option<nat>)
      requires Valid()
      ensures name in nameToId ==> result == NoError && id == Some(nameToId[name])
      ensures name !in nameToId ==> result == NotFound && id.None?
      ensures id.Some? ==> id.value in idToName && idToName[id.value] == name
    {
      if name in nameToId {
        result := NoError;
        id := Some(nameToId[name]);
      } else {
        result := NotFound;
        id := None;
      }
    }

    /** msg_get_msg_name. */
    method GetMsgName(id: nat) returns (result: ErrCode, name: Option<seq<char>>)
      requires Valid()
      ensures id in idToName ==> result == NoError && name == Some(idToName[id])
      ensures id !in idToName ==> result == NotFound && name.None?
      ensures name.Some? ==> name.value in nameToId && nameToId[name.value] == id
    {
      if id in idToName {
        result := NoError;
        name := Some(idToName[id]);
      } else {
        result := NotFound;
        name := None;
      }
    }
  }

  /** The message fields of task_process. */
  class ProcessMailbox {
    var acceptsMsgs: bool
    var messageQueue: seq<MsgHdr>
    var msgQueueLen: nat
    var msgOutstanding: bool
    var curMsg: MsgHdr

    /** The outstanding message stays at the front of the queue until it is
        completed; msg_queue_len counts only the messages behind it. */
    ghost predicate Valid()
      reads this
    {
      (!acceptsMsgs ==> messageQueue == [] && !msgOutstanding) &&
      (msgOutstanding ==> |messageQueue| >= 1) &&
      msgQueueLen == |messageQueue| - (if msgOutstanding then 1 else 0)
    }

    /** The messages not yet handed out, oldest first. */
    ghost function Pending(): seq<MsgHdr>
      reads this
      requires Valid()
    {
      if msgOutstanding then messageQueue[1..] else messageQueue
    }

    constructor ()
      ensures Valid() && !acceptsMsgs
    {
      acceptsMsgs := false;
      messageQueue := [];
      msgQueueLen := 0;
      msgOutstanding := false;
      curMsg := MsgHdr(0, 0, 0, 0);
    }

    /** msg_register_process: a second registration is INVALID_OP. */
    method RegisterProcess() returns (result: ErrCode)
      requires Valid()
      modifies this
      ensures Valid()
      ensures old(acceptsMsgs) ==> result == InvalidOp && messageQueue == old(messageQueue) && msgOutstanding == old(msgOutstanding)
      ensures !old(acceptsMsgs) ==> result == NoError && acceptsMsgs && Pending() == [] && !msgOutstanding
      ensures old(acceptsMsgs) ==> acceptsMsgs
    {
      if acceptsMsgs {
        result := InvalidOp;
      } else {
        curMsg := MsgHdr(0, 0, 0, 0);
        msgQueueLen := 0;
        msgOutstanding := false;
        acceptsMsgs := true;
        result := NoError;
      }
    }

    /** msg_send_to_process: the message joins the back of the queue. */
    method SendToProcess(msg: MsgHdr) returns (result: ErrCode)
      requires Valid()
      modifies this
      ensures Valid() && acceptsMsgs == old(acceptsMsgs) && msgOutstanding == old(msgOutstanding)
      ensures !acceptsMsgs ==> result == SyncMsgNotAccepted && messageQueue == old(messageQueue)
      ensures acceptsMsgs ==> result == NoError && messageQueue == old(messageQueue) + [msg]
      ensures acceptsMsgs ==> Pending() == old(Pending()) + [msg]
    {
      if !acceptsMsgs {
        result := SyncMsgNotAccepted;
      } else {
        messageQueue := messageQueue + [msg];
        msgQueueLen := msgQueueLen + 1;
        result := NoError;
      }
    }

    /** msg_retrieve_next_msg: hands out the oldest pending message, which then
        stays outstanding until completed. */
    method RetrieveNextMsg() returns (result: ErrCode, msg: Option<MsgHdr>)
      requires Valid()
      modifies this
      ensures Valid() && acceptsMsgs == old(acceptsMsgs) && messageQueue == old(messageQueue)
      ensures !acceptsMsgs ==> result == SyncMsgNotAccepted && msg.None?
      ensures acceptsMsgs && old(msgOutstanding) ==> result == SyncMsgIncomplete && msg.None? && msgOutstanding
      ensures acceptsMsgs && !old(msgOutstanding) && old(Pending()) == [] ==>
        result == SyncMsgQueueEmpty && msg.None? && !msgOutstanding
      ensures acceptsMsgs && !old(msgOutstanding) && old(Pending()) != [] ==>
        result == NoError && msg == Some(old(Pending())[0]) && msgOutstanding &&
        Pending() == old(Pending())[1..]
    {
      msg := None;
      if !acceptsMsgs {
        result := SyncMsgNotAccepted;
      } else if msgOutstanding {
        result := SyncMsgIncomplete;
      } else if msgQueueLen == 0 {
        result := SyncMsgQueueEmpty;
      } else {
        msg := Some(messageQueue[0]);
        msgQueueLen := msgQueueLen - 1;
        msgOutstanding := true;
        result := NoError;
      }
    }

    /** msg_retrieve_cur_msg: the outstanding message again. */
    method RetrieveCurMsg() returns (result: ErrCode, msg: Option<MsgHdr>)
      requires Valid()
      ensures !acceptsMsgs ==> result == SyncMsgNotAccepted && msg.None?
      ensures acceptsMsgs && !msgOutstanding ==> result == SyncMsgMismatch && msg.None?
      ensures acceptsMsgs && msgOutstanding ==> result == NoError && msg == Some(messageQueue[0])
    {
      msg := None;
      if !acceptsMsgs {
        result := SyncMsgNotAccepted;
      } else if !msgOutstanding {
        result := SyncMsgMismatch;
      } else {
        msg := Some(messageQueue[0]);
        result := NoError;
      }
    }

    /** msg_msg_complete: only the outstanding message may be completed; it
        leaves the queue, and the caller's header comes back with its contents
        and ID cleared. */
    method MsgComplete(msg: MsgHdr) returns (result: ErrCode, cleared: MsgHdr)
      requires Valid()
      modifies this
      ensures Valid() && acceptsMsgs == old(acceptsMsgs)
      ensures Pending() == old(Pending())
      ensures !acceptsMsgs ==> result == SyncMsgNotAccepted && cleared == msg
      ensures acceptsMsgs && (!old(msgOutstanding) || old(messageQueue)[0] != msg) ==>
        result == SyncMsgMismatch && cleared == msg && messageQueue == old(messageQueue) && msgOutstanding == old(msgOutstanding)
      ensures acceptsMsgs && old(msgOutstanding) && old(messageQueue)[0] == msg ==>
        result == NoError && !msgOutstanding && messageQueue == old(messageQueue)[1..] &&
        cleared == msg.(contents := 0, msgId := 0) && curMsg == cleared
    {
      cleared := msg;
      if !acceptsMsgs {
        result := SyncMsgNotAccepted;
      } else if !msgOutstanding {
        result := SyncMsgMismatch;
      } else if messageQueue[0] != msg {
        result := SyncMsgMismatch;
      } else {
        cleared := msg.(contents := 0, msgId := 0);
        curMsg := cleared;
        messageQueue := messageQueue[1..];
        msgOutstanding := false;
        result := NoError;
      }
    }
  }
}
