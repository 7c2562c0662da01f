/**
 * Request/response correlation on the web editor's side of the websocket
 * (editor/src/platform/web/mod.rs). Every command goes out in a client
 * message under a fresh id and is remembered under that id; server
 * messages are queued as they arrive and, when the queue is drained, each
 * is paired with the command whose id it carries.
 *
 * The source shares one `PendingInner` between handles through
 * `Rc<RefCell<..>>`; here that shared cell is one object of class
 * `Pending`, and `PendingOperations`'s methods are its methods. The
 * websocket itself is not modelled: what is handed to it is recorded in
 * the ghost `outbox`, and what it delivers is a parameter.
 */
module WebPending {
  import opened Wrappers

  /** Message ids; the source draws them at random (`Uuid::new_v4`). */
  type Uuid = nat

  type PathBuf = string

  /** What the editor asks of the server. */
  datatype Command =
    | ReadFile(path: PathBuf)
    | ReadDir(path: PathBuf)
    | Rename(from: PathBuf, to: PathBuf)
    | WriteFile(path: PathBuf, contents: string)
    | Delete(path: PathBuf)
    | Run
    | StopRunning

  /** What the server answers. */
  datatype Response =
    | FileContents(contents: string)
    | DirContents(contentsPaths: seq<PathBuf>)
    | Output(output: string)
    | Success

  datatype ClientMessage = ClientMessage(id: Uuid, cmd: Command)

  datatype ServerMessage = ServerMessage(id: Uuid, resp: Response)

  /** A websocket error, kept opaque. */
  datatype WsErr = WsErr(message: string)

  /** The error for an answer whose id was never sent. */
  const InvalidMessage: string := "received invalid message from server"

  /**
   * `response_pair`: an answer is paired with the command sent under its
   * id; an unknown id is an error.
   */
  function ResponsePair(messages: map<Uuid, Command>, msg: ServerMessage): (r: Result<(Command, Response), string>)
    ensures r.Ok? <==> msg.id in messages
    ensures r.Ok? ==> r.value.0 == messages[msg.id] && r.value.1 == msg.resp
    ensures r.Err? ==> r.error == InvalidMessage
  {
    if msg.id in messages then Ok((messages[msg.id], msg.resp)) else Err(InvalidMessage)
  }

  /** What draining `queue` yields: one result per queued answer, in arrival order. */
  function Paired(messages: map<Uuid, Command>, queue: seq<ServerMessage>): (r: seq<Result<(Command, Response), string>>)
    ensures |r| == |queue|
  {
    if |queue| == 0 then [] else [ResponsePair(messages, queue[0])] + Paired(messages, queue[1..])
  }

  /** Draining two batches one after the other yields what draining them together does. */
  lemma {:induction false} PairedAppend(messages: map<Uuid, Command>, a: seq<ServerMessage>, b: seq<ServerMessage>)
    ensures Paired(messages, a + b) == Paired(messages, a) + Paired(messages, b)
  {
    if |a| == 0 {
      assert a + b == b;
    } else {
      assert (a + b)[1..] == a[1..] + b;
      PairedAppend(messages, a[1..], b);
    }
  }

  /** The `i`-th result of a drain belongs to the `i`-th queued answer. */
  lemma {:induction false} PairedAt(messages: map<Uuid, Command>, queue: seq<ServerMessage>, i: nat)
    requires i < |queue|
    ensures Paired(messages, queue)[i] == ResponsePair(messages, queue[i])
  {
    if i > 0 {
      PairedAt(messages, queue[1..], i - 1);
    }
  }

  /**
   * Ids are never forgotten: once a command is recorded, sending more under
   * other ids leaves every answer paired as before.
   */
  lemma PairedGrows(messages: map<Uuid, Command>, id: Uuid, cmd: Command, queue: seq<ServerMessage>, i: nat)
    requires id !in messages && i < |queue| && Paired(messages, queue)[i].Ok?
    ensures Paired(messages[id := cmd], queue)[i] == Paired(messages, queue)[i]
  {
    PairedAt(messages, queue, i);
    PairedAt(messages[id := cmd], queue, i);
  }

  /** The answer to a command pairs with that command. */
  lemma AnswerPairs(messages: map<Uuid, Command>, cmd: Command, id: Uuid, resp: Response)
    ensures Paired(messages[id := cmd], [ServerMessage(id, resp)]) == [Ok((cmd, resp))]
  {
  }

  class Pending {
    /** Each command sent, under its message id. */
    var messages: map<Uuid, Command>
    /** The sends that failed, in the order they failed. */
    var sendErrs: seq<(Uuid, WsErr)>
    /** The server's answers not yet drained, in arrival order. */
    var responses: seq<ServerMessage>
    /** The client messages handed to the websocket, in order. */
    ghost var outbox: seq<ClientMessage>

    /** `PendingOperations::new`: nothing sent, nothing queued. */
    constructor()
      ensures messages == map[] && sendErrs == [] && responses == [] && outbox == []
    {
      messages := map[];
      sendErrs := [];
      responses := [];
      outbox := [];
    }

    /**
     * `send`: the command is recorded under the message's id before the
     * message goes to the websocket.
     */
    method Send(msg: ClientMessage)
      modifies this
      ensures messages == old(messages)[msg.id := msg.cmd]
      ensures outbox == old(outbox) + [msg]
      ensures sendErrs == old(sendErrs) && responses == old(responses)
    {
      messages := messages[msg.id := msg.cmd];
      outbox := outbox + [msg];
    }

    /** `push_send_err`: the websocket reported that the send of message `id` failed. */
    method PushSendErr(id: Uuid, err: WsErr)
      modifies this
      ensures sendErrs == old(sendErrs) + [(id, err)]
      ensures messages == old(messages) && responses == old(responses) && outbox == old(outbox)
    {
      sendErrs := sendErrs + [(id, err)];
    }

    /** `add_resp` / `push_resp`: an answer joins the back of the queue. */
    method AddResp(resp: ServerMessage)
      modifies this
      ensures responses == old(responses) + [resp]
      ensures messages == old(messages) && sendErrs == old(sendErrs) && outbox == old(outbox)
    {
      responses := responses + [resp];
    }

    /**
     * `BackendHandle::update`: every message the websocket has ready is
     * queued, in the order it arrived.
     */
    method Update(arrived: seq<ServerMessage>)
      modifies this
      ensures responses == old(responses) + arrived
      ensures messages == old(messages) && sendErrs == old(sendErrs) && outbox == old(outbox)
    {
      var i := 0;
      while i < |arrived|
        invariant 0 <= i <= |arrived|
        invariant responses == old(responses) + arrived[..i]
        invariant messages == old(messages) && sendErrs == old(sendErrs) && outbox == old(outbox)
      {
        AddResp(arrived[i]);
        i := i + 1;
      }
    }

    /**
     * `responses`: the queue is emptied and each answer in it is paired
     * with its command; nothing is removed from `messages`.
     */
    method Responses() returns (results: seq<Result<(Command, Response), string>>)
      modifies this
      ensures results == Paired(old(messages), old(responses))
      ensures responses == []
      ensures messages == old(messages) && sendErrs == old(sendErrs) && outbox == old(outbox)
    {
      var drained := responses;
      responses := [];
      results := [];
      var i := 0;
      while i < |drained|
        invariant 0 <= i <= |drained|
        invariant results + Paired(messages, drained[i..]) == Paired(messages, drained)
      {
        assert drained[i..] == [drained[i]] + drained[i + 1..];
        results := results + [ResponsePair(messages, drained[i])];
        i := i + 1;
      }
      assert drained[i..] == [];
    }
  }
}
