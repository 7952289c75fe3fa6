/**
 Message delivery between two connected channels over sequenced-packet sockets.  The kernel is two links, each an order- and
 boundary-preserving queue; its free choices (errors, full buffers) are arguments.
 */
module Channel {
  import opened Bytes
  import opened CText

  const MAX_BUFFER_SIZE := 4096
  const MAX_MESSAGE_SIZE := 1024

  datatype Packet = Packet(payload: seq<byte>, descriptors: seq<int>)

  datatype Status = Success | TemporaryFailure | PermanentFailure

  /** One direction of a connected socket pair. */
  class Link {
    var queue: seq<Packet>
    var readerOpen: bool
    var writerOpen: bool
    /** Every packet the kernel ever took for this direction. */
    ghost var accepted: seq<Packet>

    constructor ()
      ensures queue == [] && readerOpen && writerOpen && accepted == []
    {
      queue, readerOpen, writerOpen, accepted := [], true, true, [];
    }
  }

  class Socket {
    var handle: int
    var peered: bool
    const inbox: Link
    const outbox: Link

    constructor (handle: int, peered: bool, inbox: Link, outbox: Link)
      requires handle > 0
      ensures this.handle == handle && this.peered == peered && this.inbox == inbox && this.outbox == outbox
    {
      this.handle, this.peered, this.inbox, this.outbox := handle, peered, inbox, outbox;
    }

    /** connect on a closed handle fails. */
    method Connect(accepts: bool) returns (success: bool)
      modifies this`peered
      ensures success <==> handle != -1 && accepts
      ensures peered == (old(peered) || success)
    {
      success := handle != -1 && accepts;
      if success {
        peered := true;
      }
    }

    /** Closing ends both directions and discards what was not read. */
    method Close() returns (closed: bool)
      requires inbox != outbox
      modifies this`handle, inbox`queue, inbox`readerOpen, outbox`writerOpen
      ensures closed <==> old(handle) != -1
      ensures handle == -1
      ensures closed ==> inbox.queue == [] && !inbox.readerOpen && !outbox.writerOpen
      ensures !closed ==> unchanged(inbox) && unchanged(outbox)
    {
      if handle != -1 {
        inbox.queue := [];
        inbox.readerOpen := false;
        outbox.writerOpen := false;
        handle := -1;
        return true;
      }
      return false;
    }

    /**
     sendmsg with its retry: blocks is how often the buffer is found full before the call goes through, fails whether it then fails
     for a reason of its own.
     */
    method WriteMessage(message: Packet, blocks: nat, fails: bool) returns (status: Status)
      modifies outbox`queue, outbox`accepted
      ensures status == Success <==> |message.payload| <= MAX_BUFFER_SIZE && handle != -1 && peered && outbox.readerOpen && !fails
      ensures status == PermanentFailure <==> |message.payload| <= MAX_BUFFER_SIZE && handle != -1 && peered && !outbox.readerOpen
      ensures outbox.queue == old(outbox.queue) + (if status == Success then [message] else [])
      ensures outbox.accepted == old(outbox.accepted) + (if status == Success then [message] else [])
    {
      if |message.payload| > MAX_BUFFER_SIZE {
        return TemporaryFailure;
      }
      var sent, broken := -1, false;
      var full := blocks;
      while true
        invariant full >= 0
        invariant outbox.queue == old(outbox.queue) && outbox.accepted == old(outbox.accepted)
        invariant sent == -1 && !broken
        decreases full
      {
        if handle == -1 || !peered {
          break;
        }
        if !outbox.readerOpen {
          broken := true;
          break;
        }
        if full > 0 {
          full := full - 1;
        } else {
          if !fails {
            outbox.queue := outbox.queue + [message];
            outbox.accepted := outbox.accepted + [message];
            sent := |message.payload|;
          }
          break;
        }
      }
      if sent != |message.payload| {
        return if broken then PermanentFailure else TemporaryFailure;
      }
      return Success;
    }

    /**
     Drains the inbox.  An error of the kernel's own may cut the drain short after errorAfter packets; a zero-length read is taken for
     the peer's shutdown, whether the peer closed or sent an empty packet.
     */
    method ReadMessages(errorAfter: Option<nat>) returns (status: Status, messages: seq<Packet>)
      requires OneDescriptor(inbox.queue)
      modifies inbox`queue
      ensures messages <= old(inbox.queue)
      ensures var rest := old(inbox.queue)[|messages|..];
              match status
              case Success => rest == [] && inbox.queue == [] && handle != -1 && inbox.writerOpen
              case TemporaryFailure => inbox.queue == rest && (handle == -1 || errorAfter == Some(|messages|))
              case PermanentFailure =>
                if rest == [] then inbox.queue == [] && !inbox.writerOpen else rest[0].payload == [] && inbox.queue == rest[1..]
      ensures handle == -1 ==> messages == [] && status == TemporaryFailure
      ensures forall k | 0 <= k < |messages| :: messages[k].payload != []
      ensures handle != -1 ==>
                var d := Draining(old(inbox.queue), inbox.writerOpen, errorAfter, 0);
                status == d.status && messages == old(inbox.queue)[..d.count] && inbox.queue == LeftBy(old(inbox.queue), d)
    {
      messages := [];
      ghost var queue := inbox.queue;
      while true
        invariant messages <= queue && inbox.queue == queue[|messages|..]
        invariant Draining(queue, inbox.writerOpen, errorAfter, 0) == Draining(queue, inbox.writerOpen, errorAfter, |messages|)
        invariant handle == -1 ==> messages == []
        invariant forall k | 0 <= k < |messages| :: messages[k].payload != []
        decreases |inbox.queue|
      {
        if handle == -1 || errorAfter == Some(|messages|) {
          return TemporaryFailure, messages;
        }
        if inbox.queue == [] {
          return if inbox.writerOpen then Success else PermanentFailure, messages;
        }
        var message := inbox.queue[0];
        inbox.queue := inbox.queue[1..];
        var received := |message.payload|;
        if received == 0 {
          return PermanentFailure, messages;
        }
        assert |message.descriptors| <= 1;
        messages := messages + [message];
      }
    }
  }

  // ---------------------------------------------------------------- what each operation makes of what one end can see

  datatype Drained = Drained(status: Status, count: nat)

  /** How a drain that has taken n packets goes on: how many it takes in all, and with which status it ends. */
  function Draining(queue: seq<Packet>, writerOpen: bool, errorAfter: Option<nat>, n: nat): (d: Drained)
    requires n <= |queue|
    ensures n <= d.count <= |queue|
    decreases |queue| - n
  {
    if errorAfter == Some(n) then Drained(TemporaryFailure, n)
    else if n == |queue| then Drained(if writerOpen then Success else PermanentFailure, n)
    else if queue[n].payload == [] then Drained(PermanentFailure, n)
    else Draining(queue, writerOpen, errorAfter, n + 1)
  }

  /** The queue after the drain; an empty packet that ended it is gone too. */
  function LeftBy(queue: seq<Packet>, d: Drained): seq<Packet>
    requires d.count <= |queue|
  {
    if d.status == PermanentFailure && d.count < |queue| then queue[d.count + 1..] else queue[d.count..]
  }

  /** What the user's receive callback does with the channel it was called from. */
  datatype Reaction = Nothing | Terminates | Sends(reply: Packet, fails: bool)

  /**
   One end of a connection: its own state, what it can tell of the peer, the two queues, what the kernel took for it (offered) and
   from it (sent), and the calls of its two callbacks.
   */
  datatype View = View(open: bool, connected: bool, peered: bool, peerReads: bool, peerWrites: bool, receives: bool, terminates: bool,
                       inbox: seq<Packet>, outbox: seq<Packet>, offered: seq<Packet>, sent: seq<Packet>,
                       delivered: seq<Packet>, terminations: nat)

  /** Closing discards what was not read. */
  function Terminated(v: View): View {
    if v.open then
      v.(open := false, connected := false, inbox := [], terminations := v.terminations + if v.terminates then 1 else 0)
    else v
  }

  predicate CanSend(v: View) { v.open && v.peered && v.peerReads }

  /** A send that finds the peer gone terminates the channel; any other failure leaves it as it was. */
  function Sent(v: View, message: Packet, fails: bool): View {
    if !v.open || !v.peered then v
    else if !v.peerReads then Terminated(v)
    else if fails then v
    else v.(outbox := v.outbox + [message], sent := v.sent + [message])
  }

  /** One call of the receive callback, with whatever it does to the channel in turn. */
  function Dispatched(v: View, message: Packet, reaction: Reaction): View {
    var w := v.(delivered := v.delivered + [message]);
    match reaction
    case Nothing => w
    case Terminates => Terminated(w)
    case Sends(reply, fails) => Sent(w, reply, fails)
  }

  function ReactionTo(reactions: seq<Reaction>, i: nat): Reaction { if i < |reactions| then reactions[i] else Nothing }

  function DispatchedUpTo(v: View, messages: seq<Packet>, reactions: seq<Reaction>, n: nat): View
    requires n <= |messages|
  {
    if n == 0 then v else Dispatched(DispatchedUpTo(v, messages, reactions, n - 1), messages[n - 1], ReactionTo(reactions, n - 1))
  }

  /** A drain, the callbacks for what it took, and only then what its status calls for. */
  function Received(v: View, errorAfter: Option<nat>, reactions: seq<Reaction>): View {
    if !v.open then v
    else
      var d := Draining(v.inbox, v.peerWrites, errorAfter, 0);
      var messages, drained := v.inbox[..d.count], v.(inbox := LeftBy(v.inbox, d));
      var dispatched := if v.receives then DispatchedUpTo(drained, messages, reactions, |messages|) else drained;
      if d.status == PermanentFailure then Terminated(dispatched) else dispatched
  }

  /** A terminated channel never connects again. */
  function Connecting(v: View, accepts: bool): View {
    if !v.connected && v.open && accepts then v.(connected := true, peered := true) else v
  }

  ghost predicate Sendable(p: Packet) { |p.payload| <= MAX_MESSAGE_SIZE && |p.descriptors| <= 1 }

  ghost predicate AllSendable(reactions: seq<Reaction>) {
    forall k | 0 <= k < |reactions| :: reactions[k].Sends? ==> Sendable(reactions[k].reply)
  }

  ghost predicate OneDescriptor(queue: seq<Packet>) { forall k | 0 <= k < |queue| :: |queue[k].descriptors| <= 1 }

  // ---------------------------------------------------------------- the channel

  class Channel {
    const socket: Socket
    var ready: bool
    var connected: bool
    const receives: bool
    const terminates: bool
    /** The calls of the two callbacks so far. */
    var delivered: seq<Packet>
    var terminations: nat

    ghost predicate Valid()
      reads this, socket, socket.inbox, socket.outbox
    {
      && socket.inbox != socket.outbox
      && (socket.inbox.readerOpen <==> socket.handle != -1)
      && (socket.outbox.writerOpen <==> socket.handle != -1)
      && (ready <==> socket.handle != -1)
      && (connected ==> socket.handle != -1)
      && OneDescriptor(socket.inbox.queue)
    }

    ghost function Seen(): View
      reads this, socket, socket.inbox, socket.outbox
    {
      View(socket.handle != -1, connected, socket.peered, socket.outbox.readerOpen, socket.inbox.writerOpen, receives, terminates,
           socket.inbox.queue, socket.outbox.queue, socket.inbox.accepted, socket.outbox.accepted, delivered, terminations)
    }

    constructor (socket: Socket, connected: bool, receives: bool, terminates: bool)
      requires socket.handle > 0 && socket.peered == connected && socket.inbox != socket.outbox
      requires socket.inbox.readerOpen && socket.outbox.writerOpen && socket.inbox.queue == []
      ensures Valid() && this.socket == socket
      ensures Seen() == View(true, connected, connected, socket.outbox.readerOpen, socket.inbox.writerOpen, receives, terminates,
                             [], socket.outbox.queue, socket.inbox.accepted, socket.outbox.accepted, [], 0)
    {
      this.socket, this.connected, this.ready := socket, connected, true;
      this.receives, this.terminates := receives, terminates;
      delivered, terminations := [], 0;
    }

    method Terminate()
      requires Valid()
      modifies this`ready, this`connected, this`terminations, socket`handle, socket.inbox, socket.outbox
      ensures Valid() && Seen() == Terminated(old(Seen()))
      ensures socket.handle == -1 && !connected && !ready
      ensures terminations == old(terminations) + if old(socket.handle) != -1 && terminates then 1 else 0
    {
      var closed := socket.Close();
      connected := false;
      ready := false;
      if closed && terminates {
        terminations := terminations + 1;
      }
    }

    method SendMessage(message: Packet, blocks: nat, fails: bool) returns (success: bool)
      requires Valid() && Sendable(message)
      modifies this`ready, this`connected, this`terminations, socket`handle, socket.inbox, socket.outbox
      ensures Valid() && Seen() == Sent(old(Seen()), message, fails)
      ensures success <==> CanSend(old(Seen())) && !fails
      ensures socket.outbox.accepted == old(socket.outbox.accepted) + if success then [message] else []
      ensures socket.outbox.queue == old(socket.outbox.queue) + if success then [message] else []
      ensures old(socket.handle != -1 && socket.peered && !socket.outbox.readerOpen) ==> socket.handle == -1
    {
      var writeStatus := socket.WriteMessage(message, blocks, fails);
      if writeStatus == PermanentFailure {
        assert Seen() == old(Seen());
        Terminate();
        return false;
      }
      return writeStatus == Success;
    }

    method Deliver(message: Packet)
      requires Valid()
      modifies this`delivered
      ensures Valid() && Seen() == old(Seen()).(delivered := old(delivered) + [message])
    {
      delivered := delivered + [message];
    }

    method Dispatch(message: Packet, reaction: Reaction)
      requires Valid() && (reaction.Sends? ==> Sendable(reaction.reply))
      modifies this`ready, this`connected, this`delivered, this`terminations, socket`handle, socket.inbox, socket.outbox
      ensures Valid() && Seen() == Dispatched(old(Seen()), message, reaction)
    {
      hide Valid, Sent, Terminated;
      Deliver(message);
      match reaction
      case Nothing =>
      case Terminates => Terminate();
      case Sends(reply, fails) => var sent := SendMessage(reply, 0, fails);
    }

    method DispatchAll(messages: seq<Packet>, reactions: seq<Reaction>)
      requires Valid() && AllSendable(reactions)
      modifies this`ready, this`connected, this`delivered, this`terminations, socket`handle, socket.inbox, socket.outbox
      ensures Valid() && Seen() == DispatchedUpTo(old(Seen()), messages, reactions, |messages|)
    {
      hide Valid, Dispatched, Sendable, ReactionTo;
      for i := 0 to |messages|
        invariant Valid() && Seen() == DispatchedUpTo(old(Seen()), messages, reactions, i)
      {
        ReplySendable(reactions, i);
        Dispatch(messages[i], ReactionTo(reactions, i));
      }
    }

    /**
     Drains the socket and dispatches what was read before a shutdown is acted on: the messages that arrive together with the end of
     the stream are delivered too.
     */
    method ReadMessageOnHandle(errorAfter: Option<nat>, reactions: seq<Reaction>)
      requires Valid() && AllSendable(reactions)
      modifies this`ready, this`connected, this`delivered, this`terminations, socket`handle, socket.inbox, socket.outbox
      ensures Valid() && Seen() == Received(old(Seen()), errorAfter, reactions)
    {
      hide Draining, LeftBy, DispatchedUpTo, Terminated, AllSendable, OneDescriptor;
      LeftHasOneDescriptor(socket.inbox.queue, socket.inbox.writerOpen, errorAfter);
      NoneDispatched(Seen(), [], reactions);
      var status, messages := socket.ReadMessages(errorAfter);
      if receives {
        DispatchAll(messages, reactions);
      }
      if status == PermanentFailure {
        Terminate();
      }
    }

    method TryConnect(accepts: bool) returns (success: bool)
      requires Valid()
      modifies this`connected, socket`peered
      ensures Valid() && Seen() == Connecting(old(Seen()), accepts)
      ensures success == connected == (old(connected) || (socket.handle != -1 && accepts))
    {
      if connected {
        return true;
      }
      connected := socket.Connect(accepts);
      return connected;
    }
  }

  lemma ReplySendable(reactions: seq<Reaction>, i: nat)
    requires AllSendable(reactions)
    ensures ReactionTo(reactions, i).Sends? ==> Sendable(ReactionTo(reactions, i).reply)
  {
  }

  lemma NoneDispatched(v: View, messages: seq<Packet>, reactions: seq<Reaction>)
    ensures DispatchedUpTo(v, messages, reactions, 0) == v
  {
  }

  lemma LeftHasOneDescriptor(queue: seq<Packet>, writerOpen: bool, errorAfter: Option<nat>)
    requires OneDescriptor(queue)
    ensures OneDescriptor(LeftBy(queue, Draining(queue, writerOpen, errorAfter, 0)))
  {
  }

  // ---------------------------------------------------------------- what every operation keeps

  /** What was delivered is what was offered, up to what is still queued or was discarded; a closed end has called back once, an open one never. */
  ghost predicate Sound(v: View) {
    && (v.receives ==> if v.open then v.offered == v.delivered + v.inbox else v.delivered <= v.offered)
    && v.terminations == (if v.terminates && !v.open then 1 else 0)
    && (v.connected ==> v.open)
  }

  /** Sound, with the given messages read and not yet dispatched. */
  ghost predicate SoundWhile(v: View, undispatched: seq<Packet>) {
    && v.receives
    && (if v.open then v.offered == v.delivered + undispatched + v.inbox else v.delivered + undispatched <= v.offered)
    && v.terminations == (if v.terminates && !v.open then 1 else 0)
    && (v.connected ==> v.open)
  }

  /** What every operation leaves alone: the far ends of the links and what was there to read; the outbox only grows. */
  ghost predicate Follows(v: View, w: View) {
    && w.peerReads == v.peerReads && w.peerWrites == v.peerWrites && w.receives == v.receives && w.terminates == v.terminates
    && w.offered == v.offered && v.delivered <= w.delivered
    && v.sent <= w.sent && w.outbox == v.outbox + w.sent[|v.sent|..]
    && (OneDescriptor(v.outbox) ==> OneDescriptor(w.outbox)) && (OneDescriptor(v.inbox) ==> OneDescriptor(w.inbox))
    && (!v.open ==> !w.open && w.connected == v.connected)
    && (!CanSend(v) && v.peered ==> w.sent == v.sent)
    && (w.open && v.connected ==> w.connected)
    && (v.peered ==> w.peered)
  }

  lemma SameFollows(v: View, w: View)
    requires w == v.(delivered := w.delivered, inbox := w.inbox) && v.delivered <= w.delivered
    requires OneDescriptor(v.inbox) ==> OneDescriptor(w.inbox)
    ensures Follows(v, w)
  {
  }

  lemma FollowsTransitive(u: View, v: View, w: View)
    requires Follows(u, v) && Follows(v, w)
    ensures Follows(u, w)
  {
    hide OneDescriptor;
    assert w.sent[|u.sent|..] == v.sent[|u.sent|..] + w.sent[|v.sent|..];
  }

  lemma TerminatedFollows(v: View)
    ensures Follows(v, Terminated(v))
  {
  }

  lemma SentFollows(v: View, message: Packet, fails: bool)
    requires Sendable(message)
    ensures Follows(v, Sent(v, message, fails))
  {
  }

  lemma DispatchedFollows(v: View, message: Packet, reaction: Reaction)
    requires reaction.Sends? ==> Sendable(reaction.reply)
    ensures Follows(v, Dispatched(v, message, reaction)) && Dispatched(v, message, reaction).delivered == v.delivered + [message]
  {
    var w := v.(delivered := v.delivered + [message]);
    SameFollows(v, w);
    TerminatedFollows(w);
    if reaction.Sends? { SentFollows(w, reaction.reply, reaction.fails); }
    hide Follows;
    FollowsTransitive(v, w, Dispatched(v, message, reaction));
  }

  lemma {:induction false} DispatchedUpToFollows(v: View, messages: seq<Packet>, reactions: seq<Reaction>, n: nat)
    requires n <= |messages| && AllSendable(reactions)
    ensures Follows(v, DispatchedUpTo(v, messages, reactions, n))
    ensures DispatchedUpTo(v, messages, reactions, n).delivered == v.delivered + messages[..n]
  {
    hide Dispatched, AllSendable, Follows;
    if n == 0 {
      SameFollows(v, v);
    } else {
      var w := DispatchedUpTo(v, messages, reactions, n - 1);
      DispatchedUpToFollows(v, messages, reactions, n - 1);
      ReplySendable(reactions, n - 1);
      DispatchedFollows(w, messages[n - 1], ReactionTo(reactions, n - 1));
      FollowsTransitive(v, w, DispatchedUpTo(v, messages, reactions, n));
      assert messages[..n] == messages[..n - 1] + [messages[n - 1]];
    }
  }

  lemma ReceivedFollows(v: View, errorAfter: Option<nat>, reactions: seq<Reaction>)
    requires AllSendable(reactions)
    ensures Follows(v, Received(v, errorAfter, reactions))
  {
    hide Draining, LeftBy, DispatchedUpTo, Terminated, Follows, AllSendable, OneDescriptor;
    SameFollows(v, v);
    if v.open {
      var d := Draining(v.inbox, v.peerWrites, errorAfter, 0);
      if OneDescriptor(v.inbox) { LeftHasOneDescriptor(v.inbox, v.peerWrites, errorAfter); }
      var messages, drained := v.inbox[..d.count], v.(inbox := LeftBy(v.inbox, d));
      SameFollows(v, drained);
      DispatchedUpToFollows(drained, messages, reactions, |messages|);
      var dispatched := if v.receives then DispatchedUpTo(drained, messages, reactions, |messages|) else drained;
      SameFollows(drained, drained);
      FollowsTransitive(v, drained, dispatched);
      TerminatedFollows(dispatched);
      FollowsTransitive(v, dispatched, Terminated(dispatched));
    }
  }

  lemma DispatchedSound(v: View, message: Packet, reaction: Reaction, undispatched: seq<Packet>)
    requires SoundWhile(v, [message] + undispatched)
    ensures SoundWhile(Dispatched(v, message, reaction), undispatched)
  {
    hide SoundWhile, Terminated, Sent;
    var w := v.(delivered := v.delivered + [message]);
    OneDelivered(v, message, undispatched);
    match reaction
    case Nothing =>
    case Terminates => StillSoundClosed(w, undispatched);
    case Sends(reply, fails) => StillSoundSent(w, reply, fails, undispatched);
  }

  lemma OneDelivered(v: View, message: Packet, undispatched: seq<Packet>)
    requires SoundWhile(v, [message] + undispatched)
    ensures SoundWhile(v.(delivered := v.delivered + [message]), undispatched)
  {
    assert v.delivered + ([message] + undispatched) == v.delivered + [message] + undispatched;
  }

  lemma StillSoundClosed(v: View, undispatched: seq<Packet>)
    requires SoundWhile(v, undispatched)
    ensures SoundWhile(Terminated(v), undispatched)
  {
  }

  lemma StillSoundSent(v: View, reply: Packet, fails: bool, undispatched: seq<Packet>)
    requires SoundWhile(v, undispatched)
    ensures SoundWhile(Sent(v, reply, fails), undispatched)
  {
    StillSoundClosed(v, undispatched);
    hide Terminated;
  }

  lemma {:induction false} DispatchedUpToSound(v: View, messages: seq<Packet>, reactions: seq<Reaction>, lost: seq<Packet>, n: nat)
    requires n <= |messages| && SoundWhile(v, messages + lost)
    ensures SoundWhile(DispatchedUpTo(v, messages, reactions, n), messages[n..] + lost)
  {
    hide SoundWhile, Dispatched;
    if n == 0 {
      assert messages[0..] == messages;
    } else {
      DispatchedUpToSound(v, messages, reactions, lost, n - 1);
      assert messages[n - 1..] + lost == [messages[n - 1]] + (messages[n..] + lost);
      DispatchedSound(DispatchedUpTo(v, messages, reactions, n - 1), messages[n - 1], ReactionTo(reactions, n - 1), messages[n..] + lost);
    }
  }

  /** What ended the drain without being a message: the empty packet, if any. */
  function Lost(v: View, d: Drained): seq<Packet>
    requires d.count <= |v.inbox|
  {
    if d.status == PermanentFailure && d.count < |v.inbox| then [v.inbox[d.count]] else []
  }

  lemma DrainedSound(v: View, d: Drained)
    requires Sound(v) && v.receives && d.count <= |v.inbox| && v.open
    ensures SoundWhile(v.(inbox := LeftBy(v.inbox, d)), v.inbox[..d.count] + Lost(v, d))
  {
    var messages, left, lost := v.inbox[..d.count], LeftBy(v.inbox, d), Lost(v, d);
    assert v.inbox == messages + lost + left;
    assert v.delivered + v.inbox == v.delivered + (messages + lost) + left;
  }

  lemma NothingUndispatched(v: View, lost: seq<Packet>)
    requires SoundWhile(v, lost)
    ensures Sound(Terminated(v)) && (lost == [] ==> Sound(v))
  {
    assert v.delivered + [] == v.delivered;
  }

  /** Also when the drain meets the end of the stream, an empty packet, or an error of the kernel's. */
  lemma ReceivedSound(v: View, errorAfter: Option<nat>, reactions: seq<Reaction>)
    requires Sound(v)
    ensures Sound(Received(v, errorAfter, reactions))
  {
    if v.open {
      var d := Draining(v.inbox, v.peerWrites, errorAfter, 0);
      var messages, drained := v.inbox[..d.count], v.(inbox := LeftBy(v.inbox, d));
      if v.receives {
        hide Draining, LeftBy, DispatchedUpTo, Dispatched, SoundWhile, Sound, Terminated;
        DrainedSound(v, d);
        DispatchedUpToSound(drained, messages, reactions, Lost(v, d), |messages|);
        assert messages[|messages|..] + Lost(v, d) == Lost(v, d);
        NothingUndispatched(DispatchedUpTo(drained, messages, reactions, |messages|), Lost(v, d));
      }
    }
  }

  /** Of a drain without error nothing that was offered is missed, even when the peer has closed in the meantime. */
  lemma {:induction false} EverythingIsDelivered(v: View, reactions: seq<Reaction>)
    requires Sound(v) && v.open && v.receives && AllSendable(reactions)
    requires forall k | 0 <= k < |v.inbox| :: v.inbox[k].payload != []
    ensures var w := Received(v, None, reactions); w.delivered == v.offered && (!v.peerWrites ==> !w.open)
  {
    hide DispatchedUpTo, AllSendable, Follows;
    DrainsAll(v.inbox, v.peerWrites, 0);
    var drained := v.(inbox := LeftBy(v.inbox, Draining(v.inbox, v.peerWrites, None, 0)));
    assert v.inbox[..|v.inbox|] == v.inbox;
    DispatchedUpToFollows(drained, v.inbox, reactions, |v.inbox|);
  }

  lemma {:induction false} DrainsAll(queue: seq<Packet>, writerOpen: bool, n: nat)
    requires n <= |queue| && forall k | 0 <= k < |queue| :: queue[k].payload != []
    ensures Draining(queue, writerOpen, None, n) == Drained(if writerOpen then Success else PermanentFailure, |queue|)
    decreases |queue| - n
  {
    if n < |queue| { DrainsAll(queue, writerOpen, n + 1); }
  }

  /** Where and how a drain ends: at the kernel's error, at the end of the queue or at an empty packet, whichever is first. */
  lemma {:induction false} DrainIs(queue: seq<Packet>, writerOpen: bool, errorAfter: Option<nat>, n: nat)
    requires n <= |queue|
    ensures var d := Draining(queue, writerOpen, errorAfter, n);
            && n <= d.count <= |queue|
            && (forall k | n <= k < d.count :: errorAfter != Some(k) && queue[k].payload != [])
            && (errorAfter == Some(d.count) || d.count == |queue| || queue[d.count].payload == [])
            && d.status == (if errorAfter == Some(d.count) then TemporaryFailure
                            else if d.count == |queue| && writerOpen then Success else PermanentFailure)
    decreases |queue| - n
  {
    if errorAfter != Some(n) && n < |queue| && queue[n].payload != [] { DrainIs(queue, writerOpen, errorAfter, n + 1); }
  }

  /** A callback that terminates the channel does, whatever the later callbacks do. */
  lemma {:induction false} CallbackTerminates(v: View, errorAfter: Option<nat>, reactions: seq<Reaction>, k: nat)
    requires v.open && v.receives && k < |reactions| && reactions[k] == Terminates
    requires k < Draining(v.inbox, v.peerWrites, errorAfter, 0).count
    ensures !Received(v, errorAfter, reactions).open
  {
    hide Draining, LeftBy, DispatchedUpTo;
    var d := Draining(v.inbox, v.peerWrites, errorAfter, 0);
    ClosedByCallback(v.(inbox := LeftBy(v.inbox, d)), v.inbox[..d.count], reactions, k, d.count);
  }

  lemma StaysClosed(v: View, message: Packet, reaction: Reaction)
    ensures !v.open || reaction == Terminates ==> !Dispatched(v, message, reaction).open
  {
  }

  lemma {:induction false} ClosedByCallback(v: View, messages: seq<Packet>, reactions: seq<Reaction>, k: nat, n: nat)
    requires k < n <= |messages| && k < |reactions| && reactions[k] == Terminates
    ensures !DispatchedUpTo(v, messages, reactions, n).open
  {
    var before, reaction := DispatchedUpTo(v, messages, reactions, n - 1), ReactionTo(reactions, n - 1);
    assert DispatchedUpTo(v, messages, reactions, n) == Dispatched(before, messages[n - 1], reaction);
    hide DispatchedUpTo;
    if k < n - 1 { ClosedByCallback(v, messages, reactions, k, n - 1); }
    StaysClosed(before, messages[n - 1], reaction);
  }

  /** Callbacks that answer every message: as many replies as messages are sent, in their order. */
  lemma {:induction false} CallbackReplies(v: View, errorAfter: Option<nat>, reactions: seq<Reaction>, replies: seq<Packet>)
    requires CanSend(v) && v.receives
    requires var d := Draining(v.inbox, v.peerWrites, errorAfter, 0);
             && |replies| == d.count <= |reactions| && d.status != PermanentFailure
             && forall k | 0 <= k < d.count :: reactions[k] == Sends(replies[k], false)
    ensures var d, w := Draining(v.inbox, v.peerWrites, errorAfter, 0), Received(v, errorAfter, reactions);
            w == v.(inbox := v.inbox[d.count..], delivered := v.delivered + v.inbox[..d.count],
                    sent := v.sent + replies, outbox := v.outbox + replies)
  {
    hide Draining, DispatchedUpTo;
    var d := Draining(v.inbox, v.peerWrites, errorAfter, 0);
    RepliedUpTo(v.(inbox := LeftBy(v.inbox, d)), v.inbox[..d.count], reactions, replies, d.count);
    assert replies[..d.count] == replies && v.inbox[..d.count][..d.count] == v.inbox[..d.count];
  }

  lemma OneReply(v: View, message: Packet, reply: Packet)
    requires CanSend(v)
    ensures Dispatched(v, message, Sends(reply, false))
         == v.(delivered := v.delivered + [message], sent := v.sent + [reply], outbox := v.outbox + [reply])
  {
  }

  lemma {:induction false} RepliedUpTo(v: View, messages: seq<Packet>, reactions: seq<Reaction>, replies: seq<Packet>, n: nat)
    requires CanSend(v) && n <= |messages| && n <= |replies| && n <= |reactions|
    requires forall k | 0 <= k < n :: reactions[k] == Sends(replies[k], false)
    ensures DispatchedUpTo(v, messages, reactions, n)
         == v.(delivered := v.delivered + messages[..n], sent := v.sent + replies[..n], outbox := v.outbox + replies[..n])
  {
    if n > 0 {
      RepliedUpTo(v, messages, reactions, replies, n - 1);
      OneReply(DispatchedUpTo(v, messages, reactions, n - 1), messages[n - 1], replies[n - 1]);
      hide Dispatched;
      assert messages[..n] == messages[..n - 1] + [messages[n - 1]] && replies[..n] == replies[..n - 1] + [replies[n - 1]];
    }
  }

  // ---------------------------------------------------------------- a connected pair under any commands

  datatype Command =
    | Send(message: Packet, blocks: nat, fails: bool)
    | Receive(errorAfter: Option<nat>, reactions: seq<Reaction>)
    | Terminate
    | TryConnect(accepts: bool)

  ghost predicate Allowed(c: Command) {
    match c
    case Send(message, _, _) => Sendable(message)
    case Receive(_, reactions) => AllSendable(reactions)
    case _ => true
  }

  function Commanded(v: View, c: Command): View {
    match c
    case Send(message, _, fails) => Sent(v, message, fails)
    case Receive(errorAfter, reactions) => Received(v, errorAfter, reactions)
    case Terminate => Terminated(v)
    case TryConnect(accepts) => Connecting(v, accepts)
  }

  /** The peer's side of what one end has done. */
  function Observing(v: View, peer: View): View {
    v.(inbox := peer.outbox, outbox := peer.inbox, offered := peer.sent, sent := peer.offered,
       peerReads := peer.open, peerWrites := peer.open)
  }

  datatype Pair = Pair(a: View, b: View)

  function Fresh(receives: bool, terminates: bool): View {
    View(true, true, true, true, true, receives, terminates, [], [], [], [], [], 0)
  }

  function PairStep(p: Pair, onA: bool, c: Command): Pair {
    if onA then
      var a := Commanded(p.a, c);
      Pair(a, Observing(p.b, a))
    else
      var b := Commanded(p.b, c);
      Pair(Observing(p.a, b), b)
  }

  /** A connected pair after the commands, each on one of its ends. */
  function PairAfter(commands: seq<(bool, Command)>, receives: bool, terminates: bool): Pair {
    if commands == [] then Pair(Fresh(receives, terminates), Fresh(receives, terminates))
    else
      var (onA, c) := commands[|commands| - 1];
      PairStep(PairAfter(commands[..|commands| - 1], receives, terminates), onA, c)
  }

  ghost predicate AllAllowed(commands: seq<(bool, Command)>) { forall k | 0 <= k < |commands| :: Allowed(commands[k].1) }

  /** Two views of one connection, both sound; an end is connected as long as it is open. */
  ghost predicate Linked(v: View, w: View) {
    && v.outbox == w.inbox && v.inbox == w.outbox && v.sent == w.offered && v.offered == w.sent
    && v.peerReads == v.peerWrites == w.open && w.peerReads == w.peerWrites == v.open
    && v.peered && w.peered && (v.connected <==> v.open) && (w.connected <==> w.open)
    && Sound(v) && Sound(w) && v.receives == w.receives && v.terminates == w.terminates
    && OneDescriptor(v.inbox) && OneDescriptor(w.inbox)
  }

  lemma LinkedSymmetric(v: View, w: View)
    ensures Linked(v, w) <==> Linked(w, v)
  {
  }

  lemma CommandedSound(v: View, c: Command)
    requires Sound(v) && Allowed(c)
    ensures Sound(Commanded(v, c)) && Follows(v, Commanded(v, c))
  {
    hide Follows, Received, Sendable, AllSendable;
    match c
    case Send(message, _, fails) => SentFollows(v, message, fails);
    case Receive(errorAfter, reactions) =>
      ReceivedSound(v, errorAfter, reactions);
      ReceivedFollows(v, errorAfter, reactions);
    case Terminate => TerminatedFollows(v);
    case TryConnect(accepts) => ConnectingFollows(v, accepts);
  }

  lemma ConnectingFollows(v: View, accepts: bool)
    requires Sound(v)
    ensures Follows(v, Connecting(v, accepts))
  {
  }

  /** A command on one end, seen from both. */
  lemma StepLinked(v: View, w: View, c: Command)
    requires Linked(v, w) && Allowed(c)
    ensures Linked(Commanded(v, c), Observing(w, Commanded(v, c)))
  {
    hide Commanded, Allowed, OneDescriptor;
    CommandedSound(v, c);
    OfferedSound(v, w, Commanded(v, c));
  }

  /** What the kernel takes for an end that is open waits in its queue. */
  lemma OfferedSound(v: View, w: View, v': View)
    requires Linked(v, w) && Follows(v, v')
    ensures Sound(Observing(w, v'))
  {
    hide OneDescriptor;
    assert w.delivered + (w.inbox + v'.sent[|v.sent|..]) == (w.delivered + w.inbox) + v'.sent[|v.sent|..];
  }

  lemma {:induction false} PairStaysLinked(commands: seq<(bool, Command)>, receives: bool, terminates: bool)
    requires AllAllowed(commands)
    ensures var p := PairAfter(commands, receives, terminates);
            Linked(p.a, p.b) && p.a.receives == receives
  {
    hide Linked, Commanded, Observing, Allowed;
    if commands == [] {
      FreshIsLinked(receives, terminates);
    } else {
      var init := commands[..|commands| - 1];
      var p := PairAfter(init, receives, terminates);
      var (onA, c) := commands[|commands| - 1];
      PairStaysLinked(init, receives, terminates);
      LinkedSymmetric(p.a, p.b);
      assert Allowed(commands[|commands| - 1].1);
      if onA {
        StepLinked(p.a, p.b, c);
        FarEndsKept(p.a, p.b, c);
      } else {
        StepLinked(p.b, p.a, c);
        LinkedSymmetric(Observing(p.a, Commanded(p.b, c)), Commanded(p.b, c));
        FarEndsKept(p.b, p.a, c);
      }
    }
  }

  lemma FreshIsLinked(receives: bool, terminates: bool)
    ensures Linked(Fresh(receives, terminates), Fresh(receives, terminates))
  {
  }

  lemma FarEndsKept(v: View, w: View, c: Command)
    requires Linked(v, w) && Allowed(c)
    ensures Commanded(v, c).peerReads == v.peerReads && Commanded(v, c).peerWrites == v.peerWrites
    ensures Commanded(v, c).receives == v.receives && Observing(w, Commanded(v, c)).receives == w.receives
  {
    hide Commanded, Allowed;
    CommandedSound(v, c);
  }

  /**
   Any commands on either end, with any failures of the kernel: each side is delivered a prefix of what the other side sent
   successfully, while it is open the rest is in flight, each termination callback is called at most once, and none before the end is
   closed.
   */
  lemma {:induction false} DeliveryIsSafe(commands: seq<(bool, Command)>, terminates: bool)
    requires AllAllowed(commands)
    ensures var p := PairAfter(commands, true, terminates);
            && p.b.delivered <= p.a.sent && p.a.delivered <= p.b.sent
            && (p.b.open ==> p.a.sent == p.b.delivered + p.b.inbox)
            && (p.a.open ==> p.b.sent == p.a.delivered + p.a.inbox)
            && p.a.terminations == (if terminates && !p.a.open then 1 else 0)
            && p.b.terminations == (if terminates && !p.b.open then 1 else 0)
  {
    hide Commanded, Observing;
    PairStaysLinked(commands, true, terminates);
    TerminatesKept(commands, true, terminates);
  }

  lemma {:induction false} TerminatesKept(commands: seq<(bool, Command)>, receives: bool, terminates: bool)
    requires AllAllowed(commands)
    ensures var p := PairAfter(commands, receives, terminates); p.a.terminates == p.b.terminates == terminates
  {
    if commands != [] {
      var init := commands[..|commands| - 1];
      var p := PairAfter(init, receives, terminates);
      var (onA, c) := commands[|commands| - 1];
      TerminatesKept(init, receives, terminates);
      PairStaysLinked(init, receives, terminates);
      assert Allowed(commands[|commands| - 1].1);
      hide Commanded, Allowed;
      if onA { CommandedSound(p.a, c); } else { CommandedSound(p.b, c); }
    }
  }

  /** A send between two open ends that the kernel takes: it is sent, and it is the last packet waiting at the other end. */
  lemma {:induction false} SendArrives(commands: seq<(bool, Command)>, receives: bool, terminates: bool, onA: bool, message: Packet, blocks: nat)
    requires AllAllowed(commands) && Sendable(message)
    requires var p := PairAfter(commands, receives, terminates); p.a.open && p.b.open
    ensures var p, q := PairAfter(commands, receives, terminates), PairAfter(commands + [(onA, Send(message, blocks, false))], receives, terminates);
            if onA then q.a.sent == p.a.sent + [message] && q.b.inbox == p.b.inbox + [message] && q.b.offered == q.a.sent
            else q.b.sent == p.b.sent + [message] && q.a.inbox == p.a.inbox + [message] && q.a.offered == q.b.sent
  {
    hide OneDescriptor, Sound;
    PairStaysLinked(commands, receives, terminates);
    OneMoreCommand(commands, (onA, Send(message, blocks, false)), receives, terminates);
  }

  lemma OneMoreCommand(commands: seq<(bool, Command)>, command: (bool, Command), receives: bool, terminates: bool)
    ensures PairAfter(commands + [command], receives, terminates)
         == PairStep(PairAfter(commands, receives, terminates), command.0, command.1)
  {
    hide PairStep;
    assert (commands + [command])[..|commands|] == commands;
  }

  /** Sent and then received without error, everything has been delivered, the last message last. */
  lemma {:induction false} SendIsReceived(commands: seq<(bool, Command)>, terminates: bool, message: Packet, blocks: nat)
    requires AllAllowed(commands) && Sendable(message) && message.payload != []
    requires var p := PairAfter(commands, true, terminates);
      p.a.open && p.b.open && forall k | 0 <= k < |p.b.inbox| :: p.b.inbox[k].payload != []
    ensures var p := PairAfter(commands, true, terminates);
            var q := PairAfter(commands + [(true, Send(message, blocks, false))] + [(false, Receive(None, []))], true, terminates);
            q.b.delivered == p.a.sent + [message] && q.b.open && q.b.inbox == []
  {
    var more := commands + [(true, Send(message, blocks, false))];
    SendArrives(commands, true, terminates, true, message, blocks);
    assert Allowed(more[|more| - 1].1) && AllAllowed(more);
    PairStaysLinked(more, true, terminates);
    OneMoreCommand(more, (false, Receive(None, [])), true, terminates);
    OneMoreCommand(commands, (true, Send(message, blocks, false)), true, terminates);
    PairStaysLinked(commands, true, terminates);
    var v := PairAfter(more, true, terminates).b;
    EverythingIsDelivered(v, []);
    QuietDrain(v);
  }

  /** With callbacks that do nothing a drain of a live connection leaves the end open and its queue empty. */
  lemma {:induction false} QuietDrain(v: View)
    requires v.open && v.receives && v.peerWrites && forall k | 0 <= k < |v.inbox| :: v.inbox[k].payload != []
    ensures Received(v, None, []).open && Received(v, None, []).inbox == []
  {
    hide DispatchedUpTo;
    DrainsAll(v.inbox, v.peerWrites, 0);
    var drained := v.(inbox := LeftBy(v.inbox, Draining(v.inbox, v.peerWrites, None, 0)));
    NothingHappens(drained, v.inbox[..|v.inbox|], |v.inbox|);
  }

  lemma {:induction false} NothingHappens(v: View, messages: seq<Packet>, n: nat)
    requires n <= |messages|
    ensures DispatchedUpTo(v, messages, [], n) == v.(delivered := v.delivered + messages[..n])
  {
    if n > 0 {
      NothingHappens(v, messages, n - 1);
      assert messages[..n] == messages[..n - 1] + [messages[n - 1]];
    }
  }

  /** A send the kernel refuses changes neither end; one that finds the peer closed closes the sender. */
  lemma {:induction false} SendFails(commands: seq<(bool, Command)>, receives: bool, terminates: bool, message: Packet, blocks: nat, fails: bool)
    requires AllAllowed(commands) && Sendable(message)
    ensures var p, q := PairAfter(commands, receives, terminates), PairAfter(commands + [(true, Send(message, blocks, fails))], receives, terminates);
            && (p.b.open && fails ==> q == p)
            && (!p.b.open ==> !q.a.open && q.a.sent == p.a.sent && q.b == p.b.(peerReads := false, peerWrites := false, outbox := q.b.outbox))
  {
    hide OneDescriptor, Sound;
    PairStaysLinked(commands, receives, terminates);
    OneMoreCommand(commands, (true, Send(message, blocks, fails)), receives, terminates);
  }

  /** What a callback does to its channel while it is called, it does. */
  lemma ReactionLaws(v: View, message: Packet, reply: Packet)
    ensures !Dispatched(v, message, Terminates).open
    ensures CanSend(v) ==> Dispatched(v, message, Sends(reply, false)).sent == v.sent + [reply]
    ensures v.open && v.peered && !v.peerReads ==> !Dispatched(v, message, Sends(reply, false)).open
    ensures Dispatched(v, message, Nothing) == v.(delivered := v.delivered + [message])
  {
  }

  /** An end that is closed stays closed and is never connected again, whatever is done to either end. */
  lemma {:induction false} NeverReconnected(commands: seq<(bool, Command)>, receives: bool, terminates: bool, k: nat)
    requires AllAllowed(commands) && k <= |commands|
    ensures var p, q := PairAfter(commands[..k], receives, terminates), PairAfter(commands, receives, terminates);
            (!p.a.open ==> !q.a.open && !q.a.connected) && (!p.b.open ==> !q.b.open && !q.b.connected)
  {
    PairStaysLinked(commands, receives, terminates);
    if k == |commands| {
      assert commands[..k] == commands;
    } else {
      var init := commands[..|commands| - 1];
      var p := PairAfter(init, receives, terminates);
      var (onA, c) := commands[|commands| - 1];
      assert init[..k] == commands[..k];
      NeverReconnected(init, receives, terminates, k);
      PairStaysLinked(init, receives, terminates);
      assert Allowed(commands[|commands| - 1].1);
      hide Commanded, Allowed;
      if onA { CommandedSound(p.a, c); } else { CommandedSound(p.b, c); }
    }
  }

  // ---------------------------------------------------------------- the same on the objects

  /** The two ends of one connection. */
  ghost predicate Paired(a: Channel, b: Channel)
    reads a, a.socket, a.socket.inbox, a.socket.outbox, b, b.socket, b.socket.inbox, b.socket.outbox
  {
    && a != b && a.socket != b.socket
    && a.socket.outbox == b.socket.inbox && a.socket.inbox == b.socket.outbox
    && a.Valid() && b.Valid()
  }

  /** One command on one end. */
  method Execute(me: Channel, peer: Channel, command: Command)
    requires Paired(me, peer) && Linked(me.Seen(), peer.Seen()) && Allowed(command)
    modifies me, me.socket, me.socket.inbox, me.socket.outbox
    ensures Paired(me, peer) && Linked(me.Seen(), peer.Seen())
    ensures me.Seen() == Commanded(old(me.Seen()), command)
    ensures peer.Seen() == Observing(old(peer.Seen()), me.Seen())
  {
    hide Linked, Sent, Received, Terminated, Connecting, Sendable, AllSendable;
    match command {
      case Send(message, blocks, fails) => var success := me.SendMessage(message, blocks, fails);
      case Receive(errorAfter, reactions) => me.ReadMessageOnHandle(errorAfter, reactions);
      case Terminate => me.Terminate();
      case TryConnect(accepts) => var success := me.TryConnect(accepts);
    }
    StepLinked(old(me.Seen()), old(peer.Seen()), command);
    FarEndsKept(old(me.Seen()), old(peer.Seen()), command);
    LinkedMeansOneDescriptor(me.Seen(), Observing(old(peer.Seen()), me.Seen()));
  }

  lemma LinkedMeansOneDescriptor(v: View, w: View)
    requires Linked(v, w)
    ensures OneDescriptor(v.inbox) && OneDescriptor(w.inbox)
  {
  }

  method CreateConnectedChannels(receives: bool, terminates: bool) returns (a: Channel, b: Channel)
    ensures fresh(a) && fresh(b) && fresh(a.socket) && fresh(b.socket) && fresh(a.socket.inbox) && fresh(a.socket.outbox)
    ensures Paired(a, b) && a.Seen() == b.Seen() == Fresh(receives, terminates)
  {
    var ab := new Link();
    var ba := new Link();
    var socketA := new Socket(1, true, ba, ab);
    var socketB := new Socket(2, true, ab, ba);
    a := new Channel(socketA, true, receives, terminates);
    b := new Channel(socketB, true, receives, terminates);
  }

  /** A whole run on the two objects: every command has on both ends exactly the effect the machine gives it. */
  method RunPair(commands: seq<(bool, Command)>, receives: bool, terminates: bool) returns (a: Channel, b: Channel)
    requires AllAllowed(commands)
    ensures fresh(a) && fresh(b) && Paired(a, b)
    ensures Pair(a.Seen(), b.Seen()) == PairAfter(commands, receives, terminates)
    ensures receives ==> b.delivered <= a.Seen().sent && a.delivered <= b.Seen().sent
  {
    hide Linked, Commanded, Observing, Allowed;
    a, b := CreateConnectedChannels(receives, terminates);
    FreshIsLinked(receives, terminates);
    for i := 0 to |commands|
      invariant fresh(a) && fresh(b) && fresh(a.socket) && fresh(b.socket) && fresh(a.socket.inbox) && fresh(a.socket.outbox)
      invariant Paired(a, b) && Linked(a.Seen(), b.Seen())
      invariant Pair(a.Seen(), b.Seen()) == PairAfter(commands[..i], receives, terminates)
    {
      var (onA, command) := commands[i];
      assert Allowed(commands[i].1) && commands[..i + 1][..i] == commands[..i];
      LinkedSymmetric(a.Seen(), b.Seen());
      if onA {
        Execute(a, b, command);
      } else {
        Execute(b, a, command);
        LinkedSymmetric(b.Seen(), a.Seen());
      }
    }
    assert commands[..|commands|] == commands;
    if receives { DeliveryIsSafe(commands, terminates); }
  }
}
