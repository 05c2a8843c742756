/**
 Lists of fragmented messages: each cut with its own chunk size, with its own mask keys and control frames in between, sent
 one after the other and arriving in any chunks.
 */
module WebSocketMessages {
  import opened Bytes
  import opened WebSocketFrame
  import opened WebSocketTheorems
  import opened WebSocketFragments

  /** A message to send: its data, the chunk size, the mask keys drawn and the control frames sent before each fragment. */
  datatype Outgoing = Outgoing(
    opCode: byte, data: bytes, size: nat, keys: nat -> MaskKey, between: nat -> seq<Control>)

  ghost predicate Sendable(m: Outgoing) {
    && m.opCode in {OP_CONTINUATION, OP_TEXT, OP_BINARY}
    && m.data != [] && m.size > 0 && Fits(m.data)
    && forall j: nat, c :: c in m.between(j) ==> c.Valid()
  }

  ghost predicate AllSendable(sent: seq<Outgoing>) {
    forall i :: 0 <= i < |sent| ==> Sendable(sent[i])
  }

  ghost function WireOf(isServer: bool, m: Outgoing): bytes
    requires Sendable(m)
  {
    Interleaved(FragmentsFrom(isServer, m.keys, m.opCode, m.data, m.size, 0), isServer, m.between, m.size, 0)
  }

  /** The control frames sent with the message, and the message. */
  ghost function Delivered(isServer: bool, m: Outgoing): seq<Message>
    requires Sendable(m)
  {
    ControlsFrom(isServer, m.between, |m.data|, m.size, 0)
    + [WholeMessage(isServer, m.keys, m.opCode, m.data, m.size)]
  }

  ghost predicate Accepted(m: Outgoing) {
    Reassembles(m.opCode, m.data, m.size)
  }

  /** One message, whatever follows it: delivered whole, or the end of the connection. */
  lemma MessageIsRead(isServer: bool, m: Outgoing, more: bytes)
    requires Sendable(m)
    ensures var o := ParseBuffer(!isServer, WireOf(isServer, m) + more, NO_FRAGMENT);
            if Accepted(m) then o == Prepend(Delivered(isServer, m), ParseBuffer(!isServer, more, NO_FRAGMENT))
            else o.Rejected?
  {
    hide ParseBuffer, Interleaved, ControlsFrom, WholeMessage, Reassembles;
    FragmentsAreRead(isServer, m.keys, m.opCode, m.data, m.size, m.between, NO_FRAGMENT, more);
  }

  ghost function Wire(isServer: bool, sent: seq<Outgoing>): bytes
    requires AllSendable(sent)
  {
    if sent == [] then [] else WireOf(isServer, sent[0]) + Wire(isServer, sent[1..])
  }

  ghost function AllDelivered(isServer: bool, sent: seq<Outgoing>): seq<Message>
    requires AllSendable(sent)
  {
    if sent == [] then [] else Delivered(isServer, sent[0]) + AllDelivered(isServer, sent[1..])
  }

  /** A list of messages in one piece: all of them are delivered in order if and only if each reassembles. */
  lemma {:induction false} MessagesAreRead(isServer: bool, sent: seq<Outgoing>)
    requires AllSendable(sent)
    ensures var o := ParseBuffer(!isServer, Wire(isServer, sent), NO_FRAGMENT);
            if forall i :: 0 <= i < |sent| ==> Accepted(sent[i]) then
              o == Parsed(AllDelivered(isServer, sent), [], NO_FRAGMENT)
            else o.Rejected?
    decreases |sent|
  {
    hide Accepted, WireOf, Delivered, Sendable;
    if sent == [] {
      NothingToParse(isServer);
    } else {
      hide ParseBuffer;
      MessagesAreRead(isServer, sent[1..]);
      MessageIsRead(isServer, sent[0], Wire(isServer, sent[1..]));
      AcceptedFirst(sent);
    }
  }

  lemma AcceptedFirst(sent: seq<Outgoing>)
    requires sent != []
    ensures (forall i :: 0 <= i < |sent| ==> Accepted(sent[i])) <==>
            Accepted(sent[0]) && forall i :: 0 <= i < |sent[1..]| ==> Accepted(sent[1..][i])
  {
    hide Accepted;
    if Accepted(sent[0]) && forall i :: 0 <= i < |sent[1..]| ==> Accepted(sent[1..][i]) {
      forall i | 0 <= i < |sent|
        ensures Accepted(sent[i])
      {
        if i > 0 {
          assert sent[i] == sent[1..][i - 1];
        }
      }
    }
  }

  lemma NothingToParse(isServer: bool)
    ensures ParseBuffer(!isServer, [], NO_FRAGMENT) == Parsed([], [], NO_FRAGMENT)
  {
  }

  /**
   However the bytes of a list of messages arrive, a peer with a new parser delivers exactly the messages of the list and
   their control frames, in order, if and only if every message reassembles within the limits.
   */
  lemma MessagesInAnyChunks(isServer: bool, sent: seq<Outgoing>, chunks: seq<bytes>)
    requires AllSendable(sent) && Flatten(chunks) == Wire(isServer, sent)
    ensures ParseRun(!isServer, chunks, [], NO_FRAGMENT) == Parsed(AllDelivered(isServer, sent), [], NO_FRAGMENT)
            <==> forall i :: 0 <= i < |sent| ==> Accepted(sent[i])
  {
    NothingToParse(isServer);
    hide ParseBuffer, ParseRun, Accepted, Wire, AllDelivered, Sendable;
    MessagesAreRead(isServer, sent);
    assert [] + Flatten(chunks) == Wire(isServer, sent);
    RunEqualsOneParse(!isServer, chunks, [], NO_FRAGMENT);
  }
}
