/**
 * The anti-entropy protocol: every incoming message is answered according to
 * its type alone, and a periodic tick contacts one random known peer. Sending
 * a message is appending it to an outbox; each handler runs as one atomic step.
 *
 * `Receive` states what one incoming message does to the node's state and
 * which messages go out, in which order; `AntiEntropyProtocol.ReceiveHandler`
 * does it on the node's objects and is proved to agree with `Receive`.
 */
module AntiEntropy {
  import opened Wrappers
  import opened FileItems
  import opened VersionDiff
  import opened VersionLists
  import opened Peers

  newtype byte = x: int | 0 <= x < 256

  /** A protocol message; every kind names the port its sender listens on. */
  datatype Message =
    | Invitation(MyListenPort: int)
    | AcceptInvitation(MyListenPort: int)
    | ConnectRequest(MyListenPort: int)
    | AcceptConnect(MyListenPort: int)
    | PeerListMessage(List: PeerListSnapshot, MyListenPort: int)
    | VersionListMessage(Files: seq<FileItem>, MyListenPort: int)
    | FileRequest(Request: seq<FileItem>, MyListenPort: int)
    | FileDataResponse(Data: seq<byte>, MyListenPort: int)
      /** A message whose type none of the branches above handles. */
    | UnknownMessage(MyListenPort: int)

  /** What happens once a message has been delivered. */
  datatype OnComplete = NoAction | DeleteFile(Path: string)

  datatype Outgoing = Outgoing(To: Peer, Message: Message, OnComplete: OnComplete)

  /** The bundle file the bundling collaborator builds for a file request, and its bytes. */
  datatype Bundle = Bundle(FileName: string, Data: seq<byte>)

  datatype ProtocolError =
    | UnseenMessageType   // a message of a type no handler takes
    | NullReference       // a member of a null peer is read

  /** The part of a socket address `ip:port` before the first ':'. */
  function IpPart(address: string): (ip: string)
    ensures ip <= address && ':' !in ip
    ensures |ip| < |address| ==> address[|ip|] == ':'
  {
    if address == [] || address[0] == ':' then [] else [address[0]] + IpPart(address[1..])
  }

  /** The peer a message comes from: the sender's IP, and the port it says it listens on. */
  function SenderOf(address: string, message: Message): (p: Peer)
    ensures p.IP <= address && ':' !in p.IP
    ensures p.Port == message.MyListenPort
  {
    Peer(IpPart(address), message.MyListenPort)
  }

  // ---------------------------------------------------------------------------
  // The replies to each kind of message

  /** Every message of `out` goes to `peer` and names `myPort` as its sender's port. */
  ghost predicate AddressedTo(out: seq<Outgoing>, peer: Peer, myPort: int)
  {
    forall o | o in out :: o.To == peer && o.Message.MyListenPort == myPort
  }

  /** The node's peer list, then its version list. */
  function SendMetaData(myPort: int, peer: Peer, peers: PeerListSnapshot, files: seq<FileItem>): (out: seq<Outgoing>)
    ensures AddressedTo(out, peer, myPort) && |out| == 2
    ensures out[0].Message.PeerListMessage? && out[1].Message.VersionListMessage?
  {
    [ Outgoing(peer, PeerListMessage(peers, myPort), NoAction),
      Outgoing(peer, VersionListMessage(files, myPort), NoAction) ]
  }

  function ProcessInvitation(myPort: int, peer: Peer): (out: seq<Outgoing>)
    ensures AddressedTo(out, peer, myPort) && |out| == 1 && out[0].Message.AcceptInvitation?
  {
    [Outgoing(peer, AcceptInvitation(myPort), NoAction)]
  }

  function ProcessAcceptInvitation(myPort: int, peer: Peer): (out: seq<Outgoing>)
    ensures AddressedTo(out, peer, myPort) && |out| == 1 && out[0].Message.ConnectRequest?
  {
    [Outgoing(peer, ConnectRequest(myPort), NoAction)]
  }

  function ProcessConnectRequest(myPort: int, peer: Peer, peers: PeerListSnapshot, files: seq<FileItem>): (out: seq<Outgoing>)
    ensures AddressedTo(out, peer, myPort) && |out| == 3
    ensures out[0].Message.AcceptConnect? && out[1..] == SendMetaData(myPort, peer, peers, files)
  {
    [Outgoing(peer, AcceptConnect(myPort), NoAction)] + SendMetaData(myPort, peer, peers, files)
  }

  function ProcessAcceptConnect(myPort: int, peer: Peer, peers: PeerListSnapshot, files: seq<FileItem>): (out: seq<Outgoing>)
    ensures AddressedTo(out, peer, myPort) && |out| == 2
  {
    SendMetaData(myPort, peer, peers, files)
  }

  /** Requests what `received` has and `files` lacks. */
  function ProcessVersionList(myPort: int, peer: Peer, files: seq<FileItem>, received: seq<FileItem>): (out: seq<Outgoing>)
    ensures AddressedTo(out, peer, myPort) && |out| == 1 && out[0].Message.FileRequest?
    ensures received == files ==> out[0].Message.Request == []
  {
    DiffSelfEmpty(files);
    [Outgoing(peer, FileRequest(Diff(files, received), myPort), NoAction)]
  }

  /** Sends the bundle's bytes and deletes the bundle file once they are delivered. */
  function ProcessFileRequest(myPort: int, peer: Peer, bundle: Bundle): (out: seq<Outgoing>)
    ensures AddressedTo(out, peer, myPort) && |out| == 1 && out[0].Message.FileDataResponse?
    ensures out[0].OnComplete == DeleteFile(bundle.FileName)
  {
    [Outgoing(peer, FileDataResponse(bundle.Data, myPort), DeleteFile(bundle.FileName))]
  }

  // ---------------------------------------------------------------------------
  // One incoming message, as a function of the node's state

  /** What a handler reads: the node's port, its peer list and its version list. */
  datatype Node = Node(MyPort: int, Peers: PeerListSnapshot, Files: seq<FileItem>)

  /** What a handled message leaves behind: the messages sent, the new peer set, the flushes made. */
  datatype Step = Step(Sends: seq<Outgoing>, Peers: set<Peer>, Flushes: nat)

  /**
   * What handling `message` from socket address `address` does: it fails
   * exactly on an unknown type, never forgets a peer, and replies only to the
   * sender.
   */
  function Receive(node: Node, bundle: Bundle, address: string, message: Message): (r: Result<Step, ProtocolError>)
    ensures r.Err? <==> message.UnknownMessage?
    ensures r.Ok? ==> node.Peers.Peers <= r.value.Peers
    ensures r.Ok? ==> AddressedTo(r.value.Sends, SenderOf(address, message), node.MyPort)
  {
    var peer := SenderOf(address, message);
    var known := node.Peers.Peers;
    match message
    case Invitation(_) => Ok(Step(ProcessInvitation(node.MyPort, peer), known, 0))
    case AcceptInvitation(_) => Ok(Step(ProcessAcceptInvitation(node.MyPort, peer), known, 0))
    case ConnectRequest(_) => Ok(Step(ProcessConnectRequest(node.MyPort, peer, node.Peers, node.Files), known, 0))
    case AcceptConnect(_) => Ok(Step(ProcessAcceptConnect(node.MyPort, peer, node.Peers, node.Files), known, 0))
    case PeerListMessage(list, _) => Ok(Step([], known + {peer} + list.Peers, 2))
    case VersionListMessage(files, _) => Ok(Step(ProcessVersionList(node.MyPort, peer, node.Files, files), known, 0))
    case FileRequest(_, _) => Ok(Step(ProcessFileRequest(node.MyPort, peer, bundle), known, 0))
    case FileDataResponse(_, _) => Ok(Step([], known, 0))
    case UnknownMessage(_) => Err(UnseenMessageType)
  }

  // ---------------------------------------------------------------------------
  // The reply table, stated on message kinds

  datatype Kind =
    | KInvitation | KAcceptInvitation | KConnectRequest | KAcceptConnect
    | KPeerList | KVersionList | KFileRequest | KFileData | KUnknown

  function KindOf(m: Message): Kind
  {
    match m
    case Invitation(_) => KInvitation
    case AcceptInvitation(_) => KAcceptInvitation
    case ConnectRequest(_) => KConnectRequest
    case AcceptConnect(_) => KAcceptConnect
    case PeerListMessage(_, _) => KPeerList
    case VersionListMessage(_, _) => KVersionList
    case FileRequest(_, _) => KFileRequest
    case FileDataResponse(_, _) => KFileData
    case UnknownMessage(_) => KUnknown
  }

  function Kinds(out: seq<Outgoing>): seq<Kind>
  {
    seq(|out|, i requires 0 <= i < |out| => KindOf(out[i].Message))
  }

  /** The kinds of the replies to a message of kind `k`, in the order they are sent. */
  function ReplyTable(k: Kind): seq<Kind>
  {
    match k
    case KInvitation => [KAcceptInvitation]
    case KAcceptInvitation => [KConnectRequest]
    case KConnectRequest => [KAcceptConnect, KPeerList, KVersionList]
    case KAcceptConnect => [KPeerList, KVersionList]
    case KVersionList => [KFileRequest]
    case KFileRequest => [KFileData]
    case _ => []
  }

  /**
   * Every message type but an unknown one is handled, and is answered by
   * replies of the kinds the table gives, in that order.
   */
  lemma ReceiveFollowsReplyTable(node: Node, bundle: Bundle, address: string, message: Message)
    ensures Receive(node, bundle, address, message).Err? <==> message.UnknownMessage?
    ensures Receive(node, bundle, address, message).Ok? ==>
      Kinds(Receive(node, bundle, address, message).value.Sends) == ReplyTable(KindOf(message))
  {
    var r := Receive(node, bundle, address, message);
    if r.Ok? {
      var ks, want := Kinds(r.value.Sends), ReplyTable(KindOf(message));
      assert |ks| == |want|;
      forall i | 0 <= i < |ks|
        ensures ks[i] == want[i]
      {
      }
    }
  }

  /**
   * Every reply goes to the sender's IP at the port the message names, not to
   * the port the connection came from, and carries this node's port.
   */
  lemma RepliesGoToSender(node: Node, bundle: Bundle, address: string, message: Message)
    ensures var r := Receive(node, bundle, address, message);
      r.Ok? ==> forall o | o in r.value.Sends ::
        o.To == Peer(IpPart(address), message.MyListenPort) && o.Message.MyListenPort == node.MyPort
  {
  }

  /**
   * Only a peer list changes the peer set: it becomes the old set, the sender
   * and the received peers, after two flushes. Everything else leaves the set
   * as it was and flushes nothing.
   */
  lemma PeerListMergesSender(node: Node, bundle: Bundle, address: string, message: Message)
    requires !message.UnknownMessage?
    ensures var step := Receive(node, bundle, address, message).value;
      if message.PeerListMessage? then
        && step.Peers == node.Peers.Peers + {SenderOf(address, message)} + message.List.Peers
        && step.Sends == [] && step.Flushes == 2
      else
        step.Peers == node.Peers.Peers && step.Flushes == 0
  {
  }

  /** Receiving the same peer list again changes nothing more. */
  lemma PeerListIdempotent(node: Node, bundle: Bundle, address: string, message: Message)
    requires message.PeerListMessage?
    ensures var once := Receive(node, bundle, address, message).value.Peers;
      var twice := Receive(node.(Peers := node.Peers.(Peers := once)), bundle, address, message).value.Peers;
      twice == once
  {
  }

  /**
   * A version list is answered by exactly one file request, which names an
   * identifier exactly when the received list has an entry of it whose key
   * this node lacks, and which, once ingested, leaves nothing missing.
   */
  lemma VersionListRequestsMissing(node: Node, bundle: Bundle, address: string, message: Message, id: string)
    requires message.VersionListMessage?
    ensures var sends := Receive(node, bundle, address, message).value.Sends;
      && |sends| == 1 && sends[0].Message.FileRequest?
      && var request := sends[0].Message.Request;
      && ((exists k :: 0 <= k < |request| && request[k].Id == id)
          <==> (exists v :: HasEntry(message.Files, id, v) && VersionKey(id, v.SHA1) !in LocalKeys(node.Files)))
      && Diff(node.Files + request, message.Files) == []
  {
    DiffCoversExactly(node.Files, message.Files, id);
    DiffClosesGap(node.Files, message.Files);
  }

  /**
   * One exchange between two nodes: `b` asks `a` to connect, `a` answers with
   * its metadata, and `b`, on `a`'s version list, requests exactly what it
   * lacks of `a`'s history, which closes the gap once ingested.
   */
  lemma ConnectExchangeClosesGap(a: Node, b: Node, bundle: Bundle, addressOfA: string, addressOfB: string)
    ensures var toB := Receive(a, bundle, addressOfB, ConnectRequest(b.MyPort)).value.Sends;
      && |toB| == 3 && toB[2].Message == VersionListMessage(a.Files, a.MyPort)
      && var toA := Receive(b, bundle, addressOfA, toB[2].Message).value.Sends;
      && toA == [Outgoing(Peer(IpPart(addressOfA), a.MyPort), FileRequest(Diff(b.Files, a.Files), b.MyPort), NoAction)]
      && Diff(b.Files + Diff(b.Files, a.Files), a.Files) == []
  {
    DiffClosesGap(b.Files, a.Files);
  }

  // ---------------------------------------------------------------------------
  // The node

  /** The outcome of one gossip tick. */
  datatype Tick =
    | Connected(To: Peer)   // a ConnectRequest was sent to this peer
    | Idle                  // nothing was sent
    | Crashed(Error: ProtocolError)
    | StillDrawing          // every draw so far returned a peer with this node's port

  class AntiEntropyProtocol {
    const myPort: int
    const peers: PeerList
    const Versions: VersionList
    /** Every message sent so far, in order. */
    var outbox: seq<Outgoing>

    /**
     * A node listening on `myPort` whose peer list is loaded from
     * `peerFileName`; `stored` is what that file holds, if it exists.
     */
    constructor (myPort: int, peerFileName: string, stored: Option<PeerListSnapshot>, versions: VersionList)
      ensures this.myPort == myPort && Versions == versions && outbox == []
      ensures fresh(peers) && peers.flushes == 0
      ensures stored.None? ==> peers.peers == {} && peers.peerFileName == peerFileName
      ensures stored.Some? ==> peers.Snapshot() == stored.value
    {
      var loaded := GetPeerList(peerFileName, stored);
      this.myPort := myPort;
      peers := loaded;
      Versions := versions;
      outbox := [];
    }

    /** What the handlers read. */
    function State(): Node
      reads this, peers, Versions
    {
      Node(myPort, peers.Snapshot(), Versions.AllFiles)
    }

    method SendMessage(peer: Peer, message: Message, onComplete: OnComplete)
      modifies this`outbox
      ensures outbox == old(outbox) + [Outgoing(peer, message, onComplete)]
    {
      outbox := outbox + [Outgoing(peer, message, onComplete)];
    }

    method SendMetaDataTo(peer: Peer)
      modifies this`outbox
      ensures outbox == old(outbox) + SendMetaData(myPort, peer, peers.Snapshot(), Versions.AllFiles)
    {
      SendMessage(peer, PeerListMessage(peers.Snapshot(), myPort), NoAction);
      SendMessage(peer, VersionListMessage(Versions.AllFiles, myPort), NoAction);
    }

    /** Records the sender as a peer, then merges the received list. */
    method ProcessPeerList(peer: Peer, list: PeerListSnapshot)
      modifies peers
      ensures peers.peers == old(peers.peers) + {peer} + list.Peers
      ensures peers.flushes == old(peers.flushes) + 2
    {
      peers.AddPeerAndFlush(peer);
      var received := new PeerList.Decoded(list);
      peers.MergeWith(received);
    }

    /**
     * Handles one message that arrived from socket address `address`;
     * `bundle` is what the bundling collaborator would build for a file request.
     */
    method ReceiveHandler(address: string, message: Message, bundle: Bundle) returns (res: Outcome<ProtocolError>)
      modifies this`outbox, peers
      ensures var r := Receive(old(State()), bundle, address, message);
        && (r.Ok? ==>
              && res == Pass
              && outbox == old(outbox) + r.value.Sends
              && peers.peers == r.value.Peers
              && peers.flushes == old(peers.flushes) + r.value.Flushes)
        && (r.Err? ==>
              && res == Fail(r.error)
              && outbox == old(outbox)
              && peers.peers == old(peers.peers)
              && peers.flushes == old(peers.flushes))
    {
      var peer := SenderOf(address, message);
      if message.Invitation? {
        SendMessage(peer, AcceptInvitation(myPort), NoAction);
      } else if message.AcceptInvitation? {
        SendMessage(peer, ConnectRequest(myPort), NoAction);
      } else if message.ConnectRequest? {
        SendMessage(peer, AcceptConnect(myPort), NoAction);
        SendMetaDataTo(peer);
      } else if message.AcceptConnect? {
        SendMetaDataTo(peer);
      } else if message.PeerListMessage? {
        ProcessPeerList(peer, message.List);
      } else if message.VersionListMessage? {
        var received := new VersionList.Decoded(message.Files);
        var versionRequest := Versions.GetLessThan(received);
        SendMessage(peer, FileRequest(versionRequest, myPort), NoAction);
      } else if message.FileRequest? {
        SendMessage(peer, FileDataResponse(bundle.Data, myPort), DeleteFile(bundle.FileName));
      } else if message.UnknownMessage? {
        return Fail(UnseenMessageType);
      }
      res := Pass;
    }

    /** Sends an Invitation to `peer`. */
    method InvitePeer(peer: Peer)
      modifies this`outbox
      ensures outbox == old(outbox) + [Outgoing(peer, Invitation(myPort), NoAction)]
    {
      SendMessage(peer, Invitation(myPort), NoAction);
    }

    /**
     * The gossip tick as written: draw peers until one has a port other than
     * this node's, then send it a ConnectRequest. The loop reads the port of
     * the drawn peer before anything checks that a peer was drawn, and it
     * stops only when a draw avoids this node's port; `maxDraws` bounds how
     * many draws after the first are followed.
     */
    method ConnectRandomPeer(maxDraws: nat) returns (res: Tick)
      modifies this`outbox
      ensures peers.peers == {} ==> res == Crashed(NullReference)
      ensures res.Crashed? ==> peers.peers == {}
      ensures peers.peers != {} && (forall p | p in peers.peers :: p.Port == myPort) ==> res == StillDrawing
      ensures !res.Idle?
      ensures res.Connected? ==> res.To in peers.peers && res.To.Port != myPort
      ensures res.Connected? ==> outbox == old(outbox) + [Outgoing(res.To, ConnectRequest(myPort), NoAction)]
      ensures !res.Connected? ==> outbox == old(outbox)
    {
      var peer := peers.SelectRandomPeer();
      var draws := 0;
      while peer.Some? && peer.value.Port == myPort && draws < maxDraws
        invariant peer == None <==> peers.peers == {}
        invariant peer.Some? ==> peer.value in peers.peers
        invariant outbox == old(outbox)
        decreases maxDraws - draws
      {
        peer := peers.SelectRandomPeer();
        draws := draws + 1;
      }
      if peer.None? {
        // the loop condition reads the port of a null peer
        return Crashed(NullReference);
      }
      if peer.value.Port == myPort {
        return StillDrawing;
      }
      // the null check after the loop always passes here
      SendMessage(peer.value, ConnectRequest(myPort), NoAction);
      res := Connected(peer.value);
    }

    /**
     * The gossip tick as intended: connect to a random known peer whose port
     * is not this node's, and do nothing when there is none.
     */
    method ConnectRandomPeerGuarded() returns (res: Tick)
      modifies this`outbox
      ensures res.Connected? || res.Idle?
      ensures res.Connected? <==> exists p :: p in peers.peers && p.Port != myPort
      ensures res.Connected? ==> res.To in peers.peers && res.To.Port != myPort
      ensures res.Connected? ==> outbox == old(outbox) + [Outgoing(res.To, ConnectRequest(myPort), NoAction)]
      ensures res.Idle? ==> outbox == old(outbox)
    {
      var candidates := set p | p in peers.peers && p.Port != myPort;
      if candidates == {} {
        assert forall p | p in peers.peers && p.Port != myPort :: p in candidates;
        return Idle;
      }
      var peer :| peer in candidates;
      SendMessage(peer, ConnectRequest(myPort), NoAction);
      res := Connected(peer);
    }

    /**
     * One timer event: one gossip tick as written, so it crashes on an empty
     * list and keeps drawing when every peer has this node's port.
     */
    method OnTimerEvent(maxDraws: nat) returns (res: Tick)
      modifies this`outbox
      ensures peers.peers == {} ==> res == Crashed(NullReference)
      ensures res.Crashed? ==> peers.peers == {}
      ensures peers.peers != {} && (forall p | p in peers.peers :: p.Port == myPort) ==> res == StillDrawing
      ensures !res.Idle?
      ensures res.Connected? ==> res.To in peers.peers && res.To.Port != myPort
      ensures res.Connected? ==> outbox == old(outbox) + [Outgoing(res.To, ConnectRequest(myPort), NoAction)]
      ensures !res.Connected? ==> outbox == old(outbox)
    {
      res := ConnectRandomPeer(maxDraws);
    }
  }

  /** On an empty peer list, the tick as written dereferences a null peer. */
  method EmptyDirectoryTickCrashes(versions: VersionList, maxDraws: nat) returns (res: Tick)
    ensures res == Crashed(NullReference)
  {
    var node := new AntiEntropyProtocol(9000, "peerlist.json", None, versions);
    res := node.OnTimerEvent(maxDraws);
  }

  /**
   * When the only known peer listens on this node's port, the tick as written
   * keeps drawing however many draws it is allowed, while the guarded tick
   * does nothing.
   */
  method SelfOnlyDirectoryNeverConnects(versions: VersionList, maxDraws: nat) returns (asWritten: Tick, guarded: Tick)
    ensures asWritten == StillDrawing
    ensures guarded == Idle
  {
    var node := new AntiEntropyProtocol(9000, "peerlist.json", None, versions);
    node.peers.AddPeerAndFlush(Peer("10.0.0.2", 9000));
    asWritten := node.OnTimerEvent(maxDraws);
    guarded := node.ConnectRandomPeerGuarded();
  }
}
