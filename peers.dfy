/**
 * The client's table of media calls (public/script.js, `peers`): a
 * dictionary from a remote peer's id to the PeerJS call connecting this
 * client to it. Socket and PeerJS events become method calls on `Client`.
 */
module Peers {

  /** A PeerJS peer id. */
  type PeerId = string

  /** A media call with one remote peer; closing it is all this model observes. */
  class Call {
    /** The remote peer's id (`call.peer`). */
    const peer: PeerId
    var closed: bool

    constructor (peer: PeerId)
      ensures this.peer == peer && !closed
    {
      this.peer := peer;
      closed := false;
    }

    /** Hangs up the call. Closing a closed call leaves it closed. */
    method Close()
      modifies this
      ensures closed
    {
      closed := true;
    }
  }

  /** The conference page's call bookkeeping. */
  class Client {
    /** The calls this client holds, keyed by the remote peer's id. */
    var peers: map<PeerId, Call>
    /** Whether `getUserMedia` has delivered the local camera and microphone stream. */
    var hasLocalStream: bool

    /** Every call is filed under the id of the peer at its other end. */
    ghost predicate Valid()
      reads this
    {
      forall p :: p in peers ==> peers[p].peer == p
    }

    /** The page as loaded: no calls and no local stream yet. */
    constructor ()
      ensures Valid()
      ensures peers == map[] && !hasLocalStream
    {
      peers := map[];
      hasLocalStream := false;
    }

    /**
     * `getUserMedia` settles: when access is granted the local stream is kept
     * (and the incoming-call handler is installed); when it is refused the
     * client only shows an alert.
     */
    method OnGetUserMedia(granted: bool)
      requires Valid()
      modifies this
      ensures Valid()
      ensures hasLocalStream == (old(hasLocalStream) || granted)
      ensures peers == old(peers)
    {
      if granted {
        hasLocalStream := true;
      }
    }

    /**
     * Places a call to `userId` (`connectToNewUser`). `callPlaced` says whether
     * `myPeer.call` produced a call object; when it did not, setting up the
     * call throws, the exception is caught and the table is left alone. A
     * previous call filed under `userId` is dropped without being closed.
     */
    method ConnectToNewUser(userId: PeerId, callPlaced: bool) returns (call: Call?)
      requires Valid()
      modifies this
      ensures Valid()
      ensures callPlaced ==> call != null && fresh(call) && call.peer == userId && !call.closed
      ensures callPlaced ==> peers == old(peers)[userId := call]
      ensures !callPlaced ==> call == null && peers == old(peers)
      ensures hasLocalStream == old(hasLocalStream)
    {
      call := null;
      if callPlaced {
        call := new Call(userId);
        peers := peers[userId := call];
      }
    }

    /**
     * The socket's `user-connected` event, once its delay has passed: the new
     * user is called only when the local stream is there to send.
     */
    method OnUserConnected(userId: PeerId, callPlaced: bool) returns (call: Call?)
      requires Valid()
      modifies this
      ensures Valid()
      ensures old(hasLocalStream) && callPlaced ==>
        call != null && fresh(call) && call.peer == userId && !call.closed &&
        peers == old(peers)[userId := call]
      ensures !(old(hasLocalStream) && callPlaced) ==> call == null && peers == old(peers)
      ensures hasLocalStream == old(hasLocalStream)
    {
      call := null;
      if hasLocalStream {
        call := ConnectToNewUser(userId, callPlaced);
      }
    }

    /**
     * PeerJS's `call` event: an incoming call is answered with the local
     * stream and filed under the caller's id. The handler is installed only
     * once the local stream exists; before that the event goes unheard.
     */
    method OnIncomingCall(call: Call)
      requires Valid()
      modifies this
      ensures Valid()
      ensures peers == if old(hasLocalStream) then old(peers)[call.peer := call] else old(peers)
      ensures hasLocalStream == old(hasLocalStream)
    {
      if hasLocalStream {
        peers := peers[call.peer := call];
      }
    }

    /**
     * The socket's `user-disconnected` event: the call with `userId`, if there
     * is one, is closed and removed from the table; nothing else changes.
     */
    method OnUserDisconnected(userId: PeerId)
      requires Valid()
      modifies this, if userId in peers then {peers[userId]} else {}
      ensures Valid()
      ensures userId in old(peers) ==> old(peers)[userId].closed && peers == old(peers) - {userId}
      ensures userId !in old(peers) ==> peers == old(peers)
      ensures forall p :: p in peers ==> peers[p].closed == old(peers[p].closed)
      ensures hasLocalStream == old(hasLocalStream)
    {
      if userId in peers {
        peers[userId].Close();
        peers := peers - {userId};
      }
    }
  }

  /**
   * A second `user-disconnected` for the same user finds nothing to close:
   * the pair of events has the effect of the first one alone.
   */
  method DisconnectTwice(client: Client, userId: PeerId)
    requires client.Valid()
    modifies client, if userId in client.peers then {client.peers[userId]} else {}
    ensures client.Valid()
    ensures userId !in client.peers
    ensures client.peers == old(client.peers) - {userId}
    ensures userId in old(client.peers) ==> old(client.peers)[userId].closed
    ensures client.hasLocalStream == old(client.hasLocalStream)
  {
    client.OnUserDisconnected(userId);
    client.OnUserDisconnected(userId);
  }
}
