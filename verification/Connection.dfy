/** How a connection is put together. */
module Connections {
  import opened Clients
  import opened Messages
  import opened Pipeline
  import opened Receivers
  import opened Senders
  import opened Services
  import opened Sockets

  /**
   * Makes the receiver, waits for the drive's greeting, and only then makes the sender and the service.
   * There is a service exactly if the handshake succeeded; it is usable and nothing is queued or waits.
   */
  method Connect(socket: Socket, p: Protocol, polls: nat) returns (service: Service?, client: Client)
    requires socket.received == [] && socket.sent == []
    modifies socket
    ensures fresh(client) && client.Valid() && client.p == p && client.state.book.submitted == []
    ensures service != null <==> client.Succeeded(Handshake)
    ensures service != null ==>
      && fresh(service) && service.client == client && service.socket == socket
      && service.Valid() && !service.failed && service.nextKey == 0 && service.Quiet()
  {
    hide IsRun, Replay, Receiver.Aligned;
    client := new Client(p);
    var receiver := new Receiver(socket, client);
    var ok := receiver.CompleteHandshake(polls);
    if !ok {
      return null, client;
    }
    var sender := new Sender(socket, receiver);
    service := new Service(sender, receiver);
  }
}
