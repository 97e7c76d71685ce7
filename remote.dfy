/** The remote side of a message bus, as far as the bus sees it.

    MessageBusClient.java is not part of this model: its network transport
    is replaced by a class whose fields record what the bus asked of it and
    what the server has told it. Whether the server accepts a connection is
    a parameter of ConnectToServer; the handshake metadata the server sends
    arrives through Receive, which the bus's poll loop calls on behalf of the
    client's network thread. */
module Remote {
  import opened Wrappers
  import opened Messages

  /** jgnash's DataStoreType: the kind of data store the server runs. */
  datatype StoreType = BinaryXStream | XmlXStream | H2Database | HsqlDatabase

  /** The handshake metadata a client holds at one instant. */
  datatype Metadata = Metadata(path: Option<string>, storeType: Option<StoreType>) {
    /** Both pieces of the handshake have arrived. */
    predicate Complete() {
      path.Some? && storeType.Some?
    }
  }

  class Client {
    const host: string
    const port: int
    const busName: string
    var connected: bool
    var dataBasePath: Option<string>
    var dataStoreType: Option<StoreType>
    /** Messages handed to sendRemoteMessage, in order. */
    ghost var sent: seq<Message>
    /** Whether sendRemoteShutdownRequest was called. */
    ghost var shutdownRequested: bool

    /** The handshake is done: the server has reported where and what its data store is. */
    predicate Handshaken()
      reads this
    {
      Metadata(dataBasePath, dataStoreType).Complete()
    }

    constructor (host: string, port: int, busName: string)
      ensures this.host == host && this.port == port && this.busName == busName
      ensures !connected && dataBasePath.None? && dataStoreType.None?
      ensures sent == [] && !shutdownRequested
    {
      this.host := host;
      this.port := port;
      this.busName := busName;
      connected := false;
      dataBasePath := None;
      dataStoreType := None;
      sent := [];
      shutdownRequested := false;
    }

    /** Transport-level connect; `accepted` is the server's verdict. */
    method ConnectToServer(password: string, accepted: bool) returns (ok: bool)
      modifies this`connected
      ensures ok == accepted && connected == accepted
    {
      connected := accepted;
      ok := accepted;
    }

    method DisconnectFromServer()
      modifies this`connected
      ensures !connected
    {
      connected := false;
    }

    /** The client's network thread stores the metadata it has received so far. */
    method Receive(meta: Metadata)
      modifies this`dataBasePath, this`dataStoreType
      ensures dataBasePath == meta.path && dataStoreType == meta.storeType
      ensures Handshaken() == meta.Complete()
    {
      dataBasePath := meta.path;
      dataStoreType := meta.storeType;
    }

    method SendRemoteMessage(m: Message)
      modifies this`sent
      ensures sent == old(sent) + [m]
    {
      sent := sent + [m];
    }

    method SendRemoteShutdownRequest()
      modifies this`shutdownRequested
      ensures shutdownRequested
    {
      shutdownRequested := true;
    }
  }
}
