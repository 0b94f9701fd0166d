/**
 * The per-host refresh state machine of Boinc.Blazor/Data/BoincRpcFactory.cs:
 * the host configuration record, the connection status record and its
 * factories, and the view model whose LoadData connects, authorizes and
 * queries one host.
 *
 * The RPC client library is not modelled: every call into it is replaced by
 * an input (RpcOutcomes) that says how that call turned out.
 */
module BoincRpcFactory {
  import Wrappers

  /** The well-known port of the BOINC client's GUI RPC service. */
  const DefaultPort := 31416

  /** Host configuration; the default values are those the C# record gives unset properties. */
  datatype BoincHost = BoincHost(id: int := 0, uri: string := "localhost", port: int := DefaultPort, authKey: string := "")

  datatype ConnectionStatus = None | Ready | Unauthorized | Unreachable

  /** A status together with its diagnostic message (the record's default message is empty). */
  datatype BoincHostStatus = BoincHostStatus(status: ConnectionStatus, message: string)

  function NoneStatus(): BoincHostStatus
  {
    BoincHostStatus(ConnectionStatus.None, "")
  }

  function ReadyStatus(): BoincHostStatus
  {
    BoincHostStatus(Ready, "")
  }

  function UnauthorizedStatus(): BoincHostStatus
  {
    BoincHostStatus(Unauthorized, "")
  }

  function UnreachableStatus(message: string): BoincHostStatus
  {
    BoincHostStatus(Unreachable, message)
  }

  /** Values returned by the RPC library; only their identity matters to the core. */
  datatype HostInfo = HostInfo(domainName: string)
  datatype CoreClientState = CoreClientState(projects: seq<string>)

  /** How each call into the RPC client turned out on one refresh attempt. */
  datatype ConnectOutcome = ConnectOk | ConnectFailed(message: string)
  datatype AuthorizeOutcome = AuthorizeOk(authorized: bool) | AuthorizeFailed(message: string)
  datatype QueryOutcome<T> = QueryOk(value: T) | QueryFailed(message: string)
  datatype RpcOutcomes = RpcOutcomes(
    connect: ConnectOutcome,
    authorize: AuthorizeOutcome,
    hostInfo: QueryOutcome<HostInfo>,
    state: QueryOutcome<CoreClientState>)

  /**
   * The status half of GetRpcClientAsync's result (the client half is the
   * outcomes themselves): connect, then authorize, any exception caught and
   * turned into Unreachable with the exception's message.
   */
  function GetRpcClient(rpc: RpcOutcomes): (r: BoincHostStatus)
    ensures r.status != ConnectionStatus.None
    ensures r.status == Ready <==> rpc.connect.ConnectOk? && rpc.authorize == AuthorizeOk(true)
    ensures r.status == Unauthorized <==> rpc.connect.ConnectOk? && rpc.authorize == AuthorizeOk(false)
    ensures r.status == Unreachable <==> rpc.connect.ConnectFailed? || (rpc.connect.ConnectOk? && rpc.authorize.AuthorizeFailed?)
    ensures rpc.connect.ConnectFailed? ==> r.message == rpc.connect.message
    ensures rpc.connect.ConnectOk? && rpc.authorize.AuthorizeFailed? ==> r.message == rpc.authorize.message
    ensures r.status != Unreachable ==> r.message == ""
  {
    match rpc.connect
    case ConnectFailed(m) => UnreachableStatus(m)
    case ConnectOk =>
      match rpc.authorize
      case AuthorizeFailed(m) => UnreachableStatus(m)
      case AuthorizeOk(authorized) => if authorized then ReadyStatus() else UnauthorizedStatus()
  }

  /** The mutable part of a view model. */
  datatype Snapshot = Snapshot(status: BoincHostStatus, hostInfo: Wrappers.Option<HostInfo>, clientState: Wrappers.Option<CoreClientState>)

  /** The state of a freshly constructed view model. */
  function InitialSnapshot(): Snapshot
  {
    Snapshot(NoneStatus(), Wrappers.None, Wrappers.None)
  }

  /**
   * What one LoadData call does: the new snapshot, the message of the
   * exception that escapes it (if any), and whether the client was disposed.
   */
  datatype RefreshResult = RefreshResult(after: Snapshot, fault: Wrappers.Option<string>, disposed: bool)

  function Refresh(before: Snapshot, rpc: RpcOutcomes): (r: RefreshResult)
    // the status depends on connect and authorize alone
    ensures r.after.status == GetRpcClient(rpc)
    // the client is disposed exactly on the Ready path
    ensures r.disposed <==> r.after.status.status == Ready
    // without Ready nothing is queried: cached data kept, no exception
    ensures r.after.status.status != Ready ==>
      r.after.hostInfo == before.hostInfo && r.after.clientState == before.clientState && r.fault.None?
    // Ready and both queries succeed: both caches overwritten, no exception
    ensures r.after.status.status == Ready && rpc.hostInfo.QueryOk? && rpc.state.QueryOk? ==>
      r.after.hostInfo == Wrappers.Some(rpc.hostInfo.value) && r.after.clientState == Wrappers.Some(rpc.state.value) && r.fault.None?
    // Ready and GetHostInfo fails: its exception escapes, the status stays Ready, nothing else changes
    ensures r.after.status.status == Ready && rpc.hostInfo.QueryFailed? ==>
      r.fault == Wrappers.Some(rpc.hostInfo.message) && r.after.hostInfo == before.hostInfo && r.after.clientState == before.clientState
    // Ready, GetHostInfo succeeds and GetState fails: HostInfo is new, ClientState is old
    ensures r.after.status.status == Ready && rpc.hostInfo.QueryOk? && rpc.state.QueryFailed? ==>
      r.fault == Wrappers.Some(rpc.state.message) && r.after.hostInfo == Wrappers.Some(rpc.hostInfo.value) && r.after.clientState == before.clientState
  {
    var status := GetRpcClient(rpc);
    var connected := before.(status := status);
    if status.status != Ready then
      RefreshResult(connected, Wrappers.None, false)
    else
      match rpc.hostInfo
      case QueryFailed(m) => RefreshResult(connected, Wrappers.Some(m), true)
      case QueryOk(info) =>
        var withInfo := connected.(hostInfo := Wrappers.Some(info));
        match rpc.state
        case QueryFailed(m) => RefreshResult(withInfo, Wrappers.Some(m), true)
        case QueryOk(state) => RefreshResult(withInfo.(clientState := Wrappers.Some(state)), Wrappers.None, true)
  }

  /** How LoadData returns: the view model itself, or the exception that escaped it. */
  datatype LoadOutcome = Loaded(model: BoincHostViewModel) | Faulted(message: string)

  class BoincHostViewModel {
    const id: int
    const uri: string
    const port: int
    const authKey: string
    var status: BoincHostStatus
    var hostInfo: Wrappers.Option<HostInfo>
    var clientState: Wrappers.Option<CoreClientState>

    /** The configuration this view model was created from. */
    function Config(): BoincHost
    {
      BoincHost(id, uri, port, authKey)
    }

    function Snap(): Snapshot
      reads this
    {
      Snapshot(status, hostInfo, clientState)
    }

    /** Only an Unreachable status carries a message; every other factory leaves it empty. */
    predicate MessageOnlyWhenUnreachable()
      reads this
    {
      status.status != Unreachable ==> status.message == ""
    }

    constructor (host: BoincHost)
      ensures Config() == host
      ensures Snap() == InitialSnapshot()
      ensures status.status == ConnectionStatus.None && hostInfo.None? && clientState.None?
      ensures MessageOnlyWhenUnreachable()
    {
      id := host.id;
      uri := host.uri;
      port := host.port;
      authKey := host.authKey;
      status := NoneStatus();
      hostInfo := Wrappers.None;
      clientState := Wrappers.None;
    }

    /**
     * LoadDataAsync (lines 30-48): store the connection status, and on Ready
     * query the host info and then the client state while the client is in
     * scope. `released` records whether the client was disposed.
     */
    method LoadData(rpc: RpcOutcomes) returns (r: LoadOutcome, ghost released: bool)
      modifies this
      ensures Snap() == Refresh(old(Snap()), rpc).after
      ensures MessageOnlyWhenUnreachable()
      ensures released == Refresh(old(Snap()), rpc).disposed
      ensures r == match Refresh(old(Snap()), rpc).fault
                   case None => Loaded(this)
                   case Some(m) => Faulted(m)
    {
      status := GetRpcClient(rpc);
      released := false;
      if status.status == Ready {
        match rpc.hostInfo {
          case QueryFailed(m) =>
            released := true;
            r := Faulted(m);
            return;
          case QueryOk(info) =>
            hostInfo := Wrappers.Some(info);
        }
        match rpc.state {
          case QueryFailed(m) =>
            released := true;
            r := Faulted(m);
            return;
          case QueryOk(state) =>
            clientState := Wrappers.Some(state);
        }
        released := true;
      }
      r := Loaded(this);
    }
  }
}
