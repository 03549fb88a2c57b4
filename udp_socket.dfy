/**
  `UDPSocket`: owns one datagram-socket descriptor (`-1` when it owns none), a bound flag and
  cached `sockaddr_in` records for the local and the remote endpoint.

  The operating system is not modelled. Each call into it becomes a parameter that supplies
  its result (the descriptor `socket()` returned, the status of `::bind`, the byte count of
  `::send`, ...), and each method also returns, as ghost output, the list of calls it made,
  so that the contracts can say which calls are made, with which arguments and in which order.
*/
module Socket {
  import opened Ints
  import opened ByteOrder
  import opened Errors
  import opened Address

  /** `AF_INET`. */
  const AfInet: int := 2

  /** `struct sockaddr_in`: family, then port and address in network byte order (padding omitted). */
  datatype SockAddrIn = SockAddrIn(family: int, port: uint16, addr: uint32)

  /** A `sockaddr_in` cleared by `memset(…, 0, …)`. */
  const Zeroed: SockAddrIn := SockAddrIn(0, 0, 0)

  /** A socket option together with the value passed to `setsockopt`. */
  datatype SockOpt =
    | Broadcast(flag: int)                     // SO_BROADCAST
    | ReuseAddress(flag: int)                  // SO_REUSEADDR
    | ReceiveTimeout(sec: int, usec: int)      // SO_RCVTIMEO
    | SendTimeout(sec: int, usec: int)         // SO_SNDTIMEO

  /** A call into the operating system, with the arguments the wrapper passes. */
  datatype OsCall =
    | SocketCall                                            // socket(AF_INET, SOCK_DGRAM, 0)
    | BindCall(fd: int, addr: SockAddrIn)
    | ConnectCall(fd: int, addr: SockAddrIn)
    | SendCall(fd: int, size: nat)
    | SendToCall(fd: int, size: nat, dest: SockAddrIn)
    | RecvCall(fd: int, size: nat)
    | RecvFromCall(fd: int, size: nat)
    | SetOptCall(fd: int, opt: SockOpt)
    | CloseCall(fd: int)

  /** `UDPSocket::ReceiveFromResult`. */
  datatype ReceiveFromResult = ReceiveFromResult(bytesReceived: int, senderAddress: IPv4Address, senderPort: uint16)

  /**
    The `sockaddr_in` that bind, connect and send_to fill in: `AF_INET`, `htons(port)` and
    `htonl(address.to_uint32())`. Reading it back with `ntohl`/`ntohs` gives the endpoint again.
  */
  function Endpoint(address: IPv4Address, port: uint16): (sa: SockAddrIn)
    ensures sa.family == AfInet
    ensures FromUint32(Ntohl(Host, sa.addr)) == address
    ensures Ntohs(Host, sa.port) == port
  {
    AddressOrderRoundTrip(Host, ToUint32(address));
    PortOrderRoundTrip(Host, port);
    IntegerRoundTrip(address);
    SockAddrIn(AfInet, Htons(Host, port), Htonl(Host, ToUint32(address)))
  }

  /** A cleared `sockaddr_in` reads back as 0.0.0.0 and port 0. */
  lemma ZeroedIsAny()
    ensures FromUint32(Ntohl(Host, Zeroed.addr)) == Any
    ensures Ntohs(Host, Zeroed.port) == 0
  {
    ZeroUnchanged(Host);
    assert FromUint32(0) == Any;
  }

  class UDPSocket {
    var fd: int                 // m_socket_fd
    var localAddr: SockAddrIn   // m_local_addr
    var remoteAddr: SockAddrIn  // m_remote_addr
    var isBound: bool           // m_is_bound

    /** Only a socket that holds a descriptor can be bound. */
    ghost predicate Valid()
      reads this
    {
      fd == -1 ==> !isBound
    }

    /** `is_valid()`. */
    predicate IsValid()
      reads this
    {
      fd != -1
    }

    /**
      The private constructor: both endpoints cleared, not bound, and the descriptor that
      `socket(AF_INET, SOCK_DGRAM, 0)` returned (`osFd`, which is `-1` on failure).
    */
    constructor (osFd: int)
      ensures Valid()
      ensures fd == osFd && !isBound && localAddr == Zeroed && remoteAddr == Zeroed
    {
      fd := -1;
      isBound := false;
      localAddr := Zeroed;
      remoteAddr := Zeroed;
      fd := osFd;
    }

    /** `create()`: a fresh socket, or `InvalidSocket` exactly when `socket()` returned `-1`. */
    static method Create(osFd: int) returns (r: Result<UDPSocket>, ghost calls: seq<OsCall>)
      ensures calls == [SocketCall]
      ensures r.Err? <==> osFd == -1
      ensures r.Err? ==> r.error == InvalidSocket
      ensures r.Ok? ==> fresh(r.value) && r.value.Valid() && r.value.fd == osFd && !r.value.isBound
      ensures r.Ok? ==> r.value.localAddr == Zeroed && r.value.remoteAddr == Zeroed
      ensures r.Ok? ==> r.value.GetLocalAddress() == Err(NotBound) && r.value.GetLocalPort() == Err(NotBound)
      ensures r.Ok? ==> r.value.GetRemoteAddress() == Ok(Any) && r.value.GetRemotePort() == Ok(0)
    {
      var socket := new UDPSocket(osFd);
      calls := [SocketCall];
      if !socket.IsValid() {
        return Err(InvalidSocket), calls;
      }
      r := Ok(socket);
      ZeroedIsAny();
    }

    /**
      Move constructor: the new socket takes the descriptor, both endpoints and the bound flag;
      the source is left without a descriptor and unbound, its endpoint caches untouched.
    */
    constructor Move(other: UDPSocket)
      requires other.Valid()
      modifies other
      ensures Valid() && other.Valid()
      ensures fd == old(other.fd) && isBound == old(other.isBound)
      ensures localAddr == old(other.localAddr) && remoteAddr == old(other.remoteAddr)
      ensures other.fd == -1 && !other.isBound
      ensures other.localAddr == old(other.localAddr) && other.remoteAddr == old(other.remoteAddr)
    {
      fd := other.fd;
      localAddr := other.localAddr;
      remoteAddr := other.remoteAddr;
      isBound := other.isBound;
      new;
      other.fd := -1;
      other.isBound := false;
    }

    /**
      Move assignment: unless `other` is this socket (then nothing happens), first close the
      descriptor this socket holds, then take over everything `other` had; `other` is left
      without a descriptor and unbound.
    */
    method MoveAssign(other: UDPSocket) returns (ghost calls: seq<OsCall>)
      requires Valid() && other.Valid()
      modifies this, other
      ensures Valid() && other.Valid()
      ensures other == this ==> unchanged(this) && calls == []
      ensures other != this ==>
        && fd == old(other.fd) && isBound == old(other.isBound)
        && localAddr == old(other.localAddr) && remoteAddr == old(other.remoteAddr)
        && other.fd == -1 && !other.isBound
        && other.localAddr == old(other.localAddr) && other.remoteAddr == old(other.remoteAddr)
        && calls == (if old(fd) != -1 then [CloseCall(old(fd))] else [])
    {
      calls := [];
      if this != other {
        calls := Close();
        fd := other.fd;
        localAddr := other.localAddr;
        remoteAddr := other.remoteAddr;
        isBound := other.isBound;
        other.fd := -1;
        other.isBound := false;
      }
    }

    /**
      `bind(address, port)`: on a socket without a descriptor, `InvalidSocket` and nothing
      changes. Otherwise the local endpoint is cached first; then `::bind` (`osResult`) either
      fails with `-1`, giving `BindFailed` with the bound flag as it was but the cache already
      overwritten, or succeeds and the socket is bound.
    */
    method Bind(address: IPv4Address, port: uint16, osResult: int) returns (r: Result<()>, ghost calls: seq<OsCall>)
      requires Valid()
      modifies this
      ensures Valid()
      ensures old(fd) == -1 ==> r == Err(InvalidSocket) && calls == [] && unchanged(this)
      ensures old(fd) != -1 ==>
        && fd == old(fd) && remoteAddr == old(remoteAddr)
        && localAddr == Endpoint(address, port)
        && calls == [BindCall(fd, localAddr)]
        && (r.Ok? <==> osResult != -1)
        && (r.Err? ==> r.error == BindFailed && isBound == old(isBound))
        && (r.Ok? ==> isBound)
      ensures r.Ok? ==> GetLocalAddress() == Ok(address) && GetLocalPort() == Ok(port)
    {
      if !IsValid() {
        return Err(InvalidSocket), [];
      }
      localAddr := Endpoint(address, port);
      calls := [BindCall(fd, localAddr)];
      if osResult == -1 {
        return Err(BindFailed), calls;
      }
      isBound := true;
      r := Ok(());
    }

    /**
      `connect(address, port)`: on a socket without a descriptor, `InvalidSocket` and nothing
      changes. Otherwise the remote endpoint is cached, and stays cached even when `::connect`
      (`osResult`) fails with `-1` and the result is `ConnectFailed`.
    */
    method Connect(address: IPv4Address, port: uint16, osResult: int) returns (r: Result<()>, ghost calls: seq<OsCall>)
      requires Valid()
      modifies this
      ensures Valid()
      ensures old(fd) == -1 ==> r == Err(InvalidSocket) && calls == [] && unchanged(this)
      ensures old(fd) != -1 ==>
        && fd == old(fd) && localAddr == old(localAddr) && isBound == old(isBound)
        && remoteAddr == Endpoint(address, port)
        && calls == [ConnectCall(fd, remoteAddr)]
        && (r.Ok? <==> osResult != -1)
        && (r.Err? ==> r.error == ConnectFailed)
      ensures old(fd) != -1 ==> GetRemoteAddress() == Ok(address) && GetRemotePort() == Ok(port)
    {
      if !IsValid() {
        return Err(InvalidSocket), [];
      }
      remoteAddr := Endpoint(address, port);
      calls := [ConnectCall(fd, remoteAddr)];
      if osResult == -1 {
        return Err(ConnectFailed), calls;
      }
      r := Ok(());
    }

    /**
      `send(data, size)`: `InvalidSocket` without a descriptor (and no call made); otherwise one
      `::send`, whose result `osResult` is `SendFailed` when `-1` and the byte count otherwise.
    */
    method Send(size: nat, osResult: int) returns (r: Result<int>, ghost calls: seq<OsCall>)
      ensures fd == -1 ==> r == Err(InvalidSocket) && calls == []
      ensures fd != -1 ==>
        && calls == [SendCall(fd, size)]
        && (r.Err? <==> osResult == -1)
        && (r.Err? ==> r.error == SendFailed)
        && (r.Ok? ==> r.value == osResult)
    {
      if !IsValid() {
        return Err(InvalidSocket), [];
      }
      calls := [SendCall(fd, size)];
      if osResult == -1 {
        return Err(SendFailed), calls;
      }
      r := Ok(osResult);
    }

    /**
      `send_to(data, size, address, port)`: like `send`, but `sendto` is given a freshly filled
      `sockaddr_in` for the destination, which reads back as `address` and `port`.
    */
    method SendTo(size: nat, address: IPv4Address, port: uint16, osResult: int) returns (r: Result<int>, ghost calls: seq<OsCall>)
      ensures fd == -1 ==> r == Err(InvalidSocket) && calls == []
      ensures fd != -1 ==>
        && |calls| == 1 && calls[0].SendToCall? && calls[0].fd == fd && calls[0].size == size
        && calls[0].dest.family == AfInet
        && FromUint32(Ntohl(Host, calls[0].dest.addr)) == address
        && Ntohs(Host, calls[0].dest.port) == port
        && (r.Err? <==> osResult == -1)
        && (r.Err? ==> r.error == SendFailed)
        && (r.Ok? ==> r.value == osResult)
    {
      if !IsValid() {
        return Err(InvalidSocket), [];
      }
      var dest := Endpoint(address, port);
      calls := [SendToCall(fd, size, dest)];
      if osResult == -1 {
        return Err(SendFailed), calls;
      }
      r := Ok(osResult);
    }

    /**
      `receive(buffer, size)`: `InvalidSocket` without a descriptor; otherwise one `recv`, whose
      result `osResult` is `ReceiveFailed` when `-1` and the byte count otherwise.
    */
    method Receive(size: nat, osResult: int) returns (r: Result<int>, ghost calls: seq<OsCall>)
      ensures fd == -1 ==> r == Err(InvalidSocket) && calls == []
      ensures fd != -1 ==>
        && calls == [RecvCall(fd, size)]
        && (r.Err? <==> osResult == -1)
        && (r.Err? ==> r.error == ReceiveFailed)
        && (r.Ok? ==> r.value == osResult)
    {
      if !IsValid() {
        return Err(InvalidSocket), [];
      }
      calls := [RecvCall(fd, size)];
      if osResult == -1 {
        return Err(ReceiveFailed), calls;
      }
      r := Ok(osResult);
    }

    /**
      `receive_from(buffer, size)`: like `receive`; on success the sender is decoded from the
      `sockaddr_in` that `recvfrom` filled in (`osSender`) with `ntohl` and `ntohs`, so that
      encoding the reported sender again gives exactly what the kernel wrote.
    */
    method ReceiveFrom(size: nat, osResult: int, osSender: SockAddrIn) returns (r: Result<ReceiveFromResult>, ghost calls: seq<OsCall>)
      ensures fd == -1 ==> r == Err(InvalidSocket) && calls == []
      ensures fd != -1 ==>
        && calls == [RecvFromCall(fd, size)]
        && (r.Err? <==> osResult == -1)
        && (r.Err? ==> r.error == ReceiveFailed)
        && (r.Ok? ==> r.value.bytesReceived == osResult)
        && (r.Ok? ==> Htonl(Host, ToUint32(r.value.senderAddress)) == osSender.addr)
        && (r.Ok? ==> Htons(Host, r.value.senderPort) == osSender.port)
    {
      if !IsValid() {
        return Err(InvalidSocket), [];
      }
      calls := [RecvFromCall(fd, size)];
      if osResult == -1 {
        return Err(ReceiveFailed), calls;
      }
      AddressOrderRoundTrip(Host, osSender.addr);
      PortOrderRoundTrip(Host, osSender.port);
      r := Ok(ReceiveFromResult(osResult, FromUint32(Ntohl(Host, osSender.addr)), Ntohs(Host, osSender.port)));
    }

    /**
      `close()`: if a descriptor is held, `::close` it and become invalid and unbound; if none
      is held, nothing happens. Either way the socket ends invalid and unbound.
    */
    method Close() returns (ghost calls: seq<OsCall>)
      requires Valid()
      modifies this
      ensures Valid() && !IsValid() && !isBound
      ensures localAddr == old(localAddr) && remoteAddr == old(remoteAddr)
      ensures old(fd) == -1 ==> unchanged(this) && calls == []
      ensures old(fd) != -1 ==> calls == [CloseCall(old(fd))]
    {
      calls := [];
      if fd != -1 {
        calls := [CloseCall(fd)];
        fd := -1;
        isBound := false;
      }
    }

    /** `get_local_address()`: `NotBound` until a bind succeeded, else the cached address decoded. */
    function GetLocalAddress(): (r: Result<IPv4Address>)
      reads this
      ensures r.Err? <==> !isBound
      ensures r.Err? ==> r.error == NotBound
      ensures r.Ok? ==> Htonl(Host, ToUint32(r.value)) == localAddr.addr
    {
      if !isBound then Err(NotBound)
      else
        AddressOrderRoundTrip(Host, localAddr.addr);
        Ok(FromUint32(Ntohl(Host, localAddr.addr)))
    }

    /** `get_local_port()`: `NotBound` until a bind succeeded, else the cached port decoded. */
    function GetLocalPort(): (r: Result<uint16>)
      reads this
      ensures r.Err? <==> !isBound
      ensures r.Err? ==> r.error == NotBound
      ensures r.Ok? ==> Htons(Host, r.value) == localAddr.port
    {
      if !isBound then Err(NotBound)
      else
        PortOrderRoundTrip(Host, localAddr.port);
        Ok(Ntohs(Host, localAddr.port))
    }

    /** `get_remote_address()`: never fails; the cached remote address decoded. */
    function GetRemoteAddress(): (r: Result<IPv4Address>)
      reads this
      ensures r.Ok?
      ensures Htonl(Host, ToUint32(r.value)) == remoteAddr.addr
    {
      AddressOrderRoundTrip(Host, remoteAddr.addr);
      Ok(FromUint32(Ntohl(Host, remoteAddr.addr)))
    }

    /** `get_remote_port()`: never fails; the cached remote port decoded. */
    function GetRemotePort(): (r: Result<uint16>)
      reads this
      ensures r.Ok?
      ensures Htons(Host, r.value) == remoteAddr.port
    {
      PortOrderRoundTrip(Host, remoteAddr.port);
      Ok(Ntohs(Host, remoteAddr.port))
    }

    /**
      `set_broadcast(enable)`: `InvalidSocket` without a descriptor; otherwise one `setsockopt`
      of `SO_BROADCAST` to 1 or 0, and `SocketOptionFailed` when it returns non-zero.
    */
    method SetBroadcast(enable: bool, osResult: int) returns (r: Result<()>, ghost calls: seq<OsCall>)
      ensures fd == -1 ==> r == Err(InvalidSocket) && calls == []
      ensures fd != -1 ==>
        && calls == [SetOptCall(fd, Broadcast(if enable then 1 else 0))]
        && (r.Err? <==> osResult != 0)
        && (r.Err? ==> r.error == SocketOptionFailed)
    {
      if !IsValid() {
        return Err(InvalidSocket), [];
      }
      var flag := if enable then 1 else 0;
      calls := [SetOptCall(fd, Broadcast(flag))];
      if osResult != 0 {
        return Err(SocketOptionFailed), calls;
      }
      r := Ok(());
    }

    /**
      `set_reuse_address(enable)`: `InvalidSocket` without a descriptor; otherwise one
      `setsockopt` of `SO_REUSEADDR` to 1 or 0, and `SocketOptionFailed` when it returns non-zero.
    */
    method SetReuseAddress(enable: bool, osResult: int) returns (r: Result<()>, ghost calls: seq<OsCall>)
      ensures fd == -1 ==> r == Err(InvalidSocket) && calls == []
      ensures fd != -1 ==>
        && calls == [SetOptCall(fd, ReuseAddress(if enable then 1 else 0))]
        && (r.Err? <==> osResult != 0)
        && (r.Err? ==> r.error == SocketOptionFailed)
    {
      if !IsValid() {
        return Err(InvalidSocket), [];
      }
      var flag := if enable then 1 else 0;
      calls := [SetOptCall(fd, ReuseAddress(flag))];
      if osResult != 0 {
        return Err(SocketOptionFailed), calls;
      }
      r := Ok(());
    }

    /**
      `set_timeout(seconds, microseconds)`: `InvalidSocket` without a descriptor; otherwise
      `SO_RCVTIMEO` is set (result `rcvResult`) and, only if that returned 0, `SO_SNDTIMEO`
      (result `sndResult`); `SocketOptionFailed` if either returned non-zero.
    */
    method SetTimeout(seconds: int, microseconds: int, rcvResult: int, sndResult: int)
      returns (r: Result<()>, ghost calls: seq<OsCall>)
      ensures fd == -1 ==> r == Err(InvalidSocket) && calls == []
      ensures fd != -1 ==>
        && (r.Err? <==> rcvResult != 0 || sndResult != 0)
        && (r.Err? ==> r.error == SocketOptionFailed)
        && |calls| >= 1 && calls[0] == SetOptCall(fd, ReceiveTimeout(seconds, microseconds))
        && (rcvResult != 0 ==> |calls| == 1)
        && (rcvResult == 0 ==> calls == [calls[0], SetOptCall(fd, SendTimeout(seconds, microseconds))])
    {
      if !IsValid() {
        return Err(InvalidSocket), [];
      }
      calls := [SetOptCall(fd, ReceiveTimeout(seconds, microseconds))];
      if rcvResult != 0 {
        return Err(SocketOptionFailed), calls;
      }
      calls := calls + [SetOptCall(fd, SendTimeout(seconds, microseconds))];
      if sndResult != 0 {
        return Err(SocketOptionFailed), calls;
      }
      r := Ok(());
    }
  }

  /** No two sockets of `pool` hold the same descriptor. */
  ghost predicate SingleOwner(pool: set<UDPSocket>)
    reads pool
  {
    forall s, t | s in pool && t in pool && s != t :: s.fd != -1 ==> s.fd != t.fd
  }

  /** Move assignment between sockets of a pool keeps every descriptor with at most one owner. */
  method MoveAssignKeepsSingleOwner(dst: UDPSocket, src: UDPSocket, ghost pool: set<UDPSocket>)
    requires dst in pool && src in pool && SingleOwner(pool)
    requires dst.Valid() && src.Valid()
    modifies dst, src
    ensures SingleOwner(pool)
    ensures dst != src ==> dst.fd == old(src.fd) && !src.IsValid()
  {
    ghost var calls := dst.MoveAssign(src);
  }

  /** Move construction from a socket of a pool keeps every descriptor with at most one owner. */
  method MoveConstructKeepsSingleOwner(src: UDPSocket, ghost pool: set<UDPSocket>) returns (dst: UDPSocket)
    requires src in pool && SingleOwner(pool)
    requires src.Valid()
    modifies src
    ensures fresh(dst)
    ensures SingleOwner(pool + {dst})
    ensures dst.fd == old(src.fd) && !src.IsValid()
  {
    dst := new UDPSocket.Move(src);
  }

  /** Closing twice: the second close makes no call and changes nothing. */
  method CloseTwice(s: UDPSocket) returns (ghost first: seq<OsCall>, ghost second: seq<OsCall>)
    requires s.Valid()
    modifies s
    ensures !s.IsValid() && !s.isBound
    ensures s.localAddr == old(s.localAddr) && s.remoteAddr == old(s.remoteAddr)
    ensures first == (if old(s.fd) != -1 then [CloseCall(old(s.fd))] else [])
    ensures second == []
  {
    first := s.Close();
    ghost var fd, bound, local, remote := s.fd, s.isBound, s.localAddr, s.remoteAddr;
    second := s.Close();
    assert s.fd == fd && s.isBound == bound && s.localAddr == local && s.remoteAddr == remote;
  }

  /**
    A failed bind on a socket that is already bound keeps it bound, yet the local accessors now
    report the endpoint of the failed attempt, because the cache is written before `::bind`.
  */
  method FailedRebind(s: UDPSocket, address: IPv4Address, port: uint16) returns (r: Result<()>)
    requires s.Valid() && s.IsValid() && s.isBound
    modifies s
    ensures r == Err(BindFailed)
    ensures s.isBound
    ensures s.GetLocalAddress() == Ok(address) && s.GetLocalPort() == Ok(port)
  {
    ghost var calls;
    r, calls := s.Bind(address, port, -1);
    assert FromUint32(Ntohl(Host, s.localAddr.addr)) == address;
  }
}
