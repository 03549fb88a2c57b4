# UDP socket wrapper: a Dafny model

This project models the core of a small C++ wrapper around connectionless (UDP) datagram
sockets, used to exchange train control orders. It covers:

- `IPv4Address`, a value of four octets, with its conversions to and from a 32-bit integer
  (octet 0 least significant), its dotted-decimal rendering, structural equality and the
  constants `kLocalHost`, `kAny` and `kBroadcast` (module `Address`, files `address.dfy` and
  `decimal.dfy`);
- the `constexpr` part of `TrainOrder`: default order, three factories, `==` and `!=`
  (module `Train`);
- `SocketError`, the closed set of ten error tags, and its `to_string` (module `Errors`);
- `htons`/`ntohs`/`htonl`/`ntohl` as byte swaps on a little-endian host, identity on a
  big-endian one (module `ByteOrder`); the proofs use only that they are mutually inverse and
  map 0 to 0 (`ByteOrder.ZeroUnchanged`, used by `Socket.ZeroedIsAny`), both of which hold on
  either host;
- `UDPSocket` as a class with the fields `m_socket_fd`, `m_local_addr`, `m_remote_addr` and
  `m_is_bound` (module `Socket`). Every call into the operating system is replaced by a
  parameter that supplies its result (the descriptor from `socket()`, the status of `::bind`,
  `::connect` or `setsockopt`, the count from `send`/`recv`, the sender record `recvfrom`
  fills in). Every method also returns, as ghost output, the list of operating-system calls it
  made, so that the contracts state which calls happen, with which arguments, in which order.

The source does not compile as written: the `UDPSocket` class in include/Socket.hpp
(lines 100-153) declares no `connect`, `send` or `receive`, although src/Socket.cpp
(lines 169-238) defines them as members, and include/Socket.hpp:51 names `SocketError` before
its declaration at line 55. The model follows the definitions in src/Socket.cpp and treats the
three as members of `UDPSocket`; declaration order has no counterpart in Dafny.

What is proved, in the wrapper's terms:

- `IPv4Address(uint32_t)` and `to_uint32()` are inverse bijections.
- `to_string()` writes exactly canonical dotted decimal: four numerals in 0..255 without leading
  zeros, separated by three dots; a reference reader of that notation reads the text back as
  the same address, it accepts nothing else, and two addresses render alike only when equal.
- `==` on addresses and on orders is structural and `!=` is its negation; the three order
  factories are pairwise different; the ten error tags have ten different messages, and only
  `kTrainOrderParseError` (which the switch forgets) renders as "Unknown error".
- For the socket: on a socket without a descriptor, `bind`, `connect`, `send`, `send_to`,
  `receive`, `receive_from`, `set_broadcast`, `set_reuse_address` and `set_timeout` each return
  `kInvalidSocket`, make no system call and change nothing; `close` is idempotent and leaves the socket invalid
  and unbound; the move constructor and move assignment hand over descriptor, endpoints and
  bound flag and leave the source invalid (move assignment first closes the old descriptor,
  self-assignment does nothing), and both moves preserve single ownership of descriptors within
  a pool of sockets;
  the local accessors fail with `kNotBound` until a bind succeeds and then return exactly the
  bound address and port; the remote accessors never fail and return 0.0.0.0:0 until `connect`
  caches an endpoint, which stays cached even if `::connect` fails; a failed bind keeps the
  bound flag but has already overwritten the cached local endpoint; send/receive results of
  `-1` become `kSendFailed`/`kReceiveFailed` and other counts pass through; `set_timeout`
  skips `SO_SNDTIMEO` when `SO_RCVTIMEO` fails.

Where a reader could expect otherwise, the model follows the code: after `bind(a, 0)` the
local port reported is 0, the cached value, not the port the system picked; the local endpoint
cache is written before `::bind` and is not restored when it fails.

## Model

| member | source | states |
|---|---|---|
| `Errors.ClosedTaxonomy` | include/Socket.hpp:55-67 | every `SocketError` is one of exactly ten distinct tags |
| `Errors.ToString` | src/Socket.cpp:15-40 | the message is "Unknown error" exactly for `kTrainOrderParseError`, the tag without a case |
| `Errors.MessagesDistinct` | src/Socket.cpp:15-40 | two tags get the same message only if they are the same tag |
| `Train.Default` | include/Socket.hpp:29 | a default-constructed order is the maintain-speed order |
| `Train.Eq` | include/Socket.hpp:42 | `==` holds exactly when the two orders are equal values (they differ only in their action) |
| `Train.Neq` | include/Socket.hpp:43 | `!=`, written separately, is exactly the negation of `==` |
| `Train.FactoriesDistinct` | include/Socket.hpp:34-36 | `accelerate()`, `maintain_speed()`, `brake()` are pairwise unequal and every order equals one of them |
| `Address.Default` | include/Socket.hpp:77 | the default address has all four octets zero, integer form 0 and text "0.0.0.0" |
| `Address.OctetOrder` | include/Socket.hpp:78 | the four-octet constructor keeps argument order in the text: the first argument is printed first (its place in the integer form is `Address.Of`'s contract) |
| `Address.WellKnownAddresses` | include/Socket.hpp:95-97 | `kLocalHost` is 127.0.0.1 and `kBroadcast` is 255.255.255.255, with their integer values; `kAny` is the default address, whose text and integer form `Address.Default` states |
| `Address.Of` | include/Socket.hpp:78 | the four-octet constructor's first argument is the low byte of `to_uint32()`, the last the high byte |
| `Address.ToUint32` | src/Socket.cpp:79-85 | shifting right by 8k and masking with 0xFF recovers octet k from the integer form |
| `Address.ToString` | src/Socket.cpp:69-77 | the text is 7 to 15 characters long (four numerals of one to three digits and three dots) |
| `Address.FromUint32` | src/Socket.cpp:61-67 | splitting a 32-bit value into octets and converting back with `to_uint32()` gives the value again |
| `Address.IntegerRoundTrip` | src/Socket.cpp:79-85 | converting an address to `uint32_t` and back gives the same octets |
| `Address.Eq` | src/Socket.cpp:87-90 | `==` holds exactly when all four octets agree, and compares nothing else |
| `Address.Neq` | src/Socket.cpp:92-95 | `!=` holds exactly when some octet differs, i.e. when `==` does not |
| `Decimal.Render` | src/Socket.cpp:72-75 | an octet printed as `int` is a canonical numeral: digits only, no leading zero, "0" only for zero |
| `Decimal.ValueOfRender` | src/Socket.cpp:72-75 | reading back the printed numeral gives the number |
| `Decimal.RenderOfValue` | src/Socket.cpp:72-75 | every canonical numeral is what printing its value writes |
| `Decimal.OctetWidth` | src/Socket.cpp:72-75 | an octet prints as one to three digits |
| `Address.ToStringFields` | src/Socket.cpp:69-77 | `to_string()` is four fields separated by three dots, field k the canonical numeral of octet k, in 0..255 |
| `Address.DottedDecimal` | src/Socket.cpp:69-77 | a string reads as canonical dotted decimal for address `a` if and only if it is `a.to_string()` |
| `Address.ToStringInjective` | src/Socket.cpp:69-77 | two addresses render identically if and only if they are `==` |
| `Address.FromString` | src/Socket.cpp:44-59 | `kAddressParseError` exactly when `inet_pton` reports failure; otherwise the octets convert back to the `s_addr` it wrote |
| `ByteOrder.PortOrderRoundTrip` | src/Socket.cpp:303 | `ntohs` undoes `htons` and vice versa, on either kind of host |
| `ByteOrder.ZeroUnchanged` | src/Socket.cpp:293-303 | `htons`, `ntohs`, `htonl` and `ntohl` all map 0 to 0, on either kind of host |
| `ByteOrder.AddressOrderRoundTrip` | src/Socket.cpp:293 | `ntohl` undoes `htonl` and vice versa, on either kind of host |
| `Socket.Endpoint` | src/Socket.cpp:156-158 | the `sockaddr_in` filled from an address and port has family `AF_INET` and decodes with `ntohl`/`ntohs` to that address and port |
| `Socket.ZeroedIsAny` | src/Socket.cpp:99-102 | a cleared endpoint record decodes to 0.0.0.0 and port 0 |
| `Socket.UDPSocket.constructor` | src/Socket.cpp:99-106 | a new socket is unbound, both endpoint caches cleared, holding the descriptor `socket()` returned |
| `Socket.UDPSocket.Create` | src/Socket.cpp:108-116 | `kInvalidSocket` exactly when `socket()` returned -1; otherwise a fresh unbound socket whose local accessors say `kNotBound` and whose remote endpoint is 0.0.0.0:0 |
| `Socket.UDPSocket.Move` | src/Socket.cpp:123-131 | the new socket takes descriptor, endpoints and bound flag; the source ends with descriptor -1 and unbound |
| `Socket.UDPSocket.MoveAssign` | src/Socket.cpp:133-147 | self-assignment changes nothing; otherwise the old descriptor is closed first, then everything is taken over and the source ends invalid and unbound |
| `Socket.UDPSocket.Bind` | src/Socket.cpp:149-167 | invalid socket: `kInvalidSocket`, no call, no change; else the local cache is written, then -1 from `::bind` gives `kBindFailed` with the bound flag unchanged, anything else binds; after success the local accessors return exactly the given address and port |
| `Socket.UDPSocket.Connect` | src/Socket.cpp:169-187 | invalid socket: `kInvalidSocket`, no call, no change; else the remote endpoint is cached even if `::connect` fails (`kConnectFailed`), and the remote accessors return it |
| `Socket.UDPSocket.Send` | src/Socket.cpp:189-202 | invalid socket: `kInvalidSocket` and no call; else one `send`, -1 gives `kSendFailed`, any other count is returned unchanged |
| `Socket.UDPSocket.SendTo` | src/Socket.cpp:204-223 | as `send`, and the destination record given to `sendto` decodes to the given address and port |
| `Socket.UDPSocket.Receive` | src/Socket.cpp:225-238 | invalid socket: `kInvalidSocket` and no call; else one `recv`, -1 gives `kReceiveFailed`, any other count is returned unchanged |
| `Socket.UDPSocket.ReceiveFrom` | src/Socket.cpp:240-264 | as `receive`, and the reported sender address and port re-encode to exactly the record `recvfrom` filled in |
| `Socket.UDPSocket.Close` | src/Socket.cpp:266-274 | afterwards the socket is invalid and unbound; a held descriptor is closed once; on a closed socket nothing changes and no call is made |
| `Socket.UDPSocket.GetLocalAddress` | src/Socket.cpp:286-294 | `kNotBound` exactly when not bound; otherwise the address that re-encodes to the cached one |
| `Socket.UDPSocket.GetLocalPort` | src/Socket.cpp:296-304 | `kNotBound` exactly when not bound; otherwise the port that re-encodes to the cached one |
| `Socket.UDPSocket.GetRemoteAddress` | src/Socket.cpp:306-309 | never fails; the address that re-encodes to the cached remote one |
| `Socket.UDPSocket.GetRemotePort` | src/Socket.cpp:311-314 | never fails; the port that re-encodes to the cached remote one |
| `Socket.UDPSocket.SetBroadcast` | src/Socket.cpp:316-329 | invalid socket: `kInvalidSocket` and no call; else one `SO_BROADCAST` set to 1 or 0, non-zero status gives `kSocketOptionFailed` |
| `Socket.UDPSocket.SetReuseAddress` | src/Socket.cpp:331-344 | invalid socket: `kInvalidSocket` and no call; else one `SO_REUSEADDR` set to 1 or 0, non-zero status gives `kSocketOptionFailed` |
| `Socket.UDPSocket.SetTimeout` | src/Socket.cpp:346-363 | invalid socket: `kInvalidSocket` and no call; else `SO_RCVTIMEO`, then `SO_SNDTIMEO` only if the first succeeded; `kSocketOptionFailed` if either fails |
| `Socket.MoveAssignKeepsSingleOwner` | include/Socket.hpp:118-123 | move assignment within a pool of sockets keeps every descriptor with at most one owner |
| `Socket.MoveConstructKeepsSingleOwner` | include/Socket.hpp:118-123 | move construction from a pool keeps every descriptor with at most one owner |
| `Socket.CloseTwice` | src/Socket.cpp:266-274 | a second `close` makes no call, leaves the socket invalid and unbound, and keeps both endpoint caches |
| `Socket.FailedRebind` | src/Socket.cpp:156-165 | a failed bind on a bound socket keeps it bound, yet the local accessors then report the endpoint of the failed attempt |

## Left out

- The operating-system calls (`socket`, `::bind`, `::connect`, `::send`, `sendto`, `recv`, `recvfrom`, `setsockopt`, `::close`): their results are parameters; their kernel semantics, blocking and timeouts are not modelled.
- `inet_pton` inside `from_string`: a foreign parser; its status and the `s_addr` it writes are parameters of `Address.FromString`.
- Host byte order: the model fixes a little-endian host (`ByteOrder.Host`); the proofs use only that `htonX` and `ntohX` are mutually inverse and map 0 to 0 (`ByteOrder.ZeroUnchanged`, used by `Socket.ZeroedIsAny`), both of which hold on either host. Which address reaches the kernel is not stated: on a little-endian host `htonl(to_uint32())` puts octet 0 in the most significant byte, so the bytes handed to the kernel are the octets in reverse order.
- Payload bytes behind `void*`: only sizes and counts are tracked.
- `ssize_t`, `size_t` and `int` widths: counts and option values pass through unchanged, so no wrap-around is modelled.
- The padding of `sockaddr_in` (`sin_zero`): the record keeps family, port and address only.
- `TrainOrder::to_string`, `to_buffer`, `from_buffer` and the string constructor: declared in the header but not defined in the source; there is no visualization-data type in the code.
- `get_fd`: a plain accessor of the descriptor.
- The destructor `~UDPSocket`, which calls `close()` at end of lifetime: Dafny has no destructors; `Close` is modelled as an explicit call.
- `IsValid` (`is_valid()`) is a predicate without its own contract; `Close` and every guarded operation state what it means.
- `socket()` returning a descriptor that no live socket holds is the kernel's guarantee and is not modelled: `Create` takes any descriptor, so single ownership is proved only to be preserved by the moves, not established by creation.
- The default argument `microseconds = 0` of `set_timeout`: Dafny has no default arguments, so `SetTimeout` always takes both values.
- `Train.AccelerateOrder`, `Train.MaintainSpeedOrder` and `Train.BrakeOrder` (`accelerate()`, `maintain_speed()`, `brake()`) have no contract of their own; `Train.FactoriesDistinct` and `Train.Default` state what they promise.
- `src/udp_example.cpp` (demo server and client with a detached thread, endless receive loop, sleeps and console output) and `src/factory_test.cpp` (a console program) are not part of this model.
