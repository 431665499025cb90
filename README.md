# RPC-Demo v4: registry, dispatch, invocation and codec selection in Dafny

This project models the core of the v4 RPC framework in RPC-Demo.

- **The registry centre's lease table.** This is `ServiceRegistry` and the
  `ServiceInstance` objects it holds. The table maps a service name to the
  instances registered under it. Four operations act on it: `register`,
  `discover` (which drops instances whose lease ran out), `deregister` and
  `heartbeat`.
- **The provider's dispatch.** `RpcServer.registerService` fills a table of
  implementations. `handleRequest` turns a request into a response.
- **The consumer's call path.** `RpcClient.invoke` and the proxy's invocation
  handler.
- **Codec selection.** `SerializationTypeEnum` and `SerializerFactory`.
- **The response record.** `RpcResponse`, with its `success` and `fail`
  factories.

Structure:

- The registry and the instances are classes whose fields the methods update
  in place. `ServiceRegistry.registry` is a map of lists of `ServiceInstance`
  objects. `ServiceInstance.lastHeartbeat` is the one field the code changes.
- Each registry method is specified against a pure function over the table
  *value*. That value, `Table()`, maps each service to the states of its
  objects, as `Entry` values. The properties are lemmas about those functions
  (module `RegistryProperties`). The class invariant `Valid()` says two
  things: every list holds only its own service's instances, and no id
  appears twice in one list.
- The rest is value-level. Dispatch is a function of the implementation
  table and the request. The client path is a function of the discovery
  answer and a transport.

The wall clock is a parameter `now`, given in milliseconds. Each `synchronized`
registry method is one sequential step.

A heartbeat for an id that `discover` has already dropped is a no-op. The
instance is not revived, and a later `discover` does not return it
(`HeartbeatAfterExpiry`); the provider has to register again.

## Model

| member | source | states |
|---|---|---|
| Instance.Expired | src/main/java/com/alan/rpc/v4/registry/ServiceInstance.java:65-67 | `isExpired` on a state: an instance whose heartbeat is at most 30000 ms old is not expired |
| Instance.ServiceInstance.IsExpired | src/main/java/com/alan/rpc/v4/registry/ServiceInstance.java:65-67 | expired exactly when more than 30000 ms have passed since the last heartbeat; never expired at the moment of its heartbeat |
| Instance.ServiceInstance.constructor | src/main/java/com/alan/rpc/v4/registry/ServiceInstance.java:40-46 | a new instance holds the given name, host, port and id, with heartbeat `now`, and is not expired at `now` |
| Instance.ServiceInstance.UpdateHeartbeat | src/main/java/com/alan/rpc/v4/registry/ServiceInstance.java:51-53 | only the heartbeat changes, to `now`; the instance is not expired at `now` |
| Instance.ServiceInstance.Address | src/main/java/com/alan/rpc/v4/registry/ServiceInstance.java:58-60 | the host, a colon, then the port in `Integer.toString`'s canonical form (no leading zero, never "-0"), which reads back as the port; split at its last `:` it gives back exactly the host and the port |
| Decimal.IntToStringRoundTrip | src/main/java/com/alan/rpc/v4/registry/ServiceInstance.java:59 | the decimal rendering of an `int` port parses back to the same number |
| Decimal.NatToString | src/main/java/com/alan/rpc/v4/registry/ServiceInstance.java:59 | the digits of a natural number have no leading zero unless the number is 0 |
| Decimal.IntToString | src/main/java/com/alan/rpc/v4/registry/ServiceInstance.java:59 | an `int` port is written in canonical form, with a '-' only before non-zero digits, and contains no `:` |
| Decimal.NatToStringOfParse | src/main/java/com/alan/rpc/v4/registry/ServiceInstance.java:59 | canonical digits are the rendering of their own value (proved by induction) |
| Decimal.CanonicalIntUnique | src/main/java/com/alan/rpc/v4/registry/ServiceInstance.java:59 | a canonical `int` text is exactly what rendering its value gives, so the port's text is fixed by the port |
| Decimal.ParseNatToString | src/main/java/com/alan/rpc/v4/registry/ServiceInstance.java:59 | the digits of a natural number parse back to it (proved by induction) |
| Instance.AddressSplits | src/main/java/com/alan/rpc/v4/registry/ServiceInstance.java:59 | in `host + ":" + digits` the last colon is the one added, with the host before it and the digits after it |
| Registry.ServiceRegistry.constructor | src/main/java/com/alan/rpc/v4/registry/ServiceRegistry.java:17 | the registry starts empty and valid |
| Registry.ServiceRegistry.Register | src/main/java/com/alan/rpc/v4/registry/ServiceRegistry.java:27-44 | keeps `Valid()`; the new table is `Registered(old table, …)` |
| Registry.ServiceRegistry.Discover | src/main/java/com/alan/rpc/v4/registry/ServiceRegistry.java:52-76 | keeps `Valid()`; the new table and the returned instances' states are those `Discovered` gives; no returned instance is expired at `now` |
| Registry.ServiceRegistry.Deregister | src/main/java/com/alan/rpc/v4/registry/ServiceRegistry.java:84-90 | keeps `Valid()`; the new table is `Deregistered(old table, …)` |
| Registry.ServiceRegistry.Heartbeat | src/main/java/com/alan/rpc/v4/registry/ServiceRegistry.java:98-108 | keeps `Valid()` and changes only the heartbeat objects; the new table is `Heartbeated(old table, …)` |
| Registry.ServiceRegistry.GetAllServices | src/main/java/com/alan/rpc/v4/registry/ServiceRegistry.java:113-115 | the copy has exactly the registered services, each with the registered instances |
| Registry.RemoveIfViews | src/main/java/com/alan/rpc/v4/registry/ServiceRegistry.java:87 | `removeIf` on the objects matches removing the id from their states |
| Registry.ServiceRegistry.RefreshTable | src/main/java/com/alan/rpc/v4/registry/ServiceRegistry.java:101-105 | a new heartbeat on one listed object changes the table at that one entry only |
| Registry.ServiceRegistry.AppendTable | src/main/java/com/alan/rpc/v4/registry/ServiceRegistry.java:40-42 | appending an object to a (possibly new) list adds its state at the end of that service only |
| Registry.ServiceRegistry.ReplaceTable | src/main/java/com/alan/rpc/v4/registry/ServiceRegistry.java:68-72 | replacing one service's list changes the table under that service only |
| RegistryTable.Alive | src/main/java/com/alan/rpc/v4/registry/ServiceRegistry.java:63 | the freshness test of `discover`: a live entry is never `isExpired`, and an entry is neither live nor expired exactly at age 30000 ms |
| RegistryTable.FindId | src/main/java/com/alan/rpc/v4/registry/ServiceRegistry.java:31-32 | the position of the first entry with the id, every earlier entry having another id, or -1 when no entry has it |
| RegistryTable.Touched | src/main/java/com/alan/rpc/v4/registry/ServiceRegistry.java:101-105 | refreshing by id keeps the length and every entry except for heartbeats; a list without the id is unchanged |
| RegistryTable.LiveOnly | src/main/java/com/alan/rpc/v4/registry/ServiceRegistry.java:60-66 | the filtered list is no longer than the stored one and holds only stored entries that pass the freshness test |
| RegistryTable.WithoutId | src/main/java/com/alan/rpc/v4/registry/ServiceRegistry.java:87 | the result is no longer than the list and holds only entries of the list with another id |
| RegistryTable.Registered | src/main/java/com/alan/rpc/v4/registry/ServiceRegistry.java:27-44 | `register` on the table: the service becomes a key, no other key appears or changes, and its list does not shrink |
| RegistryTable.Discovered | src/main/java/com/alan/rpc/v4/registry/ServiceRegistry.java:52-76 | `discover` on the table: the answer is no longer than the stored list and holds only stored entries that pass the freshness test |
| RegistryTable.Deregistered | src/main/java/com/alan/rpc/v4/registry/ServiceRegistry.java:84-90 | `deregister` on the table: no key appears or disappears, other services are untouched, and the id is gone from the service's list |
| RegistryTable.Heartbeated | src/main/java/com/alan/rpc/v4/registry/ServiceRegistry.java:98-108 | `heartbeat` on the table: no key appears or disappears, other services are untouched, and the service's list keeps its length |
| Registry.RemoveIf | src/main/java/com/alan/rpc/v4/registry/ServiceRegistry.java:87 | the kept objects are no more than the list's and all come from it, each with another id |
| RegistryTable.FindIdUnique | src/main/java/com/alan/rpc/v4/registry/ServiceRegistry.java:31-32 | in a list with distinct ids, the first match of an id is its only position |
| RegistryTable.LiveOnlyMembers | src/main/java/com/alan/rpc/v4/registry/ServiceRegistry.java:62-66 | the filtered list holds exactly the stored entries aged under 30000 ms, and is no longer than the stored list |
| RegistryTable.LiveOnlyAll | src/main/java/com/alan/rpc/v4/registry/ServiceRegistry.java:69 | when the filter dropped nothing, its result is the stored list itself |
| RegistryTable.LiveOnlyKeepsListOk | src/main/java/com/alan/rpc/v4/registry/ServiceRegistry.java:60-66 | filtering keeps a list well formed |
| RegistryTable.WithoutIdMembers | src/main/java/com/alan/rpc/v4/registry/ServiceRegistry.java:87 | removal keeps exactly the entries with another id |
| RegistryTable.WithoutIdKeepsListOk | src/main/java/com/alan/rpc/v4/registry/ServiceRegistry.java:87 | removal keeps a list well formed |
| RegistryTable.TouchedShape | src/main/java/com/alan/rpc/v4/registry/ServiceRegistry.java:101-105 | a refresh by id changes the first entry with that id, and only its heartbeat |
| RegistryTable.TouchedKeepsListOk | src/main/java/com/alan/rpc/v4/registry/ServiceRegistry.java:101-105 | a refresh keeps a list well formed |
| RegistryProperties.RegisterRefreshesExisting | src/main/java/com/alan/rpc/v4/registry/ServiceRegistry.java:31-37 | registering a listed id only sets that entry's heartbeat to `now`; the new host and port are ignored and the length is kept |
| RegistryProperties.RegisterAppendsNew | src/main/java/com/alan/rpc/v4/registry/ServiceRegistry.java:28-43 | registering an unlisted id appends one entry `(name, host, port, id, now)` at the end; an unknown service starts from an empty list |
| RegistryProperties.RegisterKeepsWellFormed | src/main/java/com/alan/rpc/v4/registry/ServiceRegistry.java:27-44 | ids stay distinct per service; other services are untouched; the id is then listed, with heartbeat `now` |
| RegistryProperties.RegisterTwice | src/main/java/com/alan/rpc/v4/registry/ServiceRegistry.java:27-44 | registering the same id twice equals one registration at the later time, whatever host and port the second call gives |
| RegistryProperties.DiscoverResult | src/main/java/com/alan/rpc/v4/registry/ServiceRegistry.java:52-76 | the result is exactly the stored entries aged under 30000 ms, in stored order, none of them expired. The table is rewritten only when something was dropped, and then only under the service. An unknown or empty service gives `[]` and no change |
| RegistryProperties.DiscoverKeepsWellFormed | src/main/java/com/alan/rpc/v4/registry/ServiceRegistry.java:69-72 | the write-back keeps ids distinct |
| RegistryProperties.LiveOnlyOfAlive | src/main/java/com/alan/rpc/v4/registry/ServiceRegistry.java:62-66 | filtering a list of live entries returns it unchanged |
| RegistryProperties.DiscoverIdempotent | src/main/java/com/alan/rpc/v4/registry/ServiceRegistry.java:52-76 | a second `discover` at the same time returns the same list and changes nothing |
| RegistryProperties.DiscoverBoundary | src/main/java/com/alan/rpc/v4/registry/ServiceRegistry.java:63 | a kept entry is never `isExpired`; an entry is dropped yet not expired exactly when its age is 30000 ms |
| RegistryProperties.DeregisterResult | src/main/java/com/alan/rpc/v4/registry/ServiceRegistry.java:84-90 | every entry with the id leaves that service and the order of the others is kept. Other services are untouched, and an unknown service is a no-op |
| RegistryProperties.DeregisterThenDiscover | src/main/java/com/alan/rpc/v4/registry/ServiceRegistry.java:84-90 | a deregistered id is never returned by a later `discover` |
| RegistryProperties.HeartbeatResult | src/main/java/com/alan/rpc/v4/registry/ServiceRegistry.java:98-108 | the listed entry with the id gets heartbeat `now` and nothing else changes. An unknown service or id is a no-op, so no entry is ever added |
| RegistryProperties.NoIdIn | src/main/java/com/alan/rpc/v4/registry/ServiceRegistry.java:62-66 | a sub-list of a list without an id is without it too |
| RegistryProperties.HeartbeatAfterExpiry | src/main/java/com/alan/rpc/v4/registry/ServiceRegistry.java:98-108 | once `discover` has dropped an expired instance, its heartbeat changes nothing and the next `discover` does not return it |
| Server.Respond | src/main/java/com/alan/rpc/v4/provider/RpcServer.java:164-185 | the response carries the request's id and never both a result and an exception. An unknown interface gives `RuntimeException`, a missing method `NoSuchMethodException` and a wrong argument count `IllegalArgumentException`. A throwing method gives its exception wrapped in `InvocationTargetException`; otherwise the method's value |
| Server.RpcServer.HandleRequest | src/main/java/com/alan/rpc/v4/provider/RpcServer.java:164-185 | building the response step by step gives `Respond(services, request)` and changes nothing |
| Server.RpcServer.RegisterService | src/main/java/com/alan/rpc/v4/provider/RpcServer.java:79-83 | binds the interface name to the implementation, replacing an earlier binding, other bindings unchanged |
| Server.RpcServer.constructor | src/main/java/com/alan/rpc/v4/provider/RpcServer.java:30 | the implementation table starts empty |
| Server.RespondOtherInterface | src/main/java/com/alan/rpc/v4/provider/RpcServer.java:79-83 | binding one name leaves the answers for every other interface as they were |
| Server.RespondUsesBinding | src/main/java/com/alan/rpc/v4/provider/RpcServer.java:169-176 | requests for a name are answered by the implementation bound to it last |
| Client.Chosen | src/main/java/com/alan/rpc/v4/consumer/RpcClient.java:96 | the chosen instance is one of those discovered |
| Client.Invoke | src/main/java/com/alan/rpc/v4/consumer/RpcClient.java:86-121 | a discovery failure propagates; an empty list fails with `RuntimeException` naming the interface |
| Client.InvokeEmptyIgnoresTransport | src/main/java/com/alan/rpc/v4/consumer/RpcClient.java:89-92 | with an empty list the outcome does not depend on the transport: nothing is sent |
| Client.InvokeUsesFirstInstance | src/main/java/com/alan/rpc/v4/consumer/RpcClient.java:96-111 | only the first instance's host and port, and the request built from the call's arguments, decide the outcome |
| Client.InvokeReadsReply | src/main/java/com/alan/rpc/v4/consumer/RpcClient.java:114-120 | a reply's exception is thrown as it is; otherwise its result is returned unchanged, whatever its request id |
| Client.Loopback | src/main/java/com/alan/rpc/v4/consumer/RpcClient.java:108-114 | a transport that delivers every request to a provider and returns its response |
| Client.InvokeAgainstProvider | src/main/java/com/alan/rpc/v4/consumer/RpcClient.java:86-121 | end to end against a provider: an unknown interface, a missing method and a wrong argument count each raise the provider's exception; otherwise the call returns the method's value or raises `InvocationTargetException` around what it threw |
| Client.ChosenIsLive | src/main/java/com/alan/rpc/v4/consumer/RpcClient.java:89-96 | an instance picked from a `discover` answer is listed under the service and not expired |
| Client.GetProxy | src/main/java/com/alan/rpc/v4/consumer/RpcClient.java:75-80 | the handler is fixed to the interface name given |
| Client.HandlerInvoke | src/main/java/com/alan/rpc/v4/consumer/RpcClient.java:163-179 | a failed discovery propagates its exception, and no instance means `RuntimeException` naming the proxy's interface |
| Client.ProxyForwards | src/main/java/com/alan/rpc/v4/consumer/RpcClient.java:172-178 | for every transport, a proxy call sends one request to the first discovered instance's host and port, carrying the request id, the proxy's interface, the method's name and parameter types and all the arguments; the call ends as the reply reads, or with the transport's exception |
| SerializationType.Values | src/main/java/com/alan/rpc/v4/common/SerializationTypeEnum.java:11-26 | exactly four distinct variants, every variant listed |
| SerializationType.Code | src/main/java/com/alan/rpc/v4/common/SerializationTypeEnum.java:36-38 | each code is a non-empty lower-case word |
| SerializationType.Description | src/main/java/com/alan/rpc/v4/common/SerializationTypeEnum.java:40-42 | each description starts with its codec's name, equal to the code up to case, then a space |
| SerializationType.Name | src/main/java/com/alan/rpc/v4/common/SerializationTypeEnum.java:11-26 | each constant's name equals its code up to case |
| SerializationType.Search | src/main/java/com/alan/rpc/v4/common/SerializationTypeEnum.java:48-52 | returns the first variant whose code matches up to case, or nothing when none does |
| SerializationType.FromCode | src/main/java/com/alan/rpc/v4/common/SerializationTypeEnum.java:47-54 | succeeds exactly when some code matches up to case (never for null), with a matching variant; otherwise `IllegalArgumentException` with the code in its message |
| SerializationType.EqualsIgnoreCase | src/main/java/com/alan/rpc/v4/common/SerializationTypeEnum.java:49 | equal strings match, and strings that match have the same length |
| SerializationType.EqualsIgnoreCaseSymmetric | src/main/java/com/alan/rpc/v4/common/SerializationTypeEnum.java:49 | ignoring case is symmetric |
| SerializationType.EqualsIgnoreCaseTransitive | src/main/java/com/alan/rpc/v4/common/SerializationTypeEnum.java:49 | ignoring case is transitive |
| SerializationType.CodesDistinct | src/main/java/com/alan/rpc/v4/common/SerializationTypeEnum.java:11-26 | no two codes are equal up to case |
| SerializationType.FromCodeIgnoresCase | src/main/java/com/alan/rpc/v4/common/SerializationTypeEnum.java:49 | any string equal to a code up to case resolves to that code's variant |
| SerializationType.FromCodeRoundTrip | src/main/java/com/alan/rpc/v4/common/SerializationTypeEnum.java:47-54 | `fromCode(t.getCode()) == t` for every variant |
| SerializationType.FromCodeOnlyCodes | src/main/java/com/alan/rpc/v4/common/SerializationTypeEnum.java:47-54 | a resolved string is the resolved variant's code up to case, and no other variant's |
| SerializationType.FromCodeExamples | src/main/java/com/alan/rpc/v4/common/SerializationTypeEnum.java:47-54 | "JSON" and "Json" give `JSON`; null fails |
| SerializationType.FromCodeUnknown | src/main/java/com/alan/rpc/v4/common/SerializationTypeEnum.java:53 | "xml" fails with the message naming it |
| SerializerFactory.GetType | src/main/java/com/alan/rpc/v4/common/serializer/impl/JavaSerializer.java:51-53 | each codec reports its own variant and no other codec reports it (the same holds for the JSON, Hessian and Kryo codecs' `getType`) |
| SerializerFactory.CacheComplete | src/main/java/com/alan/rpc/v4/common/serializer/SerializerFactory.java:15-23 | after the static initialiser every variant has a cache entry, whose codec reports that variant |
| SerializerFactory.GetSerializer | src/main/java/com/alan/rpc/v4/common/serializer/SerializerFactory.java:31-37 | never reaches the "unsupported" branch; the codec's `getType` is the variant asked for |
| SerializerFactory.GetSerializerInjective | src/main/java/com/alan/rpc/v4/common/serializer/SerializerFactory.java:19-22 | different variants get different codecs |
| SerializerFactory.GetSerializerByCode | src/main/java/com/alan/rpc/v4/common/serializer/SerializerFactory.java:45-48 | succeeds exactly when `fromCode` does, with the codec of that variant; otherwise fails with `fromCode`'s `IllegalArgumentException` |
| SerializerFactory.GetSerializerByCodeOfCode | src/main/java/com/alan/rpc/v4/common/serializer/SerializerFactory.java:45-48 | a variant's code in any case gives `getSerializer` of that variant |
| SerializerFactory.GetDefaultSerializer | src/main/java/com/alan/rpc/v4/common/serializer/SerializerFactory.java:55-57 | equals `getSerializer(JAVA)`, a codec of type `JAVA` |
| Messages.Outcome | src/main/java/com/alan/rpc/v4/consumer/RpcClient.java:116-120 | a reply raises exactly when it carries an exception, and then raises that exception; otherwise its result is the value |
| Messages.Success | src/main/java/com/alan/rpc/v2/common/RpcResponse.java:36-38 | carries the id, no exception, and reads back as the result |
| Messages.Fail | src/main/java/com/alan/rpc/v2/common/RpcResponse.java:43-45 | carries the id, a null result, and reads back as the exception |
| Messages.FactoriesCoverOneOf | src/main/java/com/alan/rpc/v2/common/RpcResponse.java:36-45 | every response without both fields set is what one of the two factories builds |
| Messages.OutcomeDeterminesResponse | src/main/java/com/alan/rpc/v2/common/RpcResponse.java:13-31 | two such responses with the same id that read the same are equal |

## Left out

- Network transport, Netty handlers, `sendRequest`, the registry server and
  the registry client are I/O. The client takes the discovery answer and a
  transport function as inputs.
- The heartbeat timer, startup registration, UUID generation and console
  output are left out. `instanceId`, `requestId` and the clock reading `now`
  are parameters.
- The codec implementations are only tokens. Their byte formats are library
  code.
- Encoding and decoding failures are folded into the transport's error.
- Reflection becomes a map from `(method name, parameter types)` to a
  function on argument values. `Proxy` becomes a handler value.
- `synchronized` and `ConcurrentHashMap` are left out. Each registry method
  is one sequential step.
- SerializationType.EqualsIgnoreCase: folds ASCII letters only. Java's
  `equalsIgnoreCase` also matches some non-ASCII letters: the Kelvin sign
  matches `k`, the dotted capital I and the dotless ı match `i`, and the long
  s ſ matches `s`. So Java accepts a few spellings of `kryo`, `hessian` and
  `json` (such as "jſon") that the model rejects.
- Server.Respond: an argument whose runtime type does not fit the method is
  not modelled. Only a wrong argument count gives `IllegalArgumentException`.
- Server.Respond: the JDK's exact exception messages are not modelled.
- Null implementations, null parameter arrays, null type tags and a null
  exception passed to `fail` are not modelled.
- Instance.Expired: `long` timestamps and heartbeat ages are unbounded
  integers, so overflow of `now - lastHeartbeat` is not modelled. This is
  harmless for real clock readings. The same holds for the freshness test in
  `discover`.
- The Lombok setters and the all-arguments constructor of `ServiceInstance`
  are not modelled. No core code calls them.
- Registry.ServiceRegistry.Discover: list identity is not modelled. When
  something was dropped, the code stores the very list it returns, so a caller
  could change the table through it; otherwise it returns a fresh list (a new
  empty one for an unknown or empty service). The model returns a sequence
  value in every case. Every non-empty answer holds the same instance objects
  as the table, in both the code and the model.
- Registry.ServiceRegistry.GetAllServices: the code returns a shallow copy
  of the map. The model returns the map value and the same objects.
- Client.HandlerInvoke: Java's dynamic proxy wraps a checked exception that
  the interface method does not declare in `UndeclaredThrowableException`.
  A provider's `InvocationTargetException` or `NoSuchMethodException` thus
  reaches the caller of a proxy method wrapped; the model returns it
  unwrapped. Unboxing and casting the result to the method's return type are
  not modelled either.
- SerializerFactory.GetSerializer: singleton identity of the cached codec
  objects becomes value equality of codec tokens.
