/** The consumer's call path (`com.alan.rpc.v4.consumer.RpcClient`): pick an
    instance from discovery, send it the request, and turn the response into
    a value or a thrown exception. Discovery, the codec and the network are
    inputs: `discovered` is what the registry answered (or the exception the
    registry client raised), and a `Transport` stands for encoding the
    request, `sendRequest` to a host and port, and decoding the reply. */
module Client {
  import opened Common
  import opened Instance
  import opened RegistryTable
  import opened Messages
  import opened Server

  type Transport = (string, int, RpcRequest) -> Result<RpcResponse, Exception>

  /** The method the proxy intercepted: `method.getName()` and
      `method.getParameterTypes()`. */
  datatype Method = Method(name: string, parameterTypes: seq<TypeName>)

  /** Load balancing of this version: the first instance listed. */
  function Chosen(instances: seq<Entry>): (e: Entry)
    requires instances != []
    ensures e in instances
  {
    instances[0]
  }

  /** `invoke`: fails on an empty instance list before anything is sent;
      otherwise sends the request to the chosen instance and reads the reply. */
  function Invoke(discovered: Result<seq<Entry>, Exception>, requestId: string, interfaceName: TypeName,
                  methodName: string, parameterTypes: seq<TypeName>, parameters: seq<Value>,
                  send: Transport): (r: Result<Value, Exception>)
    ensures discovered.Err? ==> r == Err(discovered.error)
    ensures discovered == Ok([]) ==> r == Err(RuntimeException("没有可用的服务实例: " + interfaceName))
  {
    match discovered
    case Err(e) => Err(e)
    case Ok(instances) =>
      if instances == [] then Err(RuntimeException("没有可用的服务实例: " + interfaceName))
      else
        var instance := Chosen(instances);
        var request := RpcRequest(requestId, interfaceName, methodName, parameterTypes, parameters);
        match send(instance.host, instance.port, request)
        case Err(e) => Err(e)
        case Ok(response) => Outcome(response)
  }

  /** With no instance the transport is never consulted. */
  lemma InvokeEmptyIgnoresTransport(requestId: string, interfaceName: TypeName, methodName: string,
                                    parameterTypes: seq<TypeName>, parameters: seq<Value>, send: Transport, send': Transport)
    ensures Invoke(Ok([]), requestId, interfaceName, methodName, parameterTypes, parameters, send)
         == Invoke(Ok([]), requestId, interfaceName, methodName, parameterTypes, parameters, send')
  {
  }

  /** Only the first instance matters, and only what the transport does for
      its host and port with the request built from the call's arguments. */
  lemma InvokeUsesFirstInstance(instances: seq<Entry>, instances': seq<Entry>, requestId: string, interfaceName: TypeName,
                                methodName: string, parameterTypes: seq<TypeName>, parameters: seq<Value>,
                                send: Transport, send': Transport)
    requires instances != [] && instances' != []
    requires instances[0].host == instances'[0].host && instances[0].port == instances'[0].port
    requires send(instances[0].host, instances[0].port, RpcRequest(requestId, interfaceName, methodName, parameterTypes, parameters))
          == send'(instances[0].host, instances[0].port, RpcRequest(requestId, interfaceName, methodName, parameterTypes, parameters))
    ensures Invoke(Ok(instances), requestId, interfaceName, methodName, parameterTypes, parameters, send)
         == Invoke(Ok(instances'), requestId, interfaceName, methodName, parameterTypes, parameters, send')
  {
  }

  /** A reply carrying an exception makes `invoke` throw exactly that
      exception; otherwise the reply's result is returned unchanged, and the
      reply's request id is not compared with the request's. */
  lemma InvokeReadsReply(instances: seq<Entry>, requestId: string, interfaceName: TypeName,
                         methodName: string, parameterTypes: seq<TypeName>, parameters: seq<Value>,
                         send: Transport, reply: RpcResponse)
    requires instances != []
    requires send(instances[0].host, instances[0].port, RpcRequest(requestId, interfaceName, methodName, parameterTypes, parameters)) == Ok(reply)
    ensures reply.exception.Some? ==>
      Invoke(Ok(instances), requestId, interfaceName, methodName, parameterTypes, parameters, send) == Err(reply.exception.value)
    ensures reply.exception.None? ==>
      Invoke(Ok(instances), requestId, interfaceName, methodName, parameterTypes, parameters, send) == Ok(reply.result)
  {
  }

  /** A transport that always delivers to a provider serving `services`. */
  function Loopback(services: map<string, ServiceImpl>): (send: Transport)
    ensures forall host, port, request :: send(host, port, request) == Ok(Respond(services, request))
  {
    (host: string, port: int, request: RpcRequest) => Ok(Respond(services, request))
  }

  /** End to end: a call reaching a provider returns what the provider's
      method returned, and raises what the provider captured otherwise (an
      unknown interface, a missing method, a wrong number of arguments, or the
      method's own exception). The
      request id chosen by the client plays no part in the outcome. */
  lemma InvokeAgainstProvider(instances: seq<Entry>, requestId: string, interfaceName: TypeName,
                              methodName: string, parameterTypes: seq<TypeName>, parameters: seq<Value>,
                              services: map<string, ServiceImpl>)
    requires instances != []
    ensures var r := Invoke(Ok(instances), requestId, interfaceName, methodName, parameterTypes, parameters, Loopback(services));
      && (interfaceName !in services ==> r == Err(RuntimeException("服务未找到: " + interfaceName)))
      && (interfaceName in services && Signature(methodName, parameterTypes) !in services[interfaceName].methods ==>
            r == Err(NoSuchMethodException(methodName, parameterTypes)))
      && (interfaceName in services && Signature(methodName, parameterTypes) in services[interfaceName].methods &&
          |parameters| != |parameterTypes| ==>
            r == Err(IllegalArgumentException("wrong number of arguments")))
      && (interfaceName in services && Signature(methodName, parameterTypes) in services[interfaceName].methods &&
          |parameters| == |parameterTypes| ==>
            var call := services[interfaceName].methods[Signature(methodName, parameterTypes)];
            r == if call(parameters).Threw? then Err(InvocationTargetException(call(parameters).exception))
                 else Ok(call(parameters).value))
  {
  }

  /** The instance chosen from a registry answer is one the registry holds for
      that service, and it passed the freshness test. */
  lemma ChosenIsLive(t: Table, name: string, now: int)
    requires Discovered(t, name, now).found != []
    ensures Chosen(Discovered(t, name, now).found) in ListOf(t, name)
    ensures Alive(Chosen(Discovered(t, name, now).found), now)
    ensures !Expired(Chosen(Discovered(t, name, now).found), now)
  {
    LiveOnlyMembers(ListOf(t, name), now);
  }

  /** `RpcInvocationHandler`, created by `getProxy` with the interface's name. */
  datatype InvocationHandler = InvocationHandler(interfaceName: TypeName)

  function GetProxy(interfaceName: TypeName): (h: InvocationHandler)
    ensures h.interfaceName == interfaceName
  {
    InvocationHandler(interfaceName)
  }

  /** `RpcInvocationHandler.invoke`: every call on the proxy is an `invoke`
      for the proxy's interface, with the called method's name, parameter
      types and arguments; `discover` is the registry lookup by name. */
  function HandlerInvoke(h: InvocationHandler, m: Method, args: seq<Value>, requestId: string,
                         discover: TypeName -> Result<seq<Entry>, Exception>, send: Transport): (r: Result<Value, Exception>)
    ensures discover(h.interfaceName).Err? ==> r == Err(discover(h.interfaceName).error)
    ensures discover(h.interfaceName) == Ok([]) ==> r == Err(RuntimeException("没有可用的服务实例: " + h.interfaceName))
  {
    Invoke(discover(h.interfaceName), requestId, h.interfaceName, m.name, m.parameterTypes, args, send)
  }

  /** Whatever method is called and whatever the transport does, the proxy
      sends exactly one request, to the first instance discovered for its
      interface, naming that interface and carrying the method's name, types
      and arguments and the request id; the call ends as the reply reads, or
      with the transport's own exception. */
  lemma ProxyForwards(interfaceName: TypeName, m: Method, args: seq<Value>, requestId: string,
                      discover: TypeName -> Result<seq<Entry>, Exception>, send: Transport)
    requires discover(interfaceName).Ok? && discover(interfaceName).value != []
    ensures var first := discover(interfaceName).value[0];
      HandlerInvoke(GetProxy(interfaceName), m, args, requestId, discover, send)
        == match send(first.host, first.port, RpcRequest(requestId, interfaceName, m.name, m.parameterTypes, args))
           case Err(e) => Err(e)
           case Ok(reply) => Outcome(reply)
  {
  }
}
