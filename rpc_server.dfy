/** The provider's dispatch (`com.alan.rpc.v4.provider.RpcServer`): a table
    from interface name to implementation, and the construction of a response
    for each request. Reflection is replaced by each implementation's table
    from method signature to the method's behaviour. */
module Server {
  import opened Common
  import opened Messages

  /** What `Class.getMethod` matches on: the name and the parameter types. */
  datatype Signature = Signature(name: string, parameterTypes: seq<TypeName>)

  /** How one call of a service method ends. */
  datatype Returns = Returned(value: Value) | Threw(exception: Exception)

  /** A service implementation: its public methods by signature. */
  datatype ServiceImpl = ServiceImpl(methods: map<Signature, seq<Value> -> Returns>)

  /** The response `handleRequest` builds for `request` against `services`:
      the request's id always, and either what the method returned or the
      exception that stopped the call. */
  function Respond(services: map<string, ServiceImpl>, request: RpcRequest): (r: RpcResponse)
    ensures r.requestId == request.requestId
    ensures OneOf(r)
    ensures request.interfaceName !in services ==>
      Outcome(r) == Err(RuntimeException("服务未找到: " + request.interfaceName))
    ensures request.interfaceName in services &&
            Signature(request.methodName, request.parameterTypes) !in services[request.interfaceName].methods ==>
      Outcome(r) == Err(NoSuchMethodException(request.methodName, request.parameterTypes))
    ensures request.interfaceName in services &&
            Signature(request.methodName, request.parameterTypes) in services[request.interfaceName].methods ==>
      var call := services[request.interfaceName].methods[Signature(request.methodName, request.parameterTypes)];
      Outcome(r) == if |request.parameters| != |request.parameterTypes| then Err(IllegalArgumentException("wrong number of arguments"))
                    else if call(request.parameters).Threw? then Err(InvocationTargetException(call(request.parameters).exception))
                    else Ok(call(request.parameters).value)
  {
    if request.interfaceName !in services then
      Fail(request.requestId, RuntimeException("服务未找到: " + request.interfaceName))
    else
      var methods := services[request.interfaceName].methods;
      var signature := Signature(request.methodName, request.parameterTypes);
      if signature !in methods then
        Fail(request.requestId, NoSuchMethodException(request.methodName, request.parameterTypes))
      else if |request.parameters| != |request.parameterTypes| then
        Fail(request.requestId, IllegalArgumentException("wrong number of arguments"))
      else
        match methods[signature](request.parameters)
        case Returned(v) => Success(request.requestId, v)
        case Threw(e) => Fail(request.requestId, InvocationTargetException(e))
  }

  /** Binding an implementation under a name decides the answers for that name
      only: requests for other interfaces are answered as before. */
  lemma RespondOtherInterface(services: map<string, ServiceImpl>, name: string, impl: ServiceImpl, request: RpcRequest)
    requires request.interfaceName != name
    ensures Respond(services[name := impl], request) == Respond(services, request)
  {
  }

  /** Requests for `name` are answered by the implementation bound last. */
  lemma RespondUsesBinding(services: map<string, ServiceImpl>, name: string, impl: ServiceImpl, request: RpcRequest)
    requires request.interfaceName == name
    ensures Respond(services[name := impl], request) == Respond(map[name := impl], request)
  {
  }

  class RpcServer {
    /** Interface name to implementation (`serviceRegistry`). */
    var services: map<string, ServiceImpl>

    constructor ()
      ensures services == map[]
    {
      services := map[];
    }

    /** `registerService`: binds `interfaceName`, replacing an earlier binding. */
    method RegisterService(interfaceName: TypeName, impl: ServiceImpl)
      modifies this
      ensures services == old(services)[interfaceName := impl]
    {
      services := services[interfaceName := impl];
    }

    /** `handleRequest`: fills a fresh response with the request's id, then
        with the result, or with whatever exception the lookup or the call
        raised; nothing escapes and the table is only read. */
    method HandleRequest(request: RpcRequest) returns (response: RpcResponse)
      ensures response == Respond(services, request)
    {
      response := RpcResponse(request.requestId, Null, None);
      if request.interfaceName !in services {
        response := response.(exception := Some(RuntimeException("服务未找到: " + request.interfaceName)));
        return;
      }
      var service := services[request.interfaceName];
      var signature := Signature(request.methodName, request.parameterTypes);
      if signature !in service.methods {
        response := response.(exception := Some(NoSuchMethodException(request.methodName, request.parameterTypes)));
        return;
      }
      if |request.parameters| != |request.parameterTypes| {
        response := response.(exception := Some(IllegalArgumentException("wrong number of arguments")));
        return;
      }
      var outcome := service.methods[signature](request.parameters);
      match outcome
      case Returned(v) =>
        response := response.(result := v);
      case Threw(e) =>
        response := response.(exception := Some(InvocationTargetException(e)));
    }
  }
}
