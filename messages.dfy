/** The request and response records exchanged between client and server
    (`RpcRequest`, and `com.alan.rpc.v2.common.RpcResponse` with its two
    factories). A Java `null` result is `Null`; a `null` exception is `None`.
    Both are plain values, so two records are equal exactly when all their
    fields are, as Lombok's generated `equals` has it. */
module Messages {
  import opened Common

  datatype RpcRequest = RpcRequest(
    requestId: string,
    interfaceName: string,
    methodName: string,
    parameterTypes: seq<TypeName>,
    parameters: seq<Value>)

  datatype RpcResponse = RpcResponse(requestId: string, result: Value, exception: Option<Exception>)

  /** A response never carries both a result and an exception. */
  predicate OneOf(r: RpcResponse)
  {
    r.result == Null || r.exception.None?
  }

  /** How a caller reads a response: a carried exception is raised, otherwise
      the result is the value of the call. */
  function Outcome(r: RpcResponse): (o: Result<Value, Exception>)
    ensures o.Err? <==> r.exception.Some?
    ensures o.Err? ==> r.exception == Some(o.error)
    ensures o.Ok? ==> o.value == r.result
  {
    if r.exception.Some? then Err(r.exception.value) else Ok(r.result)
  }

  /** `success(requestId, result)`. */
  function Success(requestId: string, result: Value): (r: RpcResponse)
    ensures r.requestId == requestId && OneOf(r)
    ensures Outcome(r) == Ok(result)
  {
    RpcResponse(requestId, result, None)
  }

  /** `fail(requestId, exception)`. */
  function Fail(requestId: string, exception: Exception): (r: RpcResponse)
    ensures r.requestId == requestId && OneOf(r)
    ensures Outcome(r) == Err(exception)
  {
    RpcResponse(requestId, Null, Some(exception))
  }

  /** Every response with the `OneOf` shape is one the factories build, and
      the factories are told apart by `Outcome`: a response is determined by
      its id and how it reads. */
  lemma FactoriesCoverOneOf(r: RpcResponse)
    requires OneOf(r)
    ensures r.exception.None? ==> r == Success(r.requestId, r.result)
    ensures r.exception.Some? ==> r == Fail(r.requestId, r.exception.value)
  {
  }

  lemma OutcomeDeterminesResponse(a: RpcResponse, b: RpcResponse)
    requires OneOf(a) && OneOf(b)
    requires a.requestId == b.requestId && Outcome(a) == Outcome(b)
    ensures a == b
  {
  }
}
