/** The codec factory (`com.alan.rpc.v4.common.serializer.SerializerFactory`).
    The four codec classes are only tokens here: what each one encodes is the
    business of the library it wraps. */
module SerializerFactory {
  import opened Common
  import opened SerializationType

  datatype Serializer = JavaSerializer | JsonSerializer | HessianSerializer | KryoSerializer

  /** `getType()` of each codec class. */
  function GetType(s: Serializer): (t: SerializationType)
    ensures t == JAVA <==> s == JavaSerializer
    ensures t == JSON <==> s == JsonSerializer
    ensures t == HESSIAN <==> s == HessianSerializer
    ensures t == KRYO <==> s == KryoSerializer
  {
    match s
    case JavaSerializer => JAVA
    case JsonSerializer => JSON
    case HessianSerializer => HESSIAN
    case KryoSerializer => KRYO
  }

  /** `SERIALIZER_CACHE` once the static initialiser has run its four `put`s. */
  const SerializerCache: map<SerializationType, Serializer> :=
    map[][JAVA := JavaSerializer][JSON := JsonSerializer][HESSIAN := HessianSerializer][KRYO := KryoSerializer]

  /** The cache has an entry for every variant, and each entry reports the
      variant it is filed under. */
  lemma CacheComplete(t: SerializationType)
    ensures t in SerializerCache && GetType(SerializerCache[t]) == t
  {
  }

  /** `getSerializer(type)`: the cached codec; the "unsupported" branch is
      kept but no variant reaches it. */
  function GetSerializer(t: SerializationType): (r: Result<Serializer, Exception>)
    ensures r.Ok? && GetType(r.value) == t
  {
    CacheComplete(t);
    if t in SerializerCache then Ok(SerializerCache[t])
    else Err(IllegalArgumentException("不支持的序列化类型: " + Name(t)))
  }

  /** Different variants get different codecs. */
  lemma GetSerializerInjective(t: SerializationType, u: SerializationType)
    requires GetSerializer(t) == GetSerializer(u)
    ensures t == u
  {
  }

  /** `getSerializer(code)`: resolve the code, then look the variant up. */
  function GetSerializerByCode(code: Option<string>): (r: Result<Serializer, Exception>)
    ensures r.Ok? <==> FromCode(code).Ok?
    ensures r.Ok? ==> GetType(r.value) == FromCode(code).value && code.Some? &&
                      EqualsIgnoreCase(Code(GetType(r.value)), code.value)
    ensures r.Err? ==> r.error.IllegalArgumentException? && r == Err(FromCode(code).error)
  {
    match FromCode(code)
    case Ok(t) => GetSerializer(t)
    case Err(e) => Err(e)
  }

  /** A variant's own code, in any case, gives that variant's codec. */
  lemma GetSerializerByCodeOfCode(t: SerializationType, s: string)
    requires EqualsIgnoreCase(s, Code(t))
    ensures GetSerializerByCode(Some(s)) == GetSerializer(t)
  {
    FromCodeIgnoresCase(t, s);
  }

  /** `getDefaultSerializer()`: the Java codec. */
  function GetDefaultSerializer(): (s: Serializer)
    ensures GetSerializer(JAVA) == Ok(s) && GetType(s) == JAVA
  {
    GetSerializer(JAVA).value
  }
}
