/** The codec tags (`com.alan.rpc.v4.common.SerializationTypeEnum`): four
    constant variants, each with a lower-case code and a description, and the
    case-insensitive lookup from a code back to its variant. */
module SerializationType {
  import opened Common

  datatype SerializationType = JAVA | JSON | HESSIAN | KRYO

  /** The variants in declaration order, as `values()` lists them. */
  function Values(): (r: seq<SerializationType>)
    ensures |r| == 4
    ensures forall t :: t in r
    ensures forall i, j :: 0 <= i < j < |r| ==> r[i] != r[j]
  {
    var r := [JAVA, JSON, HESSIAN, KRYO];
    assert forall t :: t in r by {
      forall t ensures t in r {
        if t.JAVA? {
          assert r[0] == t;
        } else if t.JSON? {
          assert r[1] == t;
        } else if t.HESSIAN? {
          assert r[2] == t;
        } else {
          assert r[3] == t;
        }
      }
    }
    r
  }

  /** ASCII case folding of one character. */
  function Fold(c: char): (d: char)
    ensures 'A' <= c <= 'Z' ==> 'a' <= d <= 'z' && d as int - c as int == 32
    ensures !('A' <= c <= 'Z') ==> d == c
  {
    if 'A' <= c <= 'Z' then (c as int + 32) as char else c
  }

  /** `String.equalsIgnoreCase` restricted to ASCII letters: same length and
      the same characters once both are folded. */
  predicate EqualsIgnoreCase(a: string, b: string)
    ensures a == b ==> EqualsIgnoreCase(a, b)
    ensures EqualsIgnoreCase(a, b) ==> |a| == |b|
  {
    |a| == |b| && forall i :: 0 <= i < |a| ==> Fold(a[i]) == Fold(b[i])
  }

  function Code(t: SerializationType): (c: string)
    ensures c != [] && forall i :: 0 <= i < |c| ==> 'a' <= c[i] <= 'z'
  {
    match t
    case JAVA => "java"
    case JSON => "json"
    case HESSIAN => "hessian"
    case KRYO => "kryo"
  }

  /** Each description opens with its codec's name, matching the code up to
      case, followed by a space. */
  function Description(t: SerializationType): (d: string)
    ensures |Code(t)| < |d| && EqualsIgnoreCase(d[..|Code(t)|], Code(t)) && d[|Code(t)|] == ' '
  {
    match t
    case JAVA => "Java 原生序列化"
    case JSON => "JSON 序列化"
    case HESSIAN => "Hessian 二进制序列化"
    case KRYO => "Kryo 高性能序列化"
  }

  /** The enum constant's name, which is what `"…" + type` renders. */
  function Name(t: SerializationType): (n: string)
    ensures EqualsIgnoreCase(n, Code(t))
  {
    match t
    case JAVA => "JAVA"
    case JSON => "JSON"
    case HESSIAN => "HESSIAN"
    case KRYO => "KRYO"
  }

  /** The loop of `fromCode`: the first of `ts` whose code matches `code`
      ignoring case. */
  function Search(ts: seq<SerializationType>, code: string): (r: Option<SerializationType>)
    ensures r.Some? ==> r.value in ts && EqualsIgnoreCase(Code(r.value), code)
    ensures r.Some? ==> exists k :: 0 <= k < |ts| && ts[k] == r.value &&
                               forall j :: 0 <= j < k ==> !EqualsIgnoreCase(Code(ts[j]), code)
    ensures r.None? <==> forall t :: t in ts ==> !EqualsIgnoreCase(Code(t), code)
  {
    if ts == [] then None
    else if EqualsIgnoreCase(Code(ts[0]), code) then Some(ts[0])
    else
      var r := Search(ts[1..], code);
      assert forall t :: t in ts ==> t == ts[0] || t in ts[1..];
      if r.Some? then
        ghost var k :| 0 <= k < |ts[1..]| && ts[1..][k] == r.value &&
          forall j :: 0 <= j < k ==> !EqualsIgnoreCase(Code(ts[1..][j]), code);
        assert ts[k + 1] == r.value;
        r
      else r
  }

  /** `fromCode`; `None` stands for a null code, which `equalsIgnoreCase`
      matches with nothing. */
  function FromCode(code: Option<string>): (r: Result<SerializationType, Exception>)
    ensures r.Ok? <==> code.Some? && exists t :: EqualsIgnoreCase(Code(t), code.value)
    ensures r.Ok? ==> EqualsIgnoreCase(Code(r.value), code.value)
    ensures r.Err? ==> r.error == IllegalArgumentException("未知的序列化类型: " + (if code.Some? then code.value else "null"))
  {
    match code
    case None => Err(IllegalArgumentException("未知的序列化类型: " + "null"))
    case Some(c) =>
      match Search(Values(), c)
      case Some(t) => Ok(t)
      case None => Err(IllegalArgumentException("未知的序列化类型: " + c))
  }

  lemma EqualsIgnoreCaseSymmetric(a: string, b: string)
    ensures EqualsIgnoreCase(a, b) <==> EqualsIgnoreCase(b, a)
  {
  }

  lemma EqualsIgnoreCaseTransitive(a: string, b: string, c: string)
    requires EqualsIgnoreCase(a, b) && EqualsIgnoreCase(b, c)
    ensures EqualsIgnoreCase(a, c)
  {
  }

  /** No two codes are equal up to case, so at most one variant matches any
      string. */
  lemma CodesDistinct(t: SerializationType, u: SerializationType)
    requires t != u
    ensures !EqualsIgnoreCase(Code(t), Code(u))
  {
    var a, b := Code(t), Code(u);
    if |a| == |b| {
      if {t, u} == {JAVA, JSON} {
        assert Fold(a[1]) != Fold(b[1]);
      } else if {t, u} == {JAVA, KRYO} || {t, u} == {JSON, KRYO} {
        assert Fold(a[0]) != Fold(b[0]);
      }
    }
  }

  /** Any string equal to a code up to case resolves to that code's variant:
      "JSON" and "Json" both give `JSON`. */
  lemma FromCodeIgnoresCase(t: SerializationType, s: string)
    requires EqualsIgnoreCase(s, Code(t))
    ensures FromCode(Some(s)) == Ok(t)
  {
    var r := FromCode(Some(s));
    assert r.Ok? by {
      EqualsIgnoreCaseSymmetric(s, Code(t));
    }
    if r.value != t {
      EqualsIgnoreCaseSymmetric(s, Code(t));
      EqualsIgnoreCaseTransitive(Code(r.value), s, Code(t));
      CodesDistinct(r.value, t);
    }
  }

  /** `fromCode(t.getCode()) == t`. */
  lemma FromCodeRoundTrip(t: SerializationType)
    ensures FromCode(Some(Code(t))) == Ok(t)
  {
    FromCodeIgnoresCase(t, Code(t));
  }

  /** The converse direction: a code that resolves is some variant's code up
      to case, and resolves to exactly that variant. */
  lemma FromCodeOnlyCodes(s: string, t: SerializationType)
    requires FromCode(Some(s)) == Ok(t)
    ensures EqualsIgnoreCase(s, Code(t))
    ensures forall u :: EqualsIgnoreCase(s, Code(u)) ==> u == t
  {
    EqualsIgnoreCaseSymmetric(s, Code(t));
    forall u | EqualsIgnoreCase(s, Code(u)) ensures u == t {
      FromCodeIgnoresCase(u, s);
    }
  }

  lemma FromCodeExamples()
    ensures FromCode(Some("JSON")) == Ok(JSON)
    ensures FromCode(Some("Json")) == Ok(JSON)
    ensures FromCode(None).Err?
  {
    FromCodeIgnoresCase(JSON, "JSON");
    FromCodeIgnoresCase(JSON, "Json");
  }

  /** "xml" names no codec. */
  lemma FromCodeUnknown()
    ensures FromCode(Some("xml")) == Err(IllegalArgumentException("未知的序列化类型: xml"))
  {
    assert "未知的序列化类型: " + "xml" == "未知的序列化类型: xml";
  }
}
