/**
 * JSON values as PHP's json_decode produces them, and the codec the
 * core uses (json_encode / json_decode) as a pair of total functions.
 * The codec is not implemented here: every operation that needs it
 * takes it as a parameter. Decoding never fails; malformed text decodes
 * to whatever the given decoder returns (PHP returns null).
 */
module Json {
  import opened Wrappers

  datatype Json =
    | JNull
    | JBool(b: bool)
    | JNum(n: int)
    | JStr(s: string)
    | JList(items: seq<Json>)
    | JObject(fields: seq<(string, Json)>)

  /** json_encode and json_decode. */
  datatype Codec = Codec(encode: Json -> string, decode: string -> Json)

  /** The round-trip law a well-behaved codec obeys. */
  ghost predicate Lawful(codec: Codec) {
    forall j: Json {:trigger codec.encode(j)} :: codec.decode(codec.encode(j)) == j
  }

  /** PHP's is_array on a decoded value: lists and (associative) objects. */
  predicate IsArray(j: Json) {
    j.JList? || j.JObject?
  }

  /** PHP's loose comparison `j == true`. */
  predicate Truthy(j: Json) {
    match j
    case JNull => false
    case JBool(b) => b
    case JNum(n) => n != 0
    case JStr(s) => s != "" && s != "0"
    case JList(items) => items != []
    case JObject(_) => true
  }

  /** A property lookup on a decoded object; json_decode keeps the last of duplicate names. */
  function Get(fields: seq<(string, Json)>, name: string): Option<Json>
    decreases |fields|
  {
    if fields == [] then None
    else if fields[|fields| - 1].0 == name then Some(fields[|fields| - 1].1)
    else Get(fields[..|fields| - 1], name)
  }

  /** No field of `fields` carries `name`. */
  predicate Unnamed(fields: seq<(string, Json)>, name: string)
  {
    forall i :: 0 <= i < |fields| ==> fields[i].0 != name
  }

  /** Field `i` is the last one of `fields` that carries `name`. */
  predicate LastNamed(fields: seq<(string, Json)>, name: string, i: int)
  {
    0 <= i < |fields| && fields[i].0 == name && forall j :: i < j < |fields| ==> fields[j].0 != name
  }

  /** A lookup finds the value of the last field with that name, and fails only when there is none. */
  lemma {:induction false} GetFindsLast(fields: seq<(string, Json)>, name: string)
    ensures Get(fields, name).None? <==> Unnamed(fields, name)
    ensures Get(fields, name).Some? ==> exists i :: LastNamed(fields, name, i) && fields[i].1 == Get(fields, name).value
    decreases |fields|
  {
    if fields != [] {
      var n := |fields| - 1;
      var init := fields[..n];
      GetFindsLast(init, name);
      if fields[n].0 == name {
        assert LastNamed(fields, name, n);
      } else {
        GetSkipsOther(fields, name);
      }
    }
  }

  /** Below a last field with another name, lookup and the named positions are those of the rest. */
  lemma GetSkipsOther(fields: seq<(string, Json)>, name: string)
    requires fields != [] && fields[|fields| - 1].0 != name
    ensures Get(fields, name) == Get(fields[..|fields| - 1], name)
    ensures Unnamed(fields, name) <==> Unnamed(fields[..|fields| - 1], name)
    ensures forall i :: LastNamed(fields[..|fields| - 1], name, i) ==> LastNamed(fields, name, i) && fields[i] == fields[..|fields| - 1][i]
  {
    var init := fields[..|fields| - 1];
    assert forall i :: 0 <= i < |init| ==> init[i] == fields[i];
    if Unnamed(init, name) {
      forall i | 0 <= i < |fields| ensures fields[i].0 != name {
        if i < |init| { assert init[i] == fields[i]; }
      }
    }
    forall i | LastNamed(init, name, i) ensures LastNamed(fields, name, i) && fields[i] == init[i] {
      forall j | i < j < |fields| ensures fields[j].0 != name {
        if j < |init| { assert init[j] == fields[j]; }
      }
    }
  }

  /** Decimal text of an integer, as PHP writes an int array key or a number. */
  function IntToString(n: int): (r: string)
    ensures r != []
    decreases if n < 0 then 1 - n else n
  {
    if n < 0 then "-" + IntToString(-n)
    else if n < 10 then [DigitChar(n)]
    else IntToString(n / 10) + [DigitChar(n % 10)]
  }

  function DigitChar(d: int): char
    requires 0 <= d < 10
  {
    ('0' as int + d) as char
  }
}
