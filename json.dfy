/** JSON objects as the core handles them: a Python `dict` produced by
    `json.loads` or built field by field before `json.dumps`. Field order is
    kept, since Python dicts remember insertion order and the dataset
    extractor writes its CSV header in that order. */
module Json {
  import opened Wrappers
  import PyText

  /** A scalar field value. A float is carried by its Python `repr`, which is
      also what `str()` gives for it. */
  datatype Value = Str(s: string) | Int(i: int) | Float(repr: string) | Bool(b: bool) | Null

  /** Python's `str()` of a value. */
  function PyStr(v: Value): string {
    match v
    case Str(s) => s
    case Int(i) => PyText.IntToString(i)
    case Float(r) => r
    case Bool(b) => if b then "True" else "False"
    case Null => "None"
  }

  datatype Field = Field(key: string, value: Value)

  datatype Object = Object(fields: seq<Field>)

  /** The discriminator every protocol message carries. */
  const MsgType: string := "msg_type"

  /** The kind of the simulator's periodic state reports. */
  const Telemetry: string := "telemetry"

  /** `list(d.keys())`, in insertion order. */
  function Keys(o: Object): (ks: seq<string>)
    ensures |ks| == |o.fields|
  {
    KeysOf(o.fields)
  }

  function KeysOf(fs: seq<Field>): (ks: seq<string>)
    ensures |ks| == |fs|
  {
    if fs == [] then [] else [fs[0].key] + KeysOf(fs[1..])
  }

  lemma {:induction false} KeysOfAt(fs: seq<Field>, i: nat)
    requires i < |fs|
    ensures KeysOf(fs)[i] == fs[i].key
  {
    if i > 0 {
      KeysOfAt(fs[1..], i - 1);
    }
  }

  predicate HasKey(o: Object, k: string) {
    k in Keys(o)
  }

  /** No key occurs twice, as in every dict. */
  predicate UniqueKeys(o: Object) {
    forall i, j | 0 <= i < j < |o.fields| :: o.fields[i].key != o.fields[j].key
  }

  /** `d.get(k)`: the value stored under k, if any. */
  function Get(o: Object, k: string): (r: Option<Value>)
    ensures r.None? <==> !HasKey(o, k)
    ensures r.Some? ==> Field(k, r.value) in o.fields
  {
    GetIn(o.fields, k)
  }

  function GetIn(fs: seq<Field>, k: string): (r: Option<Value>)
    ensures r.None? <==> k !in KeysOf(fs)
    ensures r.Some? ==> Field(k, r.value) in fs
  {
    if fs == [] then None
    else if fs[0].key == k then Some(fs[0].value)
    else GetIn(fs[1..], k)
  }

  /** `d[k] = v`: an existing key keeps its place and takes the new value; a
      new key is appended. */
  function Set(o: Object, k: string, v: Value): Object {
    Object(SetIn(o.fields, k, v))
  }

  function SetIn(fs: seq<Field>, k: string, v: Value): seq<Field> {
    if fs == [] then [Field(k, v)]
    else if fs[0].key == k then [Field(k, v)] + fs[1..]
    else [fs[0]] + SetIn(fs[1..], k, v)
  }

  /** Setting an existing key keeps the key order; a new key goes last. */
  lemma {:induction false} KeysSet(o: Object, k: string, v: Value)
    ensures Keys(Set(o, k, v)) == if HasKey(o, k) then Keys(o) else Keys(o) + [k]
  {
    KeysSetIn(o.fields, k, v);
  }

  lemma {:induction false} KeysSetIn(fs: seq<Field>, k: string, v: Value)
    ensures KeysOf(SetIn(fs, k, v)) == if k in KeysOf(fs) then KeysOf(fs) else KeysOf(fs) + [k]
  {
    if fs != [] {
      if fs[0].key == k {
        assert ([Field(k, v)] + fs[1..])[1..] == fs[1..];
      } else {
        KeysSetIn(fs[1..], k, v);
        assert ([fs[0]] + SetIn(fs[1..], k, v))[1..] == SetIn(fs[1..], k, v);
      }
    }
  }

  /** After `d[k] = v`, `d.get(k)` is v and every other key reads as before. */
  lemma GetSet(o: Object, k: string, v: Value, k': string)
    ensures Get(Set(o, k, v), k') == if k' == k then Some(v) else Get(o, k')
  {
    GetSetIn(o.fields, k, v, k');
  }

  lemma {:induction false} GetSetIn(fs: seq<Field>, k: string, v: Value, k': string)
    ensures GetIn(SetIn(fs, k, v), k') == if k' == k then Some(v) else GetIn(fs, k')
  {
    if fs != [] {
      if fs[0].key == k {
        assert ([Field(k, v)] + fs[1..])[1..] == fs[1..];
      } else {
        GetSetIn(fs[1..], k, v, k');
        assert ([fs[0]] + SetIn(fs[1..], k, v))[1..] == SetIn(fs[1..], k, v);
      }
    }
  }

  /** Every value is a JSON string: what the simulator expects of every
      outbound message. */
  predicate AllStrings(o: Object) {
    forall f | f in o.fields :: f.value.Str?
  }

  /** The message kind, when the discriminator is a string. */
  function Kind(o: Object): Option<string> {
    match Get(o, MsgType)
    case Some(Str(s)) => Some(s)
    case _ => None
  }
}

/** The library calls the core makes but whose internals are not modelled:
    `json.loads`, `json.dumps` and the base64-then-PIL image decoding. */
module Foreign {
  import opened Wrappers
  import opened Json

  /** A decoded camera frame. */
  datatype Image = Image(width: nat, height: nat, pixels: seq<int>)

  /** `loads` answers None where `json.loads` raises; `decodeImage` answers
      None where `base64.b64decode` or `Image.open` raises. */
  datatype Codec = Codec(
    loads: string -> Option<Object>,
    dumps: Object -> string,
    decodeImage: Value -> Option<Image>)
}
