/** What the protobuf encoder writes and what the decoder makes of any byte string, as functions:
    the specification that the encoder and decoder methods refine. */
module Codec {
  import opened Basics
  import opened Wire
  import opened Schema

  // ---------- scalars ----------

  /** Encoder zig-zag: `v << 1`, complemented for negative v, in 64-bit arithmetic. */
  function Svarint(v: int): nat {
    if v >= 0 then (2 * v) % TWO_64 else TWO_64 - 1 - (2 * v) % TWO_64
  }

  function ToInt64(v: nat): int {
    if v % TWO_64 < TWO_63 then v % TWO_64 else v % TWO_64 - TWO_64
  }

  function ToInt32(v: int): int {
    if v % TWO_32 < TWO_31 then v % TWO_32 else v % TWO_32 - TWO_32
  }

  /** `decodeSignedInt`: the varint is converted to a signed word before the arithmetic shift. */
  function DecodeSigned(p: Payload): Option<int> {
    match p
    case Varint(v) =>
      var sv := ToInt64(v) / 2;
      Some(if v % 2 != 0 then -sv - 1 else sv)
    case Fixed32(v) => Some(ToInt32(v))
    case Fixed64(v) => Some(ToInt64(v))
    case Delim(_) => None
  }

  /** Storing a payload in a scalar variable, truncated to the variable's width. */
  function NumFrom(k: Kind, p: Payload): Option<int> {
    match k
    case Bool => if p.Varint? && p.v <= 1 then Some(p.v) else None
    case Int32 | Sfixed32 =>
      (match DecodeSigned(p) case None => None case Some(n) => Some(ToInt32(n)))
    case Int64 | Sfixed64 => DecodeSigned(p)
    case Uint32 | Ufixed32 => if p.Delim? then None else Some(p.v % TWO_32)
    case Uint64 | Ufixed64 =>
      if p.Delim? then None else if p.Fixed32? then Some(p.v % TWO_32) else Some(p.v)
    case Float32 => if p.Fixed32? then Some(p.v % TWO_32) else None
    case Float64 => if p.Fixed64? then Some(p.v) else None
  }

  function NumPayload(k: Kind, n: int): Payload
    requires NumOk(k, n)
  {
    match k
    case Bool => Varint(n)
    case Int32 | Int64 => Varint(Svarint(n))
    case Uint32 | Uint64 => Varint(n)
    case Sfixed32 | Ufixed32 | Float32 => Fixed32(n % TWO_32)
    case Sfixed64 | Ufixed64 | Float64 => Fixed64(n % TWO_64)
  }

  /** The wire type the decoder uses for the elements of a packed slice. */
  function PackedWire(k: Kind): nat {
    match k
    case Sfixed32 | Ufixed32 | Float32 => 5
    case Sfixed64 | Ufixed64 | Float64 => 1
    case _ => 0
  }

  function PackedBytes(k: Kind, ns: seq<int>): seq<Byte>
    requires forall n :: n in ns ==> NumOk(k, n)
  {
    if ns == [] then [] else NumPayload(k, ns[0]).Bytes() + PackedBytes(k, ns[1..])
  }

  // ---------- encoding ----------

  /** Fields of a struct that is not addressable, or that are not exported, cannot be set. */
  predicate SomeSettable(fs: seq<Field>, addressable: bool) {
    addressable && exists i :: 0 <= i < |fs| && fs[i].exported
  }

  /** False when the encoder panics: a required pointer is nil, a map holds a nil pointer, or a struct
      has fields and none that can be set. Only fields that can be set are encoded. Everything is
      addressable but the values of a map. */
  predicate Encodable(env: Env, t: Ty, required: bool, addressable: bool, v: Val)
    requires Typed(env, t, v)
    decreases v
  {
    match t
    case TMsg(fs) =>
      assert TypedFields(env, fs, v.vs);
      && (fs == [] || SomeSettable(fs, addressable))
      && forall i :: 0 <= i < |fs| && fs[i].exported ==> Encodable(env, fs[i].ty, fs[i].required, true, v.vs[i])
    case TOpt(e) =>
      if v.VNil? then !required else Encodable(env, Resolve(env, e), required, true, v.v)
    case TRep(e) => forall w :: w in v.es ==> Encodable(env, Resolve(env, e), false, true, w)
    case TMap(k, e) =>
      forall i :: 0 <= i < |v.entries| ==>
        && !v.entries[i].val.VNil?
        && Encodable(env, Resolve(env, e), required, false, v.entries[i].val)
    case _ => true
  }

  /** The payloads that a value contributes under its field number, where the encoder does not panic. */
  function Records(env: Env, t: Ty, v: Val): seq<Payload>
    requires Typed(env, t, v)
    decreases v, 1
  {
    match t
    case TNum(k) => [NumPayload(k, v.n)]
    case TBlob => [Delim(v.b)]
    case TArray(_) => [Delim(v.b)]
    case TPacked(k) => [Delim(PackedBytes(k, v.ns))]
    case TMsg(fs) => [Delim(FieldBytes(env, fs, v.vs))]
    case TOpt(e) => if v.VNil? then [] else Records(env, Resolve(env, e), v.v)
    case TRep(e) => ListRecords(env, Resolve(env, e), v.es)
    case TMap(k, e) => EntryRecords(env, k, Resolve(env, e), v.entries)
  }

  function FieldRecords(env: Env, f: Field, v: Val): seq<Payload>
    requires Typed(env, f.ty, v)
    decreases v, 2
  {
    if f.exported then Records(env, f.ty, v) else []
  }

  function FieldBytes(env: Env, fs: seq<Field>, vs: seq<Val>): seq<Byte>
    requires TypedFields(env, fs, vs)
    decreases vs, 0
  {
    if fs == [] then []
    else
      assert TypedFields(env, fs[1..], vs[1..]);
      Emit(fs[0].id, FieldRecords(env, fs[0], vs[0])) + FieldBytes(env, fs[1..], vs[1..])
  }

  lemma FieldBytesNext(env: Env, fs: seq<Field>, vs: seq<Val>, i: nat)
    requires TypedFields(env, fs, vs) && i < |fs|
    ensures TypedFields(env, fs[i..], vs[i..]) && TypedFields(env, fs[i + 1..], vs[i + 1..])
    ensures FieldBytes(env, fs[i..], vs[i..]) ==
            Emit(fs[i].id, FieldRecords(env, fs[i], vs[i])) + FieldBytes(env, fs[i + 1..], vs[i + 1..])
  {
    assert fs[i..][1..] == fs[i + 1..] && vs[i..][1..] == vs[i + 1..];
  }

  function ListRecords(env: Env, t: Ty, es: seq<Val>): seq<Payload>
    requires forall w :: w in es ==> Typed(env, t, w)
    decreases es, 0
  {
    if es == [] then [] else Records(env, t, es[0]) + ListRecords(env, t, es[1..])
  }

  ghost predicate TypedEntries(env: Env, k: Ty, t: Ty, entries: seq<Entry>) {
    forall i :: 0 <= i < |entries| ==> Typed(env, k, entries[i].key) && Typed(env, t, entries[i].val)
  }

  /** A map entry is a message with the key as field 1 and the value as field 2. */
  function EntryBytes(env: Env, k: Ty, t: Ty, e: Entry): seq<Byte>
    requires Typed(env, k, e.key) && Typed(env, t, e.val)
    decreases e, 0
  {
    Emit(1, Records(env, k, e.key)) + Emit(2, Records(env, t, e.val))
  }

  function EntryRecords(env: Env, k: Ty, t: Ty, entries: seq<Entry>): seq<Payload>
    requires TypedEntries(env, k, t, entries)
    decreases entries, 0
  {
    if entries == [] then []
    else
      [Delim(EntryBytes(env, k, t, entries[0]))] + EntryRecords(env, k, t, entries[1..])
  }

  /** `Encode`: the bytes of a message, or an error where the encoder panics. */
  function Encode(env: Env, fs: seq<Field>, vs: seq<Val>): Result<seq<Byte>>
    requires TypedFields(env, fs, vs)
  {
    if Encodable(env, TMsg(fs), false, true, VMsg(vs)) then Ok(FieldBytes(env, fs, vs)) else Err
  }

  // ---------- decoding ----------

  function DecodePacked(k: Kind, acc: seq<int>, buf: seq<Byte>): Result<seq<int>>
    decreases |buf|
  {
    if buf == [] then Ok(acc)
    else
      match ReadPayload(PackedWire(k), buf)
      case None => Err
      case Some((p, rest)) =>
        match NumFrom(k, p)
        case None => Err
        case Some(n) => DecodePacked(k, acc + [n], rest)
  }

  /** `SetMapIndex`: overwrite the entry with this key, or add one. */
  function Insert(entries: seq<Entry>, key: Val, val: Val): seq<Entry> {
    if entries == [] then [Entry(key, val)]
    else if entries[0].key == key then [Entry(key, val)] + entries[1..]
    else [entries[0]] + Insert(entries[1..], key, val)
  }

  /** The field cursor: the first field at or after `fi` whose number is not below `num`. */
  function Advance(fs: seq<Field>, fi: nat, num: nat): (r: nat)
    requires fi <= |fs|
    ensures fi <= r <= |fs|
    ensures forall i :: fi <= i < r ==> fs[i].id < num
    ensures r < |fs| ==> fs[r].id >= num
    decreases |fs| - fi
  {
    if fi < |fs| && fs[fi].id < num then Advance(fs, fi + 1, num) else fi
  }

  function Size(p: Payload): nat {
    if p.Delim? then |p.b| else 0
  }

  function Level(t: Ty): nat {
    if t.TRep? then 2 else if t.TOpt? then 1 else 0
  }

  ghost predicate Readable(env: Env, t: Ty) {
    SupportedEnv(env) && Supported(env, t)
  }

  /** `putvalue`: store one payload in a variable of type `t` that holds `cur`. */
  function PutVal(env: Env, t: Ty, cur: Val, p: Payload): (r: Result<Val>)
    requires Readable(env, t) && Shape(env, t, cur)
    ensures r.Ok? ==> Shape(env, t, r.value)
    decreases Size(p), 1 + Level(t)
  {
    match t
    case TNum(k) =>
      (match NumFrom(k, p) case None => Err case Some(n) => Ok(VNum(n)))
    case TBlob => if p.Delim? then Ok(VBlob(p.b)) else Err
    case TArray(len) => if p.Delim? && |p.b| == len then Ok(VBlob(p.b)) else Err
    case TPacked(k) =>
      if !p.Delim? then Err
      else (match DecodePacked(k, cur.ns, p.b) case Err => Err case Ok(ns) => Ok(VNums(ns)))
    case TMsg(fs) =>
      if !p.Delim? then Err
      else (match DecodeFields(env, fs, cur.vs, 0, p.b) case Err => Err case Ok(vs) => Ok(VMsg(vs)))
    case TOpt(e) =>
      var s := Resolve(env, e);
      ZeroShape(env, s);
      (match PutVal(env, s, if cur.VNil? then Zero(s) else cur.v, p)
       case Err => Err
       case Ok(w) => Ok(VPtr(w)))
    case TRep(e) =>
      if !p.Delim? then Err
      else
        var s := Resolve(env, e);
        ZeroShape(env, s);
        (match PutVal(env, s, Zero(s), p) case Err => Err case Ok(w) => Ok(VList(cur.es + [w])))
    case TMap(k, e) =>
      if !p.Delim? then Err
      else
        (match DecodeEntry(env, k, Resolve(env, e), p.b)
         case Err => Err
         case Ok(Entry(key, val)) => Ok(VMap(Insert(cur.entries, key, val))))
  }

  /** `message`: the decoding loop from cursor `fi`. Records under a number that the cursor does not
      meet, or of a field that is not exported, are skipped by wire type; but a nil pointer that is not
      exported is an error, because it is given something to point to first. */
  function DecodeFields(env: Env, fs: seq<Field>, cur: seq<Val>, fi: nat, buf: seq<Byte>)
    : (r: Result<seq<Val>>)
    requires Readable(env, TMsg(fs)) && Shapes(env, fs, cur) && fi <= |fs|
    ensures r.Ok? ==> Shapes(env, fs, r.value)
    decreases |buf|, 0
  {
    if buf == [] then Ok(cur)
    else
      match Uvarint(buf)
      case None => Err
      case Some((key, n)) =>
        var j := Advance(fs, fi, key / 8);
        match ReadPayload(key % 8, buf[n..])
        case None => Err
        case Some((p, rest)) =>
          if j < |fs| && fs[j].id == key / 8 && fs[j].exported then
            match PutVal(env, fs[j].ty, cur[j], p)
            case Err => Err
            case Ok(v) => DecodeFields(env, fs, cur[j := v], j, rest)
          else if j < |fs| && fs[j].id == key / 8 && cur[j].VNil? then Err
          else
            DecodeFields(env, fs, cur, j, rest)
  }

  /** `mapEntry`: the first record is the key, all further records are the value. */
  function DecodeEntry(env: Env, k: Ty, t: Ty, buf: seq<Byte>): (r: Result<Entry>)
    requires Readable(env, k) && Readable(env, t)
    decreases |buf|, 0
  {
    match Uvarint(buf)
    case None => Err
    case Some((key, n)) =>
      match ReadPayload(key % 8, buf[n..])
      case None => Err
      case Some((p, rest)) =>
        ZeroShape(env, k);
        ZeroShape(env, t);
        match PutVal(env, k, Zero(k), p)
        case Err => Err
        case Ok(kv) =>
          match DecodeEntryValue(env, t, Zero(t), rest)
          case Err => Err
          case Ok(vv) => Ok(Entry(kv, vv))
  }

  function DecodeEntryValue(env: Env, t: Ty, cur: Val, buf: seq<Byte>): (r: Result<Val>)
    requires Readable(env, t) && Shape(env, t, cur)
    decreases |buf|, 0
  {
    if buf == [] then Ok(cur)
    else
      match Uvarint(buf)
      case None => Err
      case Some((key, n)) =>
        match ReadPayload(key % 8, buf[n..])
        case None => Err
        case Some((p, rest)) =>
          match PutVal(env, t, cur, p)
          case Err => Err
          case Ok(v) => DecodeEntryValue(env, t, v, rest)
  }

  /** `Decode` into a freshly allocated struct. */
  function Decode(env: Env, fs: seq<Field>, buf: seq<Byte>): (r: Result<seq<Val>>)
    requires Readable(env, TMsg(fs))
    ensures r.Ok? ==> Shapes(env, fs, r.value)
  {
    ZerosShape(env, fs);
    DecodeFields(env, fs, Zeros(fs), 0, buf)
  }
}
