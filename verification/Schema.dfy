/** Go types as the codec sees them through reflection, and the values of those types. */
module Schema {
  import opened Basics
  import opened Wire

  /** The scalar kinds. `int` behaves as Int64; floats are carried as bit patterns. */
  datatype Kind =
    | Bool | Int32 | Int64 | Uint32 | Uint64
    | Sfixed32 | Sfixed64 | Ufixed32 | Ufixed64
    | Float32 | Float64

  /** Strings and `[]byte` share one wire form and are both TBlob; `[n]byte` is TArray. A slice of
      scalars is packed (TPacked); any other slice is unpacked (TRep). */
  datatype Ty =
    | TNum(k: Kind)
    | TBlob
    | TArray(len: nat)
    | TPacked(k: Kind)
    | TMsg(fields: seq<Field>)
    | TOpt(elem: Elem)
    | TRep(elem: Elem)
    | TMap(key: Ty, val: Elem)

  /** What a pointer, slice or map refers to: a type written in place, or a declared type by its
      number, which is how a Go type refers to itself. */
  datatype Elem = Inline(t: Ty) | Named(name: nat)

  /** A struct field; reflection cannot set the fields that are not exported. */
  datatype Field = Field(id: nat, required: bool, exported: bool, ty: Ty)

  type Env = seq<Ty>

  function Resolve(env: Env, e: Elem): Ty {
    match e
    case Inline(t) => t
    case Named(n) => if n < |env| then env[n] else TMsg([])
  }

  /** Values. Nil and empty slices and maps are one value. Map entries are listed in the order in
      which the Go runtime enumerates them. */
  datatype Val =
    | VNum(n: int)
    | VBlob(b: seq<Byte>)
    | VNums(ns: seq<int>)
    | VMsg(vs: seq<Val>)
    | VNil
    | VPtr(v: Val)
    | VList(es: seq<Val>)
    | VMap(entries: seq<Entry>)

  datatype Entry = Entry(key: Val, val: Val)

  // ---------- supported types ----------

  /** Exactly one record, whatever the value. */
  predicate Single(t: Ty) {
    t.TNum? || t.TBlob? || t.TArray? || t.TPacked? || t.TMsg?
  }

  predicate Delimited(t: Ty) {
    t.TBlob? || t.TArray? || t.TPacked? || t.TMsg?
  }

  predicate Repeatable(env: Env, t: Ty) {
    t.TBlob? || t.TArray? || t.TMsg? || (t.TOpt? && Delimited(Resolve(env, t.elem)))
  }

  predicate MapKey(t: Ty) {
    (t.TNum? && !t.k.Float32? && !t.k.Float64?) || t.TBlob? || t.TArray?
  }

  predicate MapValue(t: Ty) {
    t.TNum? || t.TBlob? || t.TArray? || t.TMsg? || t.TOpt? || t.TMap?
  }

  /** A type the codec supports. */
  predicate Supported(env: Env, t: Ty) {
    match t
    case TMsg(fs) => forall f :: f in fs && f.exported ==> Supported(env, f.ty)
    case TOpt(e) => (e.Inline? ==> Supported(env, e.t)) && Single(Resolve(env, e))
    case TRep(e) => (e.Inline? ==> Supported(env, e.t)) && Repeatable(env, Resolve(env, e))
    case TMap(k, e) =>
      MapKey(k) && (e.Inline? ==> Supported(env, e.t)) && MapValue(Resolve(env, e))
    case _ => true
  }

  predicate SupportedEnv(env: Env) {
    forall i :: 0 <= i < |env| ==> Supported(env, env[i])
  }

  /** No field number is used twice, on which the codec insists, and all of them fit a key. */
  predicate DistinctIds(fs: seq<Field>) {
    && (forall i :: 0 <= i < |fs| ==> fs[i].id < TWO_61)
    && (forall i, j :: 0 <= i < j < |fs| ==> fs[i].id != fs[j].id)
  }

  /** Field numbers strictly increase in declaration order. */
  predicate Increasing(fs: seq<Field>) {
    forall i, j :: 0 <= i < j < |fs| ==> fs[i].id < fs[j].id
  }

  /** A field declared before field j has a larger number. */
  predicate Shadowed(fs: seq<Field>, j: nat)
    requires j < |fs|
  {
    exists i :: 0 <= i < j && fs[i].id > fs[j].id
  }

  /** Field numbers are distinct in this type and in every type written inside it. */
  predicate Numbered(t: Ty) {
    match t
    case TMsg(fs) => DistinctIds(fs) && forall f :: f in fs && f.exported ==> Numbered(f.ty)
    case TOpt(e) => e.Inline? ==> Numbered(e.t)
    case TRep(e) => e.Inline? ==> Numbered(e.t)
    case TMap(_, e) => e.Inline? ==> Numbered(e.t)
    case _ => true
  }

  predicate NumberedEnv(env: Env) {
    forall i :: 0 <= i < |env| ==> Numbered(env[i])
  }

  // ---------- values of a type ----------

  predicate NumOk(k: Kind, n: int) {
    match k
    case Bool => 0 <= n < 2
    case Int32 | Sfixed32 => -TWO_31 <= n < TWO_31
    case Int64 | Sfixed64 => -TWO_63 <= n < TWO_63
    case Uint32 | Ufixed32 | Float32 => 0 <= n < TWO_32
    case Uint64 | Ufixed64 | Float64 => 0 <= n < TWO_64
  }

  predicate DistinctKeys(entries: seq<Entry>) {
    forall i, j :: 0 <= i < j < |entries| ==> entries[i].key != entries[j].key
  }

  predicate Typed(env: Env, t: Ty, v: Val)
    decreases v
  {
    match t
    case TNum(k) => v.VNum? && NumOk(k, v.n)
    case TBlob => v.VBlob?
    case TArray(len) => v.VBlob? && |v.b| == len
    case TPacked(k) => v.VNums? && forall n :: n in v.ns ==> NumOk(k, n)
    case TMsg(fs) => v.VMsg? && TypedFields(env, fs, v.vs)
    case TOpt(e) => v.VNil? || (v.VPtr? && Typed(env, Resolve(env, e), v.v))
    case TRep(e) => v.VList? && forall w :: w in v.es ==> Typed(env, Resolve(env, e), w)
    case TMap(k, e) =>
      && v.VMap?
      && DistinctKeys(v.entries)
      && forall i :: 0 <= i < |v.entries| ==>
           Typed(env, k, v.entries[i].key) && Typed(env, Resolve(env, e), v.entries[i].val)
  }

  predicate TypedFields(env: Env, fs: seq<Field>, vs: seq<Val>)
    decreases vs
  {
    |vs| == |fs| && forall i :: 0 <= i < |fs| ==> Typed(env, fs[i].ty, vs[i])
  }

  /** The value a freshly allocated variable holds. */
  function Zero(t: Ty): Val {
    match t
    case TNum(_) => VNum(0)
    case TBlob => VBlob([])
    case TArray(len) => VBlob(seq(len, _ => 0))
    case TPacked(_) => VNums([])
    case TMsg(fs) => VMsg(seq(|fs|, i requires 0 <= i < |fs| => Zero(fs[i].ty)))
    case TOpt(_) => VNil
    case TRep(_) => VList([])
    case TMap(_, _) => VMap([])
  }

  function Zeros(fs: seq<Field>): (r: seq<Val>)
    ensures |r| == |fs| && forall i :: 0 <= i < |fs| ==> r[i] == Zero(fs[i].ty)
  {
    seq(|fs|, i requires 0 <= i < |fs| => Zero(fs[i].ty))
  }

  lemma ZeroMsg(fs: seq<Field>)
    ensures Zero(TMsg(fs)) == VMsg(Zeros(fs))
  {
    assert Zero(TMsg(fs)).vs == Zeros(fs);
  }

  /** The layout a decoder may write into: structs have all their fields, each of its own layout. */
  predicate Shape(env: Env, t: Ty, v: Val)
    decreases v
  {
    match t
    case TNum(_) => v.VNum?
    case TBlob => v.VBlob?
    case TArray(_) => v.VBlob?
    case TPacked(_) => v.VNums?
    case TMsg(fs) => v.VMsg? && Shapes(env, fs, v.vs)
    case TOpt(e) => v.VNil? || (v.VPtr? && Shape(env, Resolve(env, e), v.v))
    case TRep(_) => v.VList?
    case TMap(_, _) => v.VMap?
  }

  predicate Shapes(env: Env, fs: seq<Field>, vs: seq<Val>)
    decreases vs
  {
    |vs| == |fs| && forall i :: 0 <= i < |fs| ==> Shape(env, fs[i].ty, vs[i])
  }

  lemma {:induction false} ZeroShape(env: Env, t: Ty)
    ensures Shape(env, t, Zero(t))
    decreases t
  {
    match t {
      case TMsg(fs) =>
        ZeroMsg(fs);
        forall i | 0 <= i < |fs| ensures Shape(env, fs[i].ty, Zeros(fs)[i]) {
          ZeroShape(env, fs[i].ty);
        }
      case _ =>
    }
  }

  lemma ZerosShape(env: Env, fs: seq<Field>)
    ensures Shapes(env, fs, Zeros(fs))
  {
    ZeroMsg(fs);
    ZeroShape(env, TMsg(fs));
  }
}
