/** Access proof, materialisation and overwriting, for every schema.

    `Valid` is the generated eager proof, `Decode` the generated `copy_into`, and `Encode` the
    specification every write is held to: `Encode(s, b, v)` is the span `b` with exactly the
    active bytes of the logical value `v` written over it. */
module Codec {
  import opened Bytes
  import opened Leaves
  import opened Schemas

  /** The raw value of the tag that selects child `k`; 0 when `k` is not a payload. */
  function Tag(s: Schema, b: seq<Byte>, k: nat): nat
    requires Wf(s) && |b| == s.Size() && k < s.Count()
  {
    WfKid(s, k);
    if s.KindOf(k).Payload? then
      var t := s.KindOf(k).tag;
      Load(s.KindOf(t).s.leaf.w.order, Part(s, b, t)[..s.KindOf(t).s.leaf.w.width])
    else 0
  }

  /** Whether the generated proof accepts the span `b`. */
  predicate Valid(s: Schema, b: seq<Byte>)
    requires Wf(s) && |b| == s.Size()
    decreases s, 1
  {
    if s.Atom? then LeafValid(s.leaf, b)
    else forall k :: 0 <= k < s.Count() ==> ValidKid(s, b, k)
  }

  predicate ValidKid(s: Schema, b: seq<Byte>, k: nat)
    requires Wf(s) && |b| == s.Size() && k < s.Count()
    decreases s, 0
  {
    WfKid(s, k);
    ValidKind(s.KindOf(k), Tag(s, b, k), Part(s, b, k))
  }

  /** The proof of one field storage `x`; a payload is proved for the variant tag `d` selects. */
  predicate ValidKind(kind: Kind, d: nat, x: seq<Byte>)
    requires WfKind(kind) && Room(kind, |x|)
  {
    match kind
    case Own(s) => Valid(s, x[..s.Size()])
    case Optional(s) => AllZero(x) || Valid(s, x[..s.Size()])
    case Payload(_, arms) =>
      var j := Pick(arms, d);
      j < |arms| && (arms[j].Newtype? ==> Valid(arms[j].s, x[..arms[j].s.Size()]))
  }

  function Decode(s: Schema, b: seq<Byte>): Value
    requires Wf(s) && |b| == s.Size() && Valid(s, b)
    decreases s, 1
  {
    if s.Atom? then Leaf(LeafDecode(s.leaf, b))
    else Node(seq(s.Count(), k requires 0 <= k < s.Count() => DecodeKid(s, b, k)))
  }

  function DecodeKid(s: Schema, b: seq<Byte>, k: nat): Value
    requires Wf(s) && |b| == s.Size() && k < s.Count() && ValidKid(s, b, k)
    decreases s, 0
  {
    WfKid(s, k);
    DecodeKind(s.KindOf(k), Tag(s, b, k), Part(s, b, k))
  }

  function DecodeKind(kind: Kind, d: nat, x: seq<Byte>): Value
    requires WfKind(kind) && Room(kind, |x|) && ValidKind(kind, d, x)
  {
    match kind
    case Own(s) => Decode(s, x[..s.Size()])
    case Optional(s) => if AllZero(x) then Nothing else Just(Decode(s, x[..s.Size()]))
    case Payload(_, arms) =>
      var j := Pick(arms, d);
      Case(j, if arms[j].Unit? then Nothing else Decode(arms[j].s, x[..arms[j].s.Size()]))
  }

  /** Each child of a proved span is proved, and is decoded on its own. */
  lemma KidDecoded(s: Schema, b: seq<Byte>, k: nat)
    requires Wf(s) && !s.Atom? && |b| == s.Size() && Valid(s, b) && k < s.Count()
    ensures WfKind(s.KindOf(k)) && Room(s.KindOf(k), s.Len(k))
    ensures ValidKind(s.KindOf(k), Tag(s, b, k), Part(s, b, k))
    ensures Decode(s, b).Node? && |Decode(s, b).kids| == s.Count()
    ensures Decode(s, b).kids[k] == DecodeKind(s.KindOf(k), Tag(s, b, k), Part(s, b, k))
  {
    WfKid(s, k);
    assert ValidKid(s, b, k);
    assert Decode(s, b).kids[k] == DecodeKid(s, b, k);
  }

  // ----- logical values -----

  /** The values the declaration's Rust types admit. */
  predicate Typed(s: Schema, v: Value) {
    if s.Atom? then v.Leaf? && LeafTyped(s.leaf, v.v)
    else v.Node? && |v.kids| == s.Count() && forall k :: 0 <= k < s.Count() ==> TypedKind(s.KindOf(k), v.kids[k])
  }

  predicate TypedKind(kind: Kind, v: Value) {
    match kind
    case Own(s) => Typed(s, v)
    case Optional(s) => v.Nothing? || (v.Just? && Typed(s, v.w))
    case Payload(_, arms) =>
      v.Case? && v.pick < |arms| && if arms[v.pick].Unit? then v.body.Nothing? else Typed(arms[v.pick].s, v.body)
  }

  /** The values that have a representation: strings within capacity and prefix, and every tag
      naming the variant its payload carries. */
  predicate Fits(s: Schema, v: Value) {
    if s.Atom? then v.Leaf? && LeafFits(s.leaf, v.v)
    else
      && v.Node? && |v.kids| == s.Count()
      && (forall k :: 0 <= k < s.Count() ==> FitsKind(s.KindOf(k), v.kids[k]))
      && (forall k :: 0 <= k < s.Count() ==> Coupled(s, v, k))
  }

  predicate FitsKind(kind: Kind, v: Value) {
    match kind
    case Own(s) => Fits(s, v)
    case Optional(s) => v.Nothing? || (v.Just? && Fits(s, v.w))
    case Payload(_, arms) =>
      v.Case? && v.pick < |arms| && if arms[v.pick].Unit? then v.body.Nothing? else Fits(arms[v.pick].s, v.body)
  }

  lemma FitsKid(s: Schema, v: Value, k: nat)
    requires !s.Atom? && Fits(s, v) && k < s.Count()
    ensures v.Node? && |v.kids| == s.Count() && FitsKind(s.KindOf(k), v.kids[k]) && Coupled(s, v, k)
  {}

  /** A value that fits is typed. */
  lemma {:induction false} FitsTyped(s: Schema, v: Value)
    requires Fits(s, v)
    ensures Typed(s, v)
    decreases s, 1
  {
    if !s.Atom? {
      forall k | 0 <= k < s.Count() ensures TypedKind(s.KindOf(k), v.kids[k]) {
        FitsKid(s, v, k);
        FitsTypedKind(s.KindOf(k), v.kids[k]);
      }
    }
  }

  lemma {:induction false} FitsTypedKind(kind: Kind, v: Value)
    requires FitsKind(kind, v)
    ensures TypedKind(kind, v)
    decreases kind, 0
  {
    match kind
    case Own(s) => FitsTyped(s, v);
    case Optional(s) => if v.Just? { FitsTyped(s, v.w); }
    case Payload(_, arms) => if arms[v.pick].Newtype? { FitsTyped(arms[v.pick].s, v.body); }
  }

  /** If child `k` is a payload, its tag sibling names its variant. */
  predicate Coupled(s: Schema, v: Value, k: nat)
    requires k < s.Count() && v.Node? && |v.kids| == s.Count()
  {
    s.KindOf(k).Payload? ==>
      && v.kids[k].Case? && v.kids[k].pick < |s.KindOf(k).arms| && s.KindOf(k).tag < s.Count()
      && v.kids[s.KindOf(k).tag] == Leaf(Bits(s.KindOf(k).arms[v.kids[k].pick].disc))
  }

  // ----- overwriting -----

  /** `x` with its front overwritten by `y`. */
  function Over(x: seq<Byte>, y: seq<Byte>): (r: seq<Byte>)
    requires |y| <= |x|
    ensures |r| == |x| && r[..|y|] == y
  {
    y + x[|y|..]
  }

  function Encode(s: Schema, b: seq<Byte>, v: Value): (r: seq<Byte>)
    requires Wf(s) && |b| == s.Size() && Fits(s, v)
    ensures |r| == |b|
    decreases s, 1
  {
    if s.Atom? then LeafEncode(s.leaf, b, v.v)
    else Fill(s, b, seq(s.Count(), k requires 0 <= k < s.Count() => EncodeKid(s, b, v, k)), s.Count())
  }

  function EncodeKid(s: Schema, b: seq<Byte>, v: Value, k: nat): (y: seq<Byte>)
    requires Wf(s) && |b| == s.Size() && Fits(s, v) && k < s.Count()
    ensures |y| == s.Len(k)
    decreases s, 0
  {
    WfKid(s, k);
    EncodeKind(s.KindOf(k), Part(s, b, k), v.kids[k])
  }

  function EncodeKind(kind: Kind, x: seq<Byte>, v: Value): (y: seq<Byte>)
    requires WfKind(kind) && Room(kind, |x|) && FitsKind(kind, v)
    ensures |y| == |x|
  {
    match kind
    case Own(s) => Over(x, Encode(s, x[..s.Size()], v))
    case Optional(s) => if v.Nothing? then Zeros(|x|) else Over(x, Encode(s, x[..s.Size()], v.w))
    case Payload(_, arms) =>
      if arms[v.pick].Unit? then x
      else Over(x, Encode(arms[v.pick].s, x[..arms[v.pick].s.Size()], v.body))
  }

  /** What `Encode` does to each part and to the gaps. */
  lemma EncodeParts(s: Schema, b: seq<Byte>, v: Value)
    requires Wf(s) && !s.Atom? && |b| == s.Size() && Fits(s, v)
    ensures s.Framed()
    ensures forall k :: 0 <= k < s.Count() ==> Part(s, Encode(s, b, v), k) == EncodeKid(s, b, v, k)
    ensures forall i :: 0 <= i < |b| && Gap(s, i) ==> Encode(s, b, v)[i] == b[i]
  {
    FillParts(s, b, seq(s.Count(), k requires 0 <= k < s.Count() => EncodeKid(s, b, v, k)), s.Count());
  }
}
