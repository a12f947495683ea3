/** Schemas after analysis and placement: what each field is and where it lies.

    Offsets and storage sizes are data of the schema; module `Layout` computes them as the
    compiler's `repr(C)` does and proves them well formed, and everything else holds for every
    well-formed placement. */
module Schemas {
  import opened Bytes
  import opened Leaves

  /** A record, a fixed array or a leaf. `Array.cell` is `Own` of the element, `Record.align` the
      alignment of the whole record. */
  datatype Schema =
    | Atom(leaf: LeafType)
    | Array(cell: Kind, stride: nat, len: nat)
    | Record(fields: seq<Field>, align: nat, size: nat)
  {
    function Size(): nat {
      match this
      case Atom(l) => LeafSize(l)
      case Array(_, stride, len) => len * stride
      case Record(_, _, size) => size
    }

    /** Records and arrays seen alike: how many children, and each one's kind and storage. */
    function Count(): nat {
      match this case Atom(_) => 0 case Array(_, _, len) => len case Record(fields, _, _) => |fields|
    }

    function KindOf(k: nat): Kind
      requires k < Count()
    {
      if Array? then cell else fields[k].kind
    }

    function Off(k: nat): nat
      requires k < Count()
    {
      if Array? then k * stride else fields[k].off
    }

    function Len(k: nat): nat
      requires k < Count()
    {
      if Array? then stride else fields[k].len
    }

    /** The children's storages lie in the span, in order, without overlapping. */
    predicate Framed() {
      && (forall k :: 0 <= k < Count() ==> Off(k) + Len(k) <= Size())
      && (forall j, k :: 0 <= j < k < Count() ==> Off(j) + Len(j) <= Off(k))
    }
  }

  /** `len` bytes of storage at `off`; `align` is the declared `align` option, 0 when absent.
      The value starts the storage, and a declared alignment may leave local padding after it. */
  datatype Field = Field(kind: Kind, align: nat, off: nat, len: nat)

  /** An ordinary field, a zero-sentinel `Option`, or an externally tagged payload whose tag is
      the sibling field with index `tag`. */
  datatype Kind = Own(s: Schema) | Optional(s: Schema) | Payload(tag: nat, arms: seq<Arm>)

  /** A payload variant: the discriminant its tag names, and the payload if it carries one. */
  datatype Arm = Unit(disc: nat) | Newtype(disc: nat, s: Schema)

  datatype Value =
    | Leaf(v: LeafValue)
    | Node(kids: seq<Value>)
    | Nothing
    | Just(w: Value)
    | Case(pick: nat, body: Value)

  /** The storage of child `k`. */
  function Part(s: Schema, b: seq<Byte>, k: nat): (x: seq<Byte>)
    requires s.Framed() && |b| == s.Size() && k < s.Count()
    ensures |x| == s.Len(k)
  {
    b[s.Off(k)..s.Off(k) + s.Len(k)]
  }

  /** Byte `i` lies in no child: it is padding of this record. */
  predicate Gap(s: Schema, i: nat) {
    forall k :: 0 <= k < s.Count() ==> !(s.Off(k) <= i < s.Off(k) + s.Len(k))
  }

  /** `b` with the first `n` children's storages replaced. */
  function Fill(s: Schema, b: seq<Byte>, parts: seq<seq<Byte>>, n: nat): (r: seq<Byte>)
    requires s.Framed() && |b| == s.Size() && n <= |parts| == s.Count()
    requires forall k :: 0 <= k < |parts| ==> |parts[k]| == s.Len(k)
    ensures |r| == |b|
  {
    if n == 0 then b else Splice(Fill(s, b, parts, n - 1), s.Off(n - 1), parts[n - 1])
  }

  lemma {:induction false} FillParts(s: Schema, b: seq<Byte>, parts: seq<seq<Byte>>, n: nat)
    requires s.Framed() && |b| == s.Size() && n <= |parts| == s.Count()
    requires forall k :: 0 <= k < |parts| ==> |parts[k]| == s.Len(k)
    ensures var r := Fill(s, b, parts, n);
      && (forall k :: 0 <= k < s.Count() ==> Part(s, r, k) == if k < n then parts[k] else Part(s, b, k))
      && (forall i :: 0 <= i < |b| && Gap(s, i) ==> r[i] == b[i])
  {
    hide Schema.Off, Schema.Len, Schema.Count, Schema.Size, Part, Splice;
    if n != 0 {
      FillParts(s, b, parts, n - 1);
      PartSplice(s, Fill(s, b, parts, n - 1), n - 1, parts[n - 1]);
    }
  }

  /** Replacing one child's storage replaces that part and no other. */
  lemma PartSplice(s: Schema, b: seq<Byte>, k: nat, x: seq<Byte>)
    requires s.Framed() && |b| == s.Size() && k < s.Count() && |x| == s.Len(k)
    ensures var r := Splice(b, s.Off(k), x);
      && (forall j :: 0 <= j < s.Count() ==> Part(s, r, j) == if j == k then x else Part(s, b, j))
      && (forall i :: 0 <= i < |b| && Gap(s, i) ==> r[i] == b[i])
  {
    hide Schema.Off, Schema.Len, Schema.Count, Schema.Size, Splice;
    forall j | 0 <= j < s.Count() && j != k
      ensures Part(s, Splice(b, s.Off(k), x), j) == Part(s, b, j)
    {
      SpliceAside(b, s.Off(k), x, s.Off(j), s.Off(j) + s.Len(j));
    }
  }

  /** A span is its parts and its gaps. */
  lemma SameParts(s: Schema, b: seq<Byte>, c: seq<Byte>)
    requires s.Framed() && |b| == |c| == s.Size()
    requires forall k :: 0 <= k < s.Count() ==> Part(s, b, k) == Part(s, c, k)
    requires forall i :: 0 <= i < |b| && Gap(s, i) ==> b[i] == c[i]
    ensures b == c
  {
    hide Schema.Off, Schema.Len, Schema.Count, Schema.Size, Part;
    forall i | 0 <= i < |b| ensures b[i] == c[i] {
      if !Gap(s, i) {
        var k :| 0 <= k < s.Count() && s.Off(k) <= i < s.Off(k) + s.Len(k);
        PartByte(s, b, k, i);
        PartByte(s, c, k, i);
      }
    }
  }

  lemma PartByte(s: Schema, b: seq<Byte>, k: nat, i: nat)
    requires s.Framed() && |b| == s.Size() && k < s.Count() && s.Off(k) <= i < s.Off(k) + s.Len(k)
    ensures i < |b| && Part(s, b, k)[i - s.Off(k)] == b[i]
  {
    hide Schema.Off, Schema.Len, Schema.Count, Schema.Size;
  }

  // ----- well-formedness -----

  /** A path type: a record or a scalar enum. */
  predicate IsPath(s: Schema) {
    s.Record? || (s.Atom? && s.leaf.Enum?)
  }

  /** What `classify_optional_inner` admits under `Option`. */
  predicate OptionalInner(s: Schema) {
    IsPath(s) || (s.Array? && s.cell.Own? && IsPath(s.cell.s))
  }

  /** `ZeroState = ZeroValid`: the all-zero span may be a valid value. A payload counts as soon
      as one variant does, whatever the tag. */
  predicate MayBeZero(s: Schema) {
    match s
    case Atom(l) => LeafZeroValid(l)
    case Array(cell, _, _) => MayBeZeroKind(cell)
    case Record(fields, _, _) => forall i :: 0 <= i < |fields| ==> MayBeZeroKind(fields[i].kind)
  }

  predicate MayBeZeroKind(kind: Kind) {
    match kind
    case Own(s) => MayBeZero(s)
    case Optional(_) => true
    case Payload(_, arms) => exists j :: 0 <= j < |arms| && (arms[j].Unit? || MayBeZero(arms[j].s))
  }

  /** The storage `n` holds every value of the kind. */
  predicate Room(kind: Kind, n: nat) {
    match kind
    case Own(s) => s.Size() <= n
    case Optional(s) => s.Size() <= n
    case Payload(_, arms) => forall j :: 0 <= j < |arms| && arms[j].Newtype? ==> arms[j].s.Size() <= n
  }

  predicate DistinctArms(arms: seq<Arm>) {
    forall j, k :: 0 <= j < k < |arms| ==> arms[j].disc != arms[k].disc
  }

  /** What `link_external_tags` and the tag identity assertions establish for payload `i`. */
  predicate TagLinked(fields: seq<Field>, i: nat)
    requires i < |fields| && fields[i].kind.Payload?
  {
    var Payload(t, arms) := fields[i].kind;
    && t < |fields|
    && fields[t].kind.Own? && fields[t].kind.s.Atom? && fields[t].kind.s.leaf.Enum?
    && (forall j :: 0 <= j < |arms| ==> arms[j].disc in fields[t].kind.s.leaf.discs)
    && DistinctArms(arms)
    && (forall k :: 0 <= k < |fields| && k != i && fields[k].kind.Payload? ==> fields[k].kind.tag != t)
  }

  predicate Wf(s: Schema) {
    match s
    case Atom(l) => LeafWf(l)
    case Array(cell, stride, len) =>
      cell.Own? && len > 0 && WfKind(cell) && stride == cell.s.Size() && s.Framed()
    case Record(fields, _, size) =>
      && s.Framed()
      && (forall i :: 0 <= i < |fields| ==> WfKind(fields[i].kind) && Room(fields[i].kind, fields[i].len))
      && (forall i :: 0 <= i < |fields| && fields[i].kind.Payload? ==> TagLinked(fields, i))
  }

  predicate WfKind(kind: Kind) {
    match kind
    case Own(s) => Wf(s)
    case Optional(s) => Wf(s) && OptionalInner(s) && !MayBeZero(s)
    case Payload(_, arms) =>
      |arms| > 0 && forall j :: 0 <= j < |arms| && arms[j].Newtype? ==> Wf(arms[j].s) && IsPath(arms[j].s)
  }

  /** Every child of a well-formed schema is well formed and has room. */
  lemma WfKid(s: Schema, k: nat)
    requires Wf(s) && k < s.Count()
    ensures s.Framed() && WfKind(s.KindOf(k)) && Room(s.KindOf(k), s.Len(k))
    ensures s.KindOf(k).Payload? ==> s.Record? && TagLinked(s.fields, k)
  {}

  /** The payload field whose external tag is field `t`, `|fields|` when there is none. */
  function Payer(fields: seq<Field>, t: nat): (k: nat)
    ensures k <= |fields|
    ensures k < |fields| ==> fields[k].kind.Payload? && fields[k].kind.tag == t
    ensures forall i :: 0 <= i < k ==> !(fields[i].kind.Payload? && fields[i].kind.tag == t)
  {
    if fields == [] || (fields[0].kind.Payload? && fields[0].kind.tag == t) then 0
    else 1 + Payer(fields[1..], t)
  }

  /** Field `t` is an external-tag sibling: it has no patch step and no mutator of its own. */
  predicate IsTag(s: Schema, t: nat) {
    s.Record? && Payer(s.fields, t) < |s.fields|
  }

  /** The tag of payload `k` is an enum field claimed by `k` alone. */
  lemma PayerOf(s: Schema, k: nat)
    requires Wf(s) && k < s.Count() && s.KindOf(k).Payload?
    ensures s.Record? && s.KindOf(k).tag < s.Count() && IsTag(s, s.KindOf(k).tag)
    ensures Payer(s.fields, s.KindOf(k).tag) == k && !IsTag(s, k)
    ensures s.KindOf(s.KindOf(k).tag).Own? && s.KindOf(s.KindOf(k).tag).s.Atom? &&
      s.KindOf(s.KindOf(k).tag).s.leaf.Enum?
  {
    WfKid(s, k);
    var j := Payer(s.fields, k);
    if j < |s.fields| { WfKid(s, j); }
  }

  /** The index of the variant a discriminant selects, `|arms|` when none does. */
  function Pick(arms: seq<Arm>, d: nat): (j: nat)
    ensures j <= |arms|
    ensures j < |arms| ==> arms[j].disc == d
    ensures forall i :: 0 <= i < j ==> arms[i].disc != d
  {
    if arms == [] || arms[0].disc == d then 0 else 1 + Pick(arms[1..], d)
  }
}
