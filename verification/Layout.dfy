/** `repr(C)` placement (Rust Reference, "The C Representation") of a declaration. */
module Layout {
  import opened Bytes
  import opened Leaves
  import opened Schemas
  import opened Alignments

  // ----- declarations -----

  predicate WireAligned(w: Wire) { Pow2(w.align) && Multiple(w.width, w.align) }

  predicate UnitsAligned(u: Units) { u.Wide? ==> Pow2(u.align) && Multiple(2, u.align) }

  predicate LeafAligned(l: LeafType) {
    match l
    case Scalar(w) => WireAligned(w)
    case Enum(w, _) => WireAligned(w)
    case Text(prefix, units, _) => WireAligned(prefix) && UnitsAligned(units)
    case CText(units, _) => UnitsAligned(units)
    case _ => true
  }

  /** What analysis and the compiler's type layouts guarantee before anything is placed. Offsets,
      sizes and strides of a declaration mean nothing; `Record.align` is the declared option. */
  predicate Declared(s: Schema) {
    match s
    case Atom(l) => LeafWf(l) && LeafAligned(l)
    case Array(cell, _, len) => cell.Own? && len > 0 && Declared(cell.s)
    case Record(fields, align, _) =>
      && |fields| > 0 && (align == 0 || Pow2(align))
      && (forall i :: 0 <= i < |fields| ==>
            DeclaredKind(fields[i].kind) && (fields[i].align == 0 || Pow2(fields[i].align)))
      && (forall i :: 0 <= i < |fields| && fields[i].kind.Payload? ==> TagLinked(fields, i))
  }

  predicate DeclaredKind(kind: Kind) {
    match kind
    case Own(s) => Declared(s)
    case Optional(s) => Declared(s) && OptionalInner(s) && !MayBeZero(s)
    case Payload(_, arms) =>
      |arms| > 0 && forall j :: 0 <= j < |arms| && arms[j].Newtype? ==> Declared(arms[j].s) && IsPath(arms[j].s)
  }

  // ----- alignments and sizes of placed schemas -----

  function AlignOf(s: Schema): nat {
    match s
    case Atom(l) => LeafAlign(l)
    case Array(cell, _, _) => if cell.Own? then AlignOf(cell.s) else 1
    case Record(_, align, _) => align
  }

  /** A union takes the largest alignment of its members; a unit variant is one byte. */
  function ArmsAlign(arms: seq<Arm>): (a: nat) {
    if arms == [] then 1
    else
      var rest, arm := ArmsAlign(arms[..|arms| - 1]), arms[|arms| - 1];
      if arm.Unit? then rest else Max(rest, AlignOf(arm.s))
  }

  function ArmsSize(arms: seq<Arm>): (n: nat) {
    if arms == [] then 1
    else
      var rest, arm := ArmsSize(arms[..|arms| - 1]), arms[|arms| - 1];
      if arm.Unit? then rest else Max(rest, arm.s.Size())
  }

  function AlignOfKind(kind: Kind): nat {
    if kind.Payload? then ArmsAlign(kind.arms) else AlignOf(kind.s)
  }

  /** Size of the value wire, before any declared field alignment. */
  function SizeOfKind(kind: Kind): nat {
    if kind.Payload? then AlignUp(ArmsSize(kind.arms), ArmsAlign(kind.arms)) else kind.s.Size()
  }

  /** Alignment of the field storage: `AlignedWire` raises it to the declared option. */
  function FieldAlign(f: Field): nat { Max(AlignOfKind(f.kind), f.align) }

  function FieldsAlign(fields: seq<Field>): nat {
    if fields == [] then 1 else Max(FieldsAlign(fields[..|fields| - 1]), FieldAlign(fields[|fields| - 1]))
  }

  function EndOf(fields: seq<Field>): nat {
    if fields == [] then 0 else fields[|fields| - 1].off + fields[|fields| - 1].len
  }

  // ----- placement -----

  function Place(s: Schema): (r: Schema)
    decreases s, 2
  {
    match s
    case Atom(_) => s
    case Array(cell, _, len) => Array(PlaceKind(cell), SizeOfKind(PlaceKind(cell)), len)
    case Record(fields, align, _) =>
      var placed := PlaceFields(s, |fields|);
      var a := FieldsAlign(placed);
      Record(placed, Max(a, align), AlignUp(AlignUp(EndOf(placed), a), Max(a, align)))
  }

  /** The first `n` fields, each at the next multiple of its alignment. */
  function PlaceFields(s: Schema, n: nat): (fields: seq<Field>)
    requires s.Record? && n <= |s.fields|
    ensures |fields| == n
    decreases s, 1, n
  {
    if n == 0 then []
    else
      var before, f := PlaceFields(s, n - 1), s.fields[n - 1];
      before + [PlaceField(PlaceKind(f.kind), f.align, EndOf(before))]
  }

  function PlaceField(kind: Kind, align: nat, end: nat): (f: Field) {
    var a := Max(AlignOfKind(kind), align);
    Field(kind, align, AlignUp(end, a), if align == 0 then SizeOfKind(kind) else AlignUp(SizeOfKind(kind), a))
  }

  function PlaceKind(kind: Kind): (r: Kind)
    decreases kind, 0
  {
    match kind
    case Own(s) => Own(Place(s))
    case Optional(s) => Optional(Place(s))
    case Payload(tag, arms) =>
      Payload(tag, seq(|arms|, j requires 0 <= j < |arms| =>
        if arms[j].Unit? then arms[j] else Newtype(arms[j].disc, Place(arms[j].s))))
  }

  /** The placed field `i` depends on the fields before it only. */
  lemma {:induction false} PlacedAt(s: Schema, n: nat, i: nat)
    requires s.Record? && i < n <= |s.fields|
    ensures PlaceFields(s, n)[..i] == PlaceFields(s, i)
    ensures PlaceFields(s, n)[i] == PlaceField(PlaceKind(s.fields[i].kind), s.fields[i].align, EndOf(PlaceFields(s, i)))
    decreases n
  {
    if i + 1 < n { PlacedAt(s, n - 1, i); }
  }

  // ----- alignment of a placed schema -----

  predicate Aligned(s: Schema) {
    && Pow2(AlignOf(s)) && Multiple(s.Size(), AlignOf(s))
    && match s
       case Atom(l) => LeafAligned(l)
       case Array(cell, stride, _) => cell.Own? && Aligned(cell.s) && stride == cell.s.Size()
       case Record(fields, _, _) => forall i :: 0 <= i < |fields| ==> AlignedField(fields[i], AlignOf(s))
  }

  /** A field of a record aligned to `a`. */
  predicate AlignedField(f: Field, a: nat) {
    && AlignedKind(f.kind) && Pow2(AlignOfKind(f.kind)) && Multiple(SizeOfKind(f.kind), AlignOfKind(f.kind))
    && Pow2(FieldAlign(f)) && FieldAlign(f) <= a
    && Multiple(f.off, FieldAlign(f)) && Multiple(f.len, FieldAlign(f))
    && SizeOfKind(f.kind) <= f.len && (f.align == 0 ==> f.len == SizeOfKind(f.kind))
  }

  predicate AlignedKind(kind: Kind) {
    match kind
    case Own(s) => Aligned(s)
    case Optional(s) => Aligned(s)
    case Payload(_, arms) => forall j :: 0 <= j < |arms| && arms[j].Newtype? ==> Aligned(arms[j].s)
  }

  lemma {:induction false} ArmsBound(arms: seq<Arm>)
    requires forall j :: 0 <= j < |arms| && arms[j].Newtype? ==> Pow2(AlignOf(arms[j].s))
    ensures Pow2(ArmsAlign(arms)) && ArmsSize(arms) > 0
    ensures forall j :: 0 <= j < |arms| && arms[j].Newtype? ==>
      AlignOf(arms[j].s) <= ArmsAlign(arms) && arms[j].s.Size() <= ArmsSize(arms)
  {
    if arms != [] { ArmsBound(arms[..|arms| - 1]); }
  }

  lemma Pow2Max(a: nat, b: nat)
    requires (Pow2(a) || a == 0) && Pow2(b)
    ensures Pow2(Max(a, b)) && Pow2(Max(b, a)) && Max(b, a) == Max(a, b) > 0
  {}

  lemma LeafLayout(l: LeafType)
    requires LeafWf(l) && LeafAligned(l)
    ensures Pow2(LeafAlign(l)) && Multiple(LeafSize(l), LeafAlign(l))
  {
    hide AlignUp;
    match l
    case Scalar(_) =>
    case Enum(_, _) =>
    case Flag => MultipleOne(1);
    case Blob(n) => MultipleOne(n);
    case Text(prefix, units, cap) =>
      Pow2Max(prefix.align, units.Align());
      AlignUpMultiple(DataOff(prefix, units) + units.Span(cap), LeafAlign(l));
    case CText(units, cap) =>
      if units.Narrow? { MultipleOne(cap); } else { MultipleTimes(cap, 2, units.align); }
  }

  lemma ArmsLayout(kind: Kind)
    requires kind.Payload? && AlignedKind(kind)
    ensures Pow2(ArmsAlign(kind.arms)) && ArmsSize(kind.arms) > 0
    ensures forall j :: 0 <= j < |kind.arms| && kind.arms[j].Newtype? ==>
      var c := kind.arms[j].s; Pow2(AlignOf(c)) && AlignOf(c) <= ArmsAlign(kind.arms) && c.Size() <= ArmsSize(kind.arms)
  {
    ArmsBound(kind.arms);
  }

  /** The value wire of a kind has its alignment. */
  lemma KindLayout(kind: Kind)
    requires AlignedKind(kind)
    ensures Pow2(AlignOfKind(kind)) && Multiple(SizeOfKind(kind), AlignOfKind(kind))
  {
    hide AlignUp;
    if kind.Payload? {
      ArmsBound(kind.arms);
      AlignUpMultiple(ArmsSize(kind.arms), ArmsAlign(kind.arms));
    }
  }

  lemma PlaceFieldAligned(kind: Kind, align: nat, end: nat, a: nat)
    requires AlignedKind(kind) && (align == 0 || Pow2(align))
    requires FieldAlign(PlaceField(kind, align, end)) <= a
    ensures AlignedField(PlaceField(kind, align, end), a) && end <= PlaceField(kind, align, end).off
  {
    hide AlignUp, AlignedKind;
    KindLayout(kind);
    Pow2Max(align, AlignOfKind(kind));
    var b := Max(AlignOfKind(kind), align);
    AlignUpMultiple(end, b);
    AlignUpMultiple(SizeOfKind(kind), b);
  }

  lemma {:induction false} FieldsAlignBound(fields: seq<Field>)
    requires forall i :: 0 <= i < |fields| ==> Pow2(FieldAlign(fields[i]))
    ensures Pow2(FieldsAlign(fields))
    ensures forall i :: 0 <= i < |fields| ==> FieldAlign(fields[i]) <= FieldsAlign(fields)
  {
    if fields != [] {
      FieldsAlignBound(fields[..|fields| - 1]);
      Pow2Max(FieldsAlign(fields[..|fields| - 1]), FieldAlign(fields[|fields| - 1]));
    }
  }

  /** Every field and every nested value of a placed declaration lies at a multiple of its
      alignment, and every size is a multiple of it. */
  lemma {:induction false} PlaceAligned(s: Schema)
    requires Declared(s)
    ensures Aligned(Place(s))
    decreases s, 1
  {
    match s
    case Atom(l) => LeafLayout(l);
    case Array(cell, _, len) =>
      PlaceAligned(cell.s);
      MultipleTimes(len, Place(cell.s).Size(), AlignOf(Place(cell.s)));
    case Record(fields, align, _) => PlaceRecordAligned(s);
  }

  lemma {:induction false} PlaceRecordAligned(s: Schema)
    requires s.Record? && Declared(s)
    ensures Aligned(Place(s))
    decreases s, 0
  {
    hide AlignUp, AlignedField, AlignedKind, PlaceKind, PlaceField, PlaceFields;
    var placed := PlaceFields(s, |s.fields|);
    forall i | 0 <= i < |placed|
      ensures AlignedField(placed[i], FieldAlign(placed[i])) && Pow2(FieldAlign(placed[i]))
    {
      PlacedAt(s, |s.fields|, i);
      PlaceKindAligned(s.fields[i].kind);
      PlaceFieldAligned(PlaceKind(s.fields[i].kind), s.fields[i].align, EndOf(PlaceFields(s, i)),
        FieldAlign(placed[i]));
      FieldPow2(placed[i], FieldAlign(placed[i]));
    }
    FieldsAlignBound(placed);
    var a := FieldsAlign(placed);
    Pow2Max(s.align, a);
    AlignUpMultiple(AlignUp(EndOf(placed), a), Max(a, s.align));
    forall i | 0 <= i < |placed| ensures AlignedField(placed[i], Max(a, s.align)) {
      Widen(placed[i], FieldAlign(placed[i]), Max(a, s.align));
    }
  }

  lemma FieldPow2(f: Field, a: nat)
    requires AlignedField(f, a)
    ensures Pow2(FieldAlign(f)) && FieldAlign(f) <= a
  {}

  lemma Widen(f: Field, a: nat, b: nat)
    requires AlignedField(f, a) && a <= b
    ensures AlignedField(f, b)
  {}

  lemma {:induction false} PlaceKindAligned(kind: Kind)
    requires DeclaredKind(kind)
    ensures AlignedKind(PlaceKind(kind))
    decreases kind, 0
  {
    match kind
    case Own(s) => PlaceAligned(s);
    case Optional(s) => PlaceAligned(s);
    case Payload(_, arms) =>
      forall j | 0 <= j < |arms| && arms[j].Newtype? ensures Aligned(Place(arms[j].s)) {
        PlaceAligned(arms[j].s);
      }
  }

  /** The first field starts the record, every other lies at the first multiple of its alignment after the field
      before it, and the record ends at the first multiple of its own after the last. */
  lemma PlacedLeast(s: Schema, i: nat, o: nat)
    requires s.Record? && Declared(s) && i < |s.fields|
    ensures var fs := Place(s).fields;
      if i == 0 then fs[i].off == 0
      else fs[i - 1].off + fs[i - 1].len <= o && Multiple(o, FieldAlign(fs[i])) ==> fs[i].off <= o
    ensures var f := Place(s).fields[|s.fields| - 1];
      f.off + f.len <= o && Multiple(o, Place(s).align) ==> Place(s).size <= o
  {
    hide AlignUp, Place, PlaceFields, FieldAlign, Declared, Aligned;
    PlaceAligned(s);
    PlacedOff(s, i);
    var fs := Place(s).fields;
    if i == 0 {
      AlignUpMultiple(0, FieldAlign(fs[i]));
    } else if fs[i - 1].off + fs[i - 1].len <= o && Multiple(o, FieldAlign(fs[i])) {
      AlignUpLeast(fs[i - 1].off + fs[i - 1].len, FieldAlign(fs[i]), o);
    }
    if EndOf(fs) <= o && Multiple(o, Place(s).align) { EndLeast(s, o); }
  }

  lemma PlacedOff(s: Schema, i: nat)
    requires s.Record? && i < |s.fields| && Aligned(Place(s))
    ensures Place(s).Record? && |Place(s).fields| == |s.fields|
    ensures var fs := Place(s).fields;
      && FieldAlign(fs[i]) > 0
      && fs[i].off == AlignUp(if i == 0 then 0 else fs[i - 1].off + fs[i - 1].len, FieldAlign(fs[i]))
  {
    hide AlignUp, PlaceKind, PlaceFields;
    PlacedAt(s, |s.fields|, i);
    var fs := Place(s).fields;
    assert AlignedField(fs[i], Place(s).align);
    if i == 0 { NoneBefore(s); } else { assert fs[i - 1] == fs[..i][i - 1]; }
  }

  lemma EndLeast(s: Schema, o: nat)
    requires s.Record? && Aligned(Place(s)) && EndOf(Place(s).fields) <= o && Multiple(o, Place(s).align)
    ensures Place(s).size <= o
  {
    hide AlignUp, PlaceFields, FieldsAlign, AlignedField, FieldAlign;
    var r := Place(s);
    forall k | 0 <= k < |r.fields| ensures Pow2(FieldAlign(r.fields[k])) { FieldPow2(r.fields[k], r.align); }
    FieldsAlignBound(r.fields);
    RecordLeast(EndOf(r.fields), FieldsAlign(r.fields), r.align, o);
  }

  lemma NoneBefore(s: Schema)
    requires s.Record?
    ensures EndOf(PlaceFields(s, 0)) == 0
  {}

  lemma RecordLeast(end: nat, a: nat, b: nat, o: nat)
    requires 0 < a <= b && end <= o && Multiple(o, b)
    requires Pow2(a) && Pow2(b)
    ensures AlignUp(AlignUp(end, a), b) <= o
  {
    Pow2Divides(a, b);
    MultipleTrans(o, b, a);
    AlignUpLeast(end, a, o);
    AlignUpLeast(AlignUp(end, a), b, o);
  }

  // ----- well-formedness of a placed schema -----

  /** Placement changes no answer about the all-zero span. */
  lemma {:induction false} PlaceMayBeZero(s: Schema)
    ensures MayBeZero(Place(s)) <==> MayBeZero(s)
    decreases s, 1
  {
    match s
    case Atom(_) =>
    case Array(cell, _, _) => PlaceMayBeZeroKind(cell);
    case Record(fields, _, _) =>
      forall i | 0 <= i < |fields|
        ensures MayBeZeroKind(Place(s).fields[i].kind) <==> MayBeZeroKind(fields[i].kind)
      {
        PlacedAt(s, |fields|, i);
        PlaceMayBeZeroKind(fields[i].kind);
      }
  }

  lemma {:induction false} PlaceMayBeZeroKind(kind: Kind)
    ensures MayBeZeroKind(PlaceKind(kind)) <==> MayBeZeroKind(kind)
    decreases kind, 0
  {
    match kind
    case Own(s) => PlaceMayBeZero(s);
    case Optional(_) =>
    case Payload(_, arms) =>
      var placed := PlaceKind(kind).arms;
      forall j | 0 <= j < |arms|
        ensures (placed[j].Unit? || MayBeZero(placed[j].s)) <==> (arms[j].Unit? || MayBeZero(arms[j].s))
      {
        if arms[j].Newtype? { PlaceMayBeZero(arms[j].s); }
      }
  }

  lemma PlaceShape(s: Schema)
    ensures IsPath(s) ==> IsPath(Place(s))
    ensures OptionalInner(s) ==> OptionalInner(Place(s))
  {
    if s.Array? && s.cell.Own? && IsPath(s.cell.s) {
      PlaceShape(s.cell.s);
      assert Place(s).cell == Own(Place(s.cell.s));
    }
  }

  /** Fields follow one another, each after the end of the one before. */
  lemma {:induction false} PlacedOrder(s: Schema, n: nat, j: nat, k: nat)
    requires s.Record? && j < k < n <= |s.fields|
    ensures var fs := PlaceFields(s, n); fs[j].off + fs[j].len <= fs[k].off
    decreases k
  {
    hide AlignUp, PlaceKind;
    var fs := PlaceFields(s, n);
    PlacedAt(s, n, k);
    assert fs[k - 1] == fs[..k][k - 1] && EndOf(fs[..k]) == fs[k - 1].off + fs[k - 1].len;
    if j + 1 < k { PlacedOrder(s, n, j, k - 1); }
  }

  lemma PlacedEnd(s: Schema, k: nat)
    requires s.Record? && k < |s.fields|
    ensures var fs := PlaceFields(s, |s.fields|); fs[k].off + fs[k].len <= EndOf(fs)
  {
    hide PlaceFields;
    if k + 1 < |s.fields| { PlacedOrder(s, |s.fields|, k, |s.fields| - 1); }
  }

  lemma RecordFramed(s: Schema)
    requires s.Record?
    ensures Place(s).Framed()
  {
    hide AlignUp, PlaceFields;
    forall k | 0 <= k < |s.fields| ensures Place(s).Off(k) + Place(s).Len(k) <= Place(s).Size() { PlacedEnd(s, k); }
    forall j, k | 0 <= j < k < |s.fields| ensures Place(s).Off(j) + Place(s).Len(j) <= Place(s).Off(k) {
      PlacedOrder(s, |s.fields|, j, k);
    }
  }

  lemma ArrayFramed(s: Schema)
    requires s.Array?
    ensures s.Framed()
  {
    forall j, k | 0 <= j < k <= s.len ensures j * s.stride + s.stride <= k * s.stride { RowsApart(j, k, s.stride); }
  }

  lemma RowsApart(j: nat, k: nat, n: nat)
    requires j < k
    ensures j * n + n <= k * n
  {
    assert (k - j - 1) * n >= 0;
    assert (k - j - 1) * n + j * n + n == k * n;
  }

  lemma PlacedTag(s: Schema, i: nat)
    requires s.Record? && i < |s.fields| && s.fields[i].kind.Payload? && TagLinked(s.fields, i)
    ensures Place(s).fields[i].kind.Payload? && TagLinked(Place(s).fields, i)
  {
    hide PlaceFields;
    var fields, placed := s.fields, Place(s).fields;
    forall k | 0 <= k < |fields| ensures placed[k].kind == PlaceKind(fields[k].kind) { PlacedAt(s, |fields|, k); }
    var t, arms := fields[i].kind.tag, fields[i].kind.arms;
    assert placed[t].kind == Own(Place(fields[t].kind.s)) && Place(fields[t].kind.s) == fields[t].kind.s;
    assert placed[i].kind.tag == t && |placed[i].kind.arms| == |arms|;
    assert forall j :: 0 <= j < |arms| ==> placed[i].kind.arms[j].disc == arms[j].disc;
  }

  lemma KindRoom(kind: Kind, n: nat)
    requires AlignedKind(kind) && SizeOfKind(kind) <= n
    ensures Room(kind, n)
  {
    hide AlignUp;
    if kind.Payload? { ArmsBound(kind.arms); }
  }

  /** Placement makes every declaration well formed: what the other modules assume of offsets,
      sizes and room is what `repr(C)` gives. */
  lemma {:induction false} PlaceWf(s: Schema)
    requires Declared(s)
    ensures Wf(Place(s))
    decreases s, 1
  {
    match s
    case Atom(_) =>
    case Array(cell, _, _) =>
      PlaceWf(cell.s);
      ArrayFramed(Place(s));
    case Record(fields, _, _) =>
      RecordFramed(s);
      forall i | 0 <= i < |fields| ensures PlacedFieldWf(Place(s), i) { PlaceFieldWf(s, i); }
      assert Wf(Place(s)) by { PlacedRecordWf(Place(s)); }
  }

  /** What well-formedness asks of field `i`. */
  predicate PlacedFieldWf(r: Schema, i: nat)
    requires r.Record? && i < |r.fields|
  {
    && WfKind(r.fields[i].kind) && Room(r.fields[i].kind, r.fields[i].len)
    && (r.fields[i].kind.Payload? ==> TagLinked(r.fields, i))
  }

  lemma PlacedRecordWf(r: Schema)
    requires r.Record? && r.Framed() && forall i :: 0 <= i < |r.fields| ==> PlacedFieldWf(r, i)
    ensures Wf(r)
  {
    forall i | 0 <= i < |r.fields|
      ensures WfKind(r.fields[i].kind) && Room(r.fields[i].kind, r.fields[i].len)
      ensures r.fields[i].kind.Payload? ==> TagLinked(r.fields, i)
    {
      assert PlacedFieldWf(r, i);
    }
  }

  lemma {:induction false} PlaceFieldWf(s: Schema, i: nat)
    requires s.Record? && Declared(s) && i < |s.fields|
    ensures PlacedFieldWf(Place(s), i)
    decreases s, 0
  {
    hide Wf, WfKind, TagLinked, PlaceFields, AlignUp, SizeOfKind;
    assert DeclaredKind(s.fields[i].kind);
    PlaceAligned(s);
    PlacedAt(s, |s.fields|, i);
    PlaceKindWf(s.fields[i].kind);
    PlaceKindAligned(s.fields[i].kind);
    assert AlignedField(Place(s).fields[i], AlignOf(Place(s)));
    KindRoom(Place(s).fields[i].kind, Place(s).fields[i].len);
    if s.fields[i].kind.Payload? { PlacedTag(s, i); }
  }

  lemma {:induction false} PlaceKindWf(kind: Kind)
    requires DeclaredKind(kind)
    ensures WfKind(PlaceKind(kind))
    decreases kind, 0
  {
    match kind
    case Own(s) => PlaceWf(s);
    case Optional(s) =>
      PlaceWf(s);
      PlaceMayBeZero(s);
      PlaceShape(s);
    case Payload(_, arms) =>
      forall j | 0 <= j < |arms| && arms[j].Newtype? ensures Wf(Place(arms[j].s)) && IsPath(Place(arms[j].s)) {
        PlaceWf(arms[j].s);
        PlaceShape(arms[j].s);
      }
  }

  // ----- nothing is empty -----

  lemma {:induction false} PlacePositive(s: Schema)
    requires Declared(s)
    ensures Place(s).Size() > 0
    decreases s, 1
  {
    match s
    case Atom(_) =>
    case Array(cell, _, len) =>
      PlacePositive(cell.s);
      assert Place(s).stride == Place(cell.s).Size();
      Positive(len, Place(cell.s).Size());
    case Record(fields, _, _) =>
      PlaceKindPositive(fields[0].kind);
      PlaceAligned(s);
      PlacedAt(s, |fields|, 0);
      PlacedEnd(s, 0);
      assert AlignedField(Place(s).fields[0], AlignOf(Place(s)));
  }

  lemma Positive(a: nat, b: nat)
    requires a > 0 && b > 0
    ensures a * b > 0
  {}

  lemma {:induction false} PlaceKindPositive(kind: Kind)
    requires DeclaredKind(kind)
    ensures SizeOfKind(PlaceKind(kind)) > 0
    decreases kind, 0
  {
    match kind
    case Own(s) => PlacePositive(s);
    case Optional(s) => PlacePositive(s);
    case Payload(_, _) =>
      PlaceKindAligned(kind);
      ArmsLayout(PlaceKind(kind));
  }
}
