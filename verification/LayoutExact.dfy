/** Placement from outside: every alignment is one the declaration asks for and no smaller than any other,
    and every storage and every union is as short as its alignment allows. */
module LayoutExact {
  import opened Leaves
  import opened Schemas
  import opened Alignments
  import opened Layout

  // ----- the alignments a declaration asks for -----

  predicate LeafAsks(l: LeafType, a: nat) {
    match l
    case Scalar(w) => a == w.align
    case Enum(w, _) => a == w.align
    case Text(prefix, units, _) => a == prefix.align || (units.Wide? && a == units.align)
    case CText(units, _) => units.Wide? && a == units.align
    case _ => false
  }

  /** Somewhere in the declaration a wire has the alignment `a`, or a field or a record declares it. */
  predicate Asks(s: Schema, a: nat) {
    match s
    case Atom(l) => LeafAsks(l, a)
    case Array(cell, _, _) => AsksKind(cell, a)
    case Record(fields, align, _) =>
      a == align || exists i :: 0 <= i < |fields| && (a == fields[i].align || AsksKind(fields[i].kind, a))
  }

  predicate AsksKind(kind: Kind, a: nat) {
    match kind
    case Own(s) => Asks(s, a)
    case Optional(s) => Asks(s, a)
    case Payload(_, arms) => exists j :: 0 <= j < |arms| && arms[j].Newtype? && Asks(arms[j].s, a)
  }

  /** The alignment of a placed declaration is the largest it asks for anywhere, and 1 when it asks for none:
      a larger one would waste room, a smaller one would misalign something. */
  lemma {:induction false} AlignmentExactly(s: Schema, b: nat)
    requires Declared(s)
    ensures AlignOf(Place(s)) == 1 || Asks(s, AlignOf(Place(s)))
    ensures AlignOf(Place(s)) >= 1 && (Asks(s, b) ==> b <= AlignOf(Place(s)))
    decreases s, 2
  {
    match s
    case Atom(l) =>
    case Array(cell, _, _) =>
      AlignmentExactly(cell.s, b);
      assert AsksKind(cell, b) <==> Asks(cell.s, b);
    case Record(_, _, _) => RecordAlignmentExactly(s, b);
  }

  lemma {:induction false} RecordAlignmentExactly(s: Schema, b: nat)
    requires Declared(s) && s.Record?
    ensures AlignOf(Place(s)) == 1 || Asks(s, AlignOf(Place(s)))
    ensures AlignOf(Place(s)) >= 1 && (Asks(s, b) ==> b <= AlignOf(Place(s)))
    decreases s, 1
  {
    hide Place, PlaceKind, AlignOfKind, AsksKind, DeclaredKind;
    var r := Place(s);
    assert r.Record? && |r.fields| == |s.fields| by { RecordShape(s); }
    forall i | 0 <= i < |s.fields|
      ensures var a := AlignOfKind(r.fields[i].kind);
        r.fields[i].align == s.fields[i].align && (a == 1 || AsksKind(s.fields[i].kind, a)) && a >= 1 &&
        (AsksKind(s.fields[i].kind, b) ==> b <= a)
    {
      PlacedKind(s, i);
      KindAlignmentExactly(s.fields[i].kind, b);
    }
    RecordAlignment(s);
  }

  lemma RecordShape(s: Schema)
    requires s.Record?
    ensures Place(s).Record? && |Place(s).fields| == |s.fields|
  {}

  lemma PlacedKind(s: Schema, i: nat)
    requires s.Record? && i < |s.fields|
    ensures Place(s).Record? && |Place(s).fields| == |s.fields| && Place(s).fields[i].align == s.fields[i].align
    ensures Place(s).fields[i].kind == PlaceKind(s.fields[i].kind)
  {
    PlacedAt(s, |s.fields|, i);
  }

  lemma {:induction false} KindAlignmentExactly(kind: Kind, b: nat)
    requires DeclaredKind(kind)
    ensures var a := AlignOfKind(PlaceKind(kind));
      (a == 1 || AsksKind(kind, a)) && a >= 1 && (AsksKind(kind, b) ==> b <= a)
    decreases kind, 0
  {
    match kind
    case Own(s) => AlignmentExactly(s, b);
    case Optional(s) => AlignmentExactly(s, b);
    case Payload(_, arms) =>
      var placed := PlaceKind(kind).arms;
      UnionAlignment(placed);
      forall j | 0 <= j < |arms| && arms[j].Newtype?
        ensures placed[j].Newtype? && placed[j].s == Place(arms[j].s)
        ensures var a := AlignOf(Place(arms[j].s)); (a == 1 || Asks(arms[j].s, a)) && (Asks(arms[j].s, b) ==> b <= a)
      {
        AlignmentExactly(arms[j].s, b);
      }
  }

  // ----- one record, one union -----

  lemma {:induction false} FieldsAlignment(fields: seq<Field>)
    ensures FieldsAlign(fields) >= 1
    ensures forall i :: 0 <= i < |fields| ==> FieldAlign(fields[i]) <= FieldsAlign(fields)
    ensures FieldsAlign(fields) == 1 || exists i :: 0 <= i < |fields| && FieldAlign(fields[i]) == FieldsAlign(fields)
  {
    if fields != [] {
      var front := fields[..|fields| - 1];
      FieldsAlignment(front);
      if FieldsAlign(front) != 1 {
        var i :| 0 <= i < |front| && FieldAlign(front[i]) == FieldsAlign(front);
        assert FieldAlign(fields[i]) == FieldsAlign(front);
      }
      assert FieldAlign(fields[|fields| - 1]) <= FieldsAlign(fields);
    }
  }

  /** A record has the largest alignment among its declared one, those of its field storages, and 1. */
  lemma RecordAlignment(s: Schema)
    requires s.Record?
    ensures var r := Place(s);
      && 1 <= r.align && s.align <= r.align && (forall i :: 0 <= i < |r.fields| ==> FieldAlign(r.fields[i]) <= r.align)
      && (r.align == 1 || r.align == s.align || exists i :: 0 <= i < |r.fields| && FieldAlign(r.fields[i]) == r.align)
  {
    hide AlignUp, PlaceFields, FieldsAlign, FieldAlign;
    FieldsAlignment(PlaceFields(s, |s.fields|));
  }

  /** A union has the largest alignment among its variants and 1. */
  lemma {:induction false} UnionAlignment(arms: seq<Arm>)
    ensures 1 <= ArmsAlign(arms)
    ensures forall j :: 0 <= j < |arms| && arms[j].Newtype? ==> AlignOf(arms[j].s) <= ArmsAlign(arms)
    ensures ArmsAlign(arms) == 1 ||
      exists j :: 0 <= j < |arms| && arms[j].Newtype? && AlignOf(arms[j].s) == ArmsAlign(arms)
  {
    if arms != [] {
      var front := arms[..|arms| - 1];
      UnionAlignment(front);
      if ArmsAlign(front) != 1 {
        var j :| 0 <= j < |front| && front[j].Newtype? && AlignOf(front[j].s) == ArmsAlign(front);
        assert arms[j].Newtype? && AlignOf(arms[j].s) == ArmsAlign(front);
      }
    }
  }

  lemma {:induction false} UnionContents(arms: seq<Arm>)
    ensures 1 <= ArmsSize(arms)
    ensures forall j :: 0 <= j < |arms| && arms[j].Newtype? ==> arms[j].s.Size() <= ArmsSize(arms)
    ensures ArmsSize(arms) == 1 ||
      exists j :: 0 <= j < |arms| && arms[j].Newtype? && arms[j].s.Size() == ArmsSize(arms)
  {
    if arms != [] {
      var front := arms[..|arms| - 1];
      UnionContents(front);
      if ArmsSize(front) != 1 {
        var j :| 0 <= j < |front| && front[j].Newtype? && front[j].s.Size() == ArmsSize(front);
        assert arms[j].Newtype? && arms[j].s.Size() == ArmsSize(front);
      }
    }
  }

  /** A union ends at the first multiple of its alignment that leaves room for one byte and for every
      variant. */
  lemma UnionSize(kind: Kind, o: nat)
    requires kind.Payload?
    ensures var n := SizeOfKind(kind);
      && Multiple(n, AlignOfKind(kind)) && 1 <= n
      && (forall j :: 0 <= j < |kind.arms| && kind.arms[j].Newtype? ==> kind.arms[j].s.Size() <= n)
    ensures (&& Multiple(o, AlignOfKind(kind)) && 1 <= o
             && forall j :: 0 <= j < |kind.arms| && kind.arms[j].Newtype? ==> kind.arms[j].s.Size() <= o)
      ==> SizeOfKind(kind) <= o
  {
    hide AlignUp;
    UnionAlignment(kind.arms);
    UnionContents(kind.arms);
    AlignUpMultiple(ArmsSize(kind.arms), ArmsAlign(kind.arms));
    if Multiple(o, ArmsAlign(kind.arms)) && ArmsSize(kind.arms) <= o {
      AlignUpLeast(ArmsSize(kind.arms), ArmsAlign(kind.arms), o);
    }
  }

  /** A field storage is the value wire, padded to the first multiple of the storage's alignment. */
  lemma StorageLeast(s: Schema, i: nat, o: nat)
    requires s.Record? && Declared(s) && i < |s.fields|
    ensures var f := Place(s).fields[i];
      && SizeOfKind(f.kind) <= f.len && Multiple(f.len, FieldAlign(f))
      && (SizeOfKind(f.kind) <= o && Multiple(o, FieldAlign(f)) ==> f.len <= o)
  {
    hide AlignUp, PlaceKind, PlaceFields;
    PlaceAligned(s);
    PlacedAt(s, |s.fields|, i);
    var f := Place(s).fields[i];
    assert AlignedField(f, Place(s).align);
    if SizeOfKind(f.kind) <= o && Multiple(o, FieldAlign(f)) { AlignUpLeast(SizeOfKind(f.kind), FieldAlign(f), o); }
  }
}
