/** The three static answers about the all-zero span: the exact `ZERO_IS_VALID`, the
    over-approximating `ZeroState` (`Schemas.MayBeZero`) and the under-approximating
    `ClearState`. */
module ZeroStates {
  import opened Bytes
  import opened Leaves
  import opened Schemas
  import opened Codec

  /** `ZERO_IS_VALID`. A payload needs a variant with discriminant 0 that is zero-valid. */
  predicate ZeroIsValid(s: Schema) {
    match s
    case Atom(l) => LeafZeroValid(l)
    case Array(cell, _, _) => ZeroIsValidKind(cell)
    case Record(fields, _, _) => forall i :: 0 <= i < |fields| ==> ZeroIsValidKind(fields[i].kind)
  }

  predicate ZeroIsValidKind(kind: Kind) {
    match kind
    case Own(s) => ZeroIsValid(s)
    case Optional(_) => true
    case Payload(_, arms) =>
      exists j :: 0 <= j < |arms| && arms[j].disc == 0 && (arms[j].Unit? || ZeroIsValid(arms[j].s))
  }

  /** `ClearState = ZeroValid`. A payload needs a variant that claims the zero tag, and every
      variant zero-valid. */
  predicate Clearable(s: Schema) {
    match s
    case Atom(l) => LeafZeroValid(l)
    case Array(cell, _, _) => ClearableKind(cell)
    case Record(fields, _, _) => forall i :: 0 <= i < |fields| ==> ClearableKind(fields[i].kind)
  }

  predicate ClearableKind(kind: Kind) {
    match kind
    case Own(s) => Clearable(s)
    case Optional(_) => true
    case Payload(_, arms) =>
      && (exists j :: 0 <= j < |arms| && arms[j].disc == 0)
      && (forall j :: 0 <= j < |arms| ==> arms[j].Unit? || Clearable(arms[j].s))
  }

  // ----- exactness -----

  /** `ZERO_IS_VALID` holds exactly when the generated proof accepts the all-zero span. */
  lemma {:induction false} ZeroExact(s: Schema, b: seq<Byte>)
    requires Wf(s) && |b| == s.Size() && AllZero(b)
    ensures Valid(s, b) <==> ZeroIsValid(s)
    decreases s, 1
  {
    if s.Atom? {
      LeafZero(s.leaf, b);
    } else {
      forall k | 0 <= k < s.Count()
        ensures ValidKid(s, b, k) <==> ZeroIsValidKind(s.KindOf(k))
      {
        WfKid(s, k);
        if s.KindOf(k).Payload? {
          var t := s.KindOf(k).tag;
          LoadZero(s.KindOf(t).s.leaf.w.order, Part(s, b, t)[..s.KindOf(t).s.leaf.w.width]);
        }
        assert Tag(s, b, k) == 0;
        ZeroExactKind(s.KindOf(k), Part(s, b, k));
      }
      assert s.Array? ==> s.KindOf(0) == s.cell;
      assert s.Record? ==> forall k :: 0 <= k < s.Count() ==> s.fields[k].kind == s.KindOf(k);
    }
  }

  lemma {:induction false} ZeroExactKind(kind: Kind, x: seq<Byte>)
    requires WfKind(kind) && Room(kind, |x|) && AllZero(x)
    requires kind.Payload? ==> DistinctArms(kind.arms)
    ensures ValidKind(kind, 0, x) <==> ZeroIsValidKind(kind)
    decreases kind, 0
  {
    match kind
    case Own(s) => ZeroExact(s, x[..s.Size()]);
    case Optional(_) =>
    case Payload(_, arms) =>
      var j := Pick(arms, 0);
      if j < |arms| {
        if arms[j].Newtype? { ZeroExact(arms[j].s, x[..arms[j].s.Size()]); }
        assert forall i :: 0 <= i < |arms| && arms[i].disc == 0 ==> i == j;
      }
  }

  // ----- the sandwich -----

  /** A clearable schema is zero-valid, and a zero-valid one is never eligible for `Option`. */
  lemma {:induction false} Sandwich(s: Schema)
    ensures Clearable(s) ==> ZeroIsValid(s)
    ensures ZeroIsValid(s) ==> MayBeZero(s)
    decreases s, 1
  {
    match s
    case Atom(_) =>
    case Array(cell, _, _) => SandwichKind(cell);
    case Record(fields, _, _) =>
      forall i | 0 <= i < |fields|
        ensures ClearableKind(fields[i].kind) ==> ZeroIsValidKind(fields[i].kind)
        ensures ZeroIsValidKind(fields[i].kind) ==> MayBeZeroKind(fields[i].kind)
      {
        SandwichKind(fields[i].kind);
      }
  }

  lemma {:induction false} SandwichKind(kind: Kind)
    ensures ClearableKind(kind) ==> ZeroIsValidKind(kind)
    ensures ZeroIsValidKind(kind) ==> MayBeZeroKind(kind)
    decreases kind, 0
  {
    match kind
    case Own(s) => Sandwich(s);
    case Optional(_) =>
    case Payload(_, arms) =>
      forall j | 0 <= j < |arms| && arms[j].Newtype?
        ensures Clearable(arms[j].s) ==> ZeroIsValid(arms[j].s)
        ensures ZeroIsValid(arms[j].s) ==> MayBeZero(arms[j].s)
      {
        Sandwich(arms[j].s);
      }
  }

  const BYTE := Wire(1, 1, Little)
  /** A scalar enum without a zero discriminant. */
  const ONE := Atom(Enum(BYTE, [1]))

  /** A one-byte tag with discriminants 0 and 1, and a payload it selects. */
  function Sample(arms: seq<Arm>): Schema {
    Record([Field(Own(Atom(Enum(BYTE, [0, 1]))), 0, 0, 1), Field(Payload(0, arms), 0, 1, 1)], 1, 2)
  }

  lemma SampleWf(first: Arm, second: Arm)
    requires first == Unit(0) || first == Newtype(0, ONE)
    requires second == Unit(1) || second == Newtype(1, ONE)
    ensures Wf(Sample([first, second]))
  {
    var s := Sample([first, second]);
    assert Pow256(1) == 256;
    assert Wf(ONE) && Wf(s.fields[0].kind.s);
    assert s.fields[0].kind.s.leaf.discs[0] == 0 && s.fields[0].kind.s.leaf.discs[1] == 1;
    assert WfKind(s.fields[1].kind) && TagLinked(s.fields, 1);
    assert Room(s.fields[0].kind, 1) && Room(s.fields[1].kind, 1) && WfKind(s.fields[0].kind);
    assert s.Framed();
  }

  /** The sandwich is strict on both sides: exactness is a third answer, not one of the others. */
  lemma SandwichStrict()
    ensures var s := Sample([Unit(0), Newtype(1, ONE)]); Wf(s) && ZeroIsValid(s) && !Clearable(s)
    ensures var s := Sample([Newtype(0, ONE), Unit(1)]); Wf(s) && MayBeZero(s) && !ZeroIsValid(s)
  {
    SampleWf(Unit(0), Newtype(1, ONE));
    SampleWf(Newtype(0, ONE), Unit(1));
    var s, t := Sample([Unit(0), Newtype(1, ONE)]), Sample([Newtype(0, ONE), Unit(1)]);
    hide Wf;
    assert !Clearable(ONE) && !ZeroIsValid(ONE);
    assert s.fields[1].kind.arms[0] == Unit(0) && s.fields[1].kind.arms[1].s == ONE;
    assert t.fields[1].kind.arms[0].s == ONE && t.fields[1].kind.arms[1] == Unit(1);
    assert !ClearableKind(s.fields[1].kind) && !ZeroIsValidKind(t.fields[1].kind);
  }

  /** A valid value of a type eligible for `Option` is never all zero, so the zero sentinel is
      unambiguous whatever surrounds the value. */
  lemma ValidNotZero(s: Schema, b: seq<Byte>)
    requires Wf(s) && |b| == s.Size() && Valid(s, b) && !MayBeZero(s)
    ensures !AllZero(b)
  {
    if AllZero(b) {
      ZeroExact(s, b);
      Sandwich(s);
    }
  }

  /** The gated record `clear()` leaves a valid span. */
  lemma ClearKeepsValid(s: Schema)
    requires Wf(s) && Clearable(s)
    ensures Valid(s, Zeros(s.Size()))
  {
    Sandwich(s);
    ZeroExact(s, Zeros(s.Size()));
  }

  // ----- what the emitter composes -----

  /** The type-level states and their algebra. */
  datatype ZeroState = ZeroValid | ZeroInvalid {
    function Or(rhs: ZeroState): ZeroState { if ZeroValid? then rhs else ZeroInvalid }
    function And(rhs: ZeroState): ZeroState { if ZeroValid? then ZeroValid else rhs }
  }

  datatype Projection = Zero | Clear

  predicate Answer(p: Projection, s: Schema) { if p == Zero then MayBeZero(s) else Clearable(s) }
  predicate AnswerKind(p: Projection, kind: Kind) { if p == Zero then MayBeZeroKind(kind) else ClearableKind(kind) }

  /** `wire_type_state`: fields composed with `Or` from the last to the first. */
  method WireTypeState(s: Schema, p: Projection) returns (state: ZeroState)
    ensures state.ZeroValid? <==> Answer(p, s)
    decreases s, 1
  {
    match s {
      case Atom(l) => state := if LeafZeroValid(l) then ZeroValid else ZeroInvalid;
      case Array(cell, _, _) => state := FieldState(cell, p);
      case Record(fields, _, _) =>
        state := ZeroValid;
        var i := |fields|;
        while i > 0
          invariant 0 <= i <= |fields|
          invariant state.ZeroValid? <==> forall k :: i <= k < |fields| ==> AnswerKind(p, fields[k].kind)
        {
          i := i - 1;
          var term := FieldState(fields[i].kind, p);
          state := term.Or(state);
        }
    }
  }

  /** `field_state`. */
  method FieldState(kind: Kind, p: Projection) returns (state: ZeroState)
    ensures state.ZeroValid? <==> AnswerKind(p, kind)
    decreases kind, 1
  {
    match kind {
      case Own(s) => state := WireTypeState(s, p);
      case Optional(_) => state := ZeroValid;
      case Payload(_, arms) =>
        if p == Zero {
          state := PayloadZeroState(kind);
        } else {
          state := PayloadClearState(kind);
        }
    }
  }

  /** `tagged_payload_zero_state`: variants composed with `And`, starting from `ZeroInvalid`. */
  method PayloadZeroState(kind: Kind) returns (state: ZeroState)
    requires kind.Payload?
    ensures state.ZeroValid? <==> MayBeZeroKind(kind)
    decreases kind, 0
  {
    var arms := kind.arms;
    state := ZeroInvalid;
    for j := 0 to |arms|
      invariant state.ZeroValid? <==> exists i :: 0 <= i < j && (arms[i].Unit? || MayBeZero(arms[i].s))
    {
      var term := ZeroValid;
      if arms[j].Newtype? { term := WireTypeState(arms[j].s, Zero); }
      state := term.And(state);
    }
  }

  /** `tagged_payload_clear_state`: the zero-tag flag, then every variant with `Or`. */
  method PayloadClearState(kind: Kind) returns (state: ZeroState)
    requires kind.Payload?
    ensures state.ZeroValid? <==> ClearableKind(kind)
    decreases kind, 0
  {
    var arms := kind.arms;
    var claimsZero := exists j :: 0 <= j < |arms| && arms[j].disc == 0;
    state := if claimsZero then ZeroValid else ZeroInvalid;
    for j := 0 to |arms|
      invariant state.ZeroValid? <==>
        claimsZero && forall i :: 0 <= i < j ==> arms[i].Unit? || Clearable(arms[i].s)
    {
      var term := ZeroValid;
      if arms[j].Newtype? { term := WireTypeState(arms[j].s, Clear); }
      state := term.Or(state);
    }
  }
}
