/** The two static approximations told through the exact answer. A choice of variants turns a declaration
    into one without payloads, where the three answers agree; `ZeroState` asks whether some choice is
    zero-valid, `ClearState` whether all are and every tag claims zero. */
module ZeroChoices {
  import opened Leaves
  import opened Schemas
  import opened ZeroStates

  /** No payload outside an option, at any depth. */
  predicate PayloadFree(s: Schema) {
    match s
    case Atom(_) => true
    case Array(cell, _, _) => PayloadFreeKind(cell)
    case Record(fields, _, _) => forall i :: 0 <= i < |fields| ==> PayloadFreeKind(fields[i].kind)
  }

  predicate PayloadFreeKind(kind: Kind) {
    match kind
    case Own(s) => PayloadFree(s)
    case Optional(_) => true
    case Payload(_, _) => false
  }

  /** Without payloads the three answers are one. */
  lemma {:induction false} PayloadFreeExact(s: Schema)
    requires PayloadFree(s)
    ensures Clearable(s) <==> ZeroIsValid(s)
    ensures MayBeZero(s) <==> ZeroIsValid(s)
    decreases s, 1
  {
    match s
    case Atom(_) =>
    case Array(cell, _, _) => PayloadFreeExactKind(cell);
    case Record(fields, _, _) =>
      forall i | 0 <= i < |fields|
        ensures ClearableKind(fields[i].kind) <==> ZeroIsValidKind(fields[i].kind)
        ensures MayBeZeroKind(fields[i].kind) <==> ZeroIsValidKind(fields[i].kind)
      {
        PayloadFreeExactKind(fields[i].kind);
      }
  }

  lemma {:induction false} PayloadFreeExactKind(kind: Kind)
    requires PayloadFreeKind(kind)
    ensures ClearableKind(kind) <==> ZeroIsValidKind(kind)
    ensures MayBeZeroKind(kind) <==> ZeroIsValidKind(kind)
    decreases kind, 0
  {
    if kind.Own? { PayloadFreeExact(kind.s); }
  }

  // ----- choices of variants -----

  /** What a unit variant leaves: storage that is valid when zero. */
  const BLANK := Own(Atom(Flag))

  /** `r` is `s` with every payload replaced by one of its variants. */
  predicate Resolves(s: Schema, r: Schema) {
    match s
    case Atom(_) => r == s
    case Array(cell, stride, len) =>
      r.Array? && r.stride == stride && r.len == len && ResolvesKind(cell, r.cell)
    case Record(fields, align, size) =>
      && r.Record? && r.align == align && r.size == size && |r.fields| == |fields|
      && (forall i :: 0 <= i < |fields| ==> r.fields[i] == fields[i].(kind := r.fields[i].kind))
      && (forall i :: 0 <= i < |fields| ==> ResolvesKind(fields[i].kind, r.fields[i].kind))
  }

  predicate ResolvesKind(kind: Kind, r: Kind) {
    match kind
    case Own(s) => r.Own? && Resolves(s, r.s)
    case Optional(_) => r == kind
    case Payload(_, arms) => exists j :: 0 <= j < |arms| && ResolvesArm(arms[j], r)
  }

  predicate ResolvesArm(arm: Arm, r: Kind) {
    if arm.Unit? then r == BLANK else r.Own? && Resolves(arm.s, r.s)
  }

  /** Every tag that may select a payload claims zero. */
  predicate Claims(s: Schema) {
    match s
    case Atom(_) => true
    case Array(cell, _, _) => ClaimsKind(cell)
    case Record(fields, _, _) => forall i :: 0 <= i < |fields| ==> ClaimsKind(fields[i].kind)
  }

  predicate ClaimsKind(kind: Kind) {
    match kind
    case Own(s) => Claims(s)
    case Optional(_) => true
    case Payload(_, arms) =>
      && (exists j :: 0 <= j < |arms| && arms[j].disc == 0)
      && (forall j :: 0 <= j < |arms| && arms[j].Newtype? ==> Claims(arms[j].s))
  }

  /** A choice leaves no payload. */
  lemma {:induction false} ResolvedPayloadFree(s: Schema, r: Schema)
    requires Resolves(s, r)
    ensures PayloadFree(r)
    decreases s, 1
  {
    match s
    case Atom(_) =>
    case Array(cell, _, _) => ResolvedPayloadFreeKind(cell, r.cell);
    case Record(fields, _, _) =>
      forall i | 0 <= i < |fields| ensures PayloadFreeKind(r.fields[i].kind) {
        ResolvedPayloadFreeKind(fields[i].kind, r.fields[i].kind);
      }
  }

  lemma {:induction false} ResolvedPayloadFreeKind(kind: Kind, r: Kind)
    requires ResolvesKind(kind, r)
    ensures PayloadFreeKind(r)
    decreases kind, 0
  {
    match kind
    case Own(s) => ResolvedPayloadFree(s, r.s);
    case Optional(_) =>
    case Payload(_, arms) =>
      var j :| 0 <= j < |arms| && ResolvesArm(arms[j], r);
      if arms[j].Newtype? { ResolvedPayloadFree(arms[j].s, r.s); }
  }

  // ----- the over-approximation -----

  /** A choice with zero-valid variants throughout. */
  ghost function Best(s: Schema): (r: Schema)
    requires MayBeZero(s)
    ensures Resolves(s, r) && ZeroIsValid(r)
    decreases s, 1
  {
    match s
    case Atom(_) => s
    case Array(cell, stride, len) => Array(BestKind(cell), stride, len)
    case Record(fields, align, size) =>
      Record(seq(|fields|, i requires 0 <= i < |fields| => fields[i].(kind := BestKind(fields[i].kind))), align, size)
  }

  ghost function BestKind(kind: Kind): (r: Kind)
    requires MayBeZeroKind(kind)
    ensures ResolvesKind(kind, r) && ZeroIsValidKind(r)
    decreases kind, 0
  {
    match kind
    case Own(s) => Own(Best(s))
    case Optional(_) => kind
    case Payload(_, arms) =>
      var j :| 0 <= j < |arms| && (arms[j].Unit? || MayBeZero(arms[j].s));
      var r := if arms[j].Unit? then BLANK else Own(Best(arms[j].s));
      assert ResolvesArm(arms[j], r);
      r
  }

  lemma {:induction false} ResolvedMayBeZero(s: Schema, r: Schema)
    requires Resolves(s, r) && ZeroIsValid(r)
    ensures MayBeZero(s)
    decreases s, 1
  {
    match s
    case Atom(_) =>
    case Array(cell, _, _) => ResolvedMayBeZeroKind(cell, r.cell);
    case Record(fields, _, _) =>
      forall i | 0 <= i < |fields| ensures MayBeZeroKind(fields[i].kind) {
        ResolvedMayBeZeroKind(fields[i].kind, r.fields[i].kind);
      }
  }

  lemma {:induction false} ResolvedMayBeZeroKind(kind: Kind, r: Kind)
    requires ResolvesKind(kind, r) && ZeroIsValidKind(r)
    ensures MayBeZeroKind(kind)
    decreases kind, 0
  {
    match kind
    case Own(s) => ResolvedMayBeZero(s, r.s);
    case Optional(_) =>
    case Payload(_, arms) =>
      var j :| 0 <= j < |arms| && ResolvesArm(arms[j], r);
      if arms[j].Newtype? { ResolvedMayBeZero(arms[j].s, r.s); }
  }

  /** `ZeroState`: some choice of variants is zero-valid, whatever the tags say. */
  lemma MayBeZeroExactly(s: Schema)
    ensures MayBeZero(s) <==> exists r :: Resolves(s, r) && ZeroIsValid(r)
  {
    if MayBeZero(s) { assert Resolves(s, Best(s)) && ZeroIsValid(Best(s)); }
    forall r | Resolves(s, r) && ZeroIsValid(r) ensures MayBeZero(s) { ResolvedMayBeZero(s, r); }
  }

  // ----- the under-approximation -----

  /** A choice with a variant that is not zero-valid wherever there is one. */
  ghost function Worst(s: Schema): (r: Schema)
    requires Claims(s)
    ensures Resolves(s, r) && (ZeroIsValid(r) ==> Clearable(s))
    decreases s, 1
  {
    match s
    case Atom(_) => s
    case Array(cell, stride, len) => Array(WorstKind(cell), stride, len)
    case Record(fields, align, size) =>
      var r := Record(seq(|fields|, i requires 0 <= i < |fields| => fields[i].(kind := WorstKind(fields[i].kind))),
                 align, size);
      assert forall i :: 0 <= i < |fields| ==> r.fields[i].kind == WorstKind(fields[i].kind);
      r
  }

  ghost function WorstKind(kind: Kind): (r: Kind)
    requires ClaimsKind(kind)
    ensures ResolvesKind(kind, r) && (ZeroIsValidKind(r) ==> ClearableKind(kind))
    decreases kind, 0
  {
    match kind
    case Own(s) => Own(Worst(s))
    case Optional(_) => kind
    case Payload(_, arms) =>
      var j :| 0 <= j < |arms| &&
        ((arms[j].Newtype? && !Clearable(arms[j].s)) ||
         (forall i :: 0 <= i < |arms| ==> arms[i].Unit? || Clearable(arms[i].s)));
      var r := if arms[j].Unit? then BLANK else Own(Worst(arms[j].s));
      assert ResolvesArm(arms[j], r);
      r
  }

  lemma {:induction false} ClearableResolved(s: Schema, r: Schema)
    requires Clearable(s) && Resolves(s, r)
    ensures ZeroIsValid(r)
    decreases s, 1
  {
    match s
    case Atom(_) =>
    case Array(cell, _, _) => ClearableResolvedKind(cell, r.cell);
    case Record(fields, _, _) =>
      forall i | 0 <= i < |fields| ensures ZeroIsValidKind(r.fields[i].kind) {
        ClearableResolvedKind(fields[i].kind, r.fields[i].kind);
      }
  }

  lemma {:induction false} ClearableResolvedKind(kind: Kind, r: Kind)
    requires ClearableKind(kind) && ResolvesKind(kind, r)
    ensures ZeroIsValidKind(r)
    decreases kind, 0
  {
    match kind
    case Own(s) => ClearableResolved(s, r.s);
    case Optional(_) =>
    case Payload(_, arms) =>
      var j :| 0 <= j < |arms| && ResolvesArm(arms[j], r);
      if arms[j].Newtype? { ClearableResolved(arms[j].s, r.s); }
  }

  lemma {:induction false} ClearableClaims(s: Schema)
    requires Clearable(s)
    ensures Claims(s)
    decreases s, 1
  {
    match s
    case Atom(_) =>
    case Array(cell, _, _) => ClearableClaimsKind(cell);
    case Record(fields, _, _) =>
      forall i | 0 <= i < |fields| ensures ClaimsKind(fields[i].kind) { ClearableClaimsKind(fields[i].kind); }
  }

  lemma {:induction false} ClearableClaimsKind(kind: Kind)
    requires ClearableKind(kind)
    ensures ClaimsKind(kind)
    decreases kind, 0
  {
    match kind
    case Own(s) => ClearableClaims(s);
    case Optional(_) =>
    case Payload(_, arms) =>
      forall j | 0 <= j < |arms| && arms[j].Newtype? ensures Claims(arms[j].s) { ClearableClaims(arms[j].s); }
  }

  /** `ClearState`: every tag claims zero and every choice of variants is zero-valid. */
  lemma ClearableExactly(s: Schema)
    ensures Clearable(s) <==> Claims(s) && forall r :: Resolves(s, r) ==> ZeroIsValid(r)
  {
    if Clearable(s) {
      ClearableClaims(s);
      forall r | Resolves(s, r) ensures ZeroIsValid(r) { ClearableResolved(s, r); }
    }
    if Claims(s) && !Clearable(s) { assert Resolves(s, Worst(s)) && !ZeroIsValid(Worst(s)); }
  }
}
