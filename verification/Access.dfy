/** Checked selection of exact, aligned spans (`src/access.rs`, `src/mutation.rs`), and access to a
    root. Addresses and lengths are numbers; `max` is `usize::MAX`. */
module Access {
  import opened Bytes
  import opened Leaves
  import opened Schemas
  import opened Codec
  import opened RoundTrip
  import opened Alignments
  import opened Layout
  import opened Runs

  datatype LayoutError = OffsetOverflow | InsufficientBytes | IncorrectSize | Misaligned

  datatype Result<T> = Ok(value: T) | Err(error: LayoutError)

  /** A byte slice: where it starts and how long it is. */
  datatype Slice = Slice(address: nat, length: nat)

  /** `checked_range`: the end of the range. Overflow is reported before the bounds are compared. */
  function CheckedRange(max: nat, available: nat, offset: nat, length: nat): Result<nat> {
    if offset + length > max then Err(OffsetOverflow)
    else if offset + length > available then Err(InsufficientBytes)
    else Ok(offset + length)
  }

  /** `checked_element_offset`. */
  function ElementOffset(max: nat, index: nat, stride: nat): Result<nat> {
    if index * stride > max then Err(OffsetOverflow) else Ok(index * stride)
  }

  /** `from_checked`: exact size first, then alignment. */
  function FromChecked(x: Slice, size: nat, align: nat): Result<Slice>
    requires align > 0
  {
    if x.length != size then Err(IncorrectSize)
    else if x.address % align != 0 then Err(Misaligned)
    else Ok(x)
  }

  /** `subrange` and `subrange_mut`. */
  function Subrange(max: nat, x: Slice, offset: nat, size: nat, align: nat): Result<Slice>
    requires align > 0
  {
    var range := CheckedRange(max, x.length, offset, size);
    if range.Err? then Err(range.error) else FromChecked(Slice(x.address + offset, size), size, align)
  }

  /** A selection succeeds exactly when its end does not overflow, lies in the slice, and its start is aligned;
      it is the range asked for, and overflow, bounds and alignment are reported in that order. */
  lemma SelectionExactly(max: nat, x: Slice, offset: nat, size: nat, align: nat)
    requires align > 0
    ensures var r, end := Subrange(max, x, offset, size, align), offset + size;
      && (r.Ok? <==> end <= max && end <= x.length && Multiple(x.address + offset, align))
      && (r.Ok? ==> r.value == Slice(x.address + offset, size))
      && (r.Err? ==> r.error == if end > max then OffsetOverflow else if end > x.length then InsufficientBytes
                                else Misaligned)
  {
    MultipleMod(x.address + offset, align);
  }

  // ----- every nested selection -----

  /** What a selection stands on: the span of a schema, the storage of a field, or a part of a string,
      its length prefix or its units. */
  datatype Focus = Whole(s: Schema) | Storage(kind: Kind, len: nat, align: nat) | Piece(len: nat, align: nat) {
    function Size(): nat { if Whole? then s.Size() else len }
    function Align(): nat { if Whole? then AlignOf(s) else align }
  }

  predicate IsText(s: Schema) { s.Atom? && (s.leaf.Text? || s.leaf.CText?) }

  /** The well-formed and aligned positions of a placed schema. */
  predicate Placed(f: Focus) {
    match f
    case Whole(s) => Wf(s) && Aligned(s)
    case Storage(kind, len, align) =>
      && WfKind(kind) && Room(kind, len) && AlignedKind(kind)
      && Pow2(align) && Pow2(AlignOfKind(kind)) && AlignOfKind(kind) <= align
    case Piece(_, align) => Pow2(align)
  }

  /** The step `k` is possible: a child of a record or an array, the units of a string or, as step 1, its
      length prefix, the value of a field or of an option, a variant of a payload. */
  predicate Possible(f: Focus, k: nat) {
    match f
    case Whole(s) => k < s.Count() || (IsText(s) && (k == 0 || (k == 1 && s.leaf.Text?)))
    case Storage(kind, _, _) => kind.Payload? ==> k < |kind.arms| && kind.arms[k].Newtype?
    case Piece(_, _) => false
  }

  function Next(f: Focus, k: nat): Focus
    requires Possible(f, k)
  {
    match f
    case Whole(s) =>
      if IsText(s) then
        if k == 1 then Piece(s.leaf.prefix.width, s.leaf.prefix.align)
        else Piece(s.leaf.units.Span(s.leaf.cap), s.leaf.units.Align())
      else Storage(s.KindOf(k), s.Len(k), if s.Record? then FieldAlign(s.fields[k]) else AlignOfKind(s.cell))
    case Storage(kind, _, _) => Whole(if kind.Payload? then kind.arms[k].s else kind.s)
  }

  /** The offset of the step: a field, an element, `DATA_OFFSET`; everything else starts its storage. */
  function StepOff(f: Focus, k: nat): nat
    requires Possible(f, k)
  {
    if !f.Whole? then 0
    else if !IsText(f.s) then f.s.Off(k)
    else if k == 0 && f.s.leaf.Text? then DataOff(f.s.leaf.prefix, f.s.leaf.units)
    else 0
  }

  predicate Reaches(f: Focus, path: seq<nat>)
    decreases |path|
  {
    path == [] || (Possible(f, path[0]) && Reaches(Next(f, path[0]), path[1..]))
  }

  /** One checked selection, as generated code takes it. */
  function Enter(max: nat, x: Slice, f: Focus, k: nat): Result<Slice>
    requires Possible(f, k) && Next(f, k).Align() > 0
  {
    if f.Whole? && f.s.Array? then
      var offset := ElementOffset(max, k, f.s.stride);
      if offset.Err? then Err(offset.error)
      else Subrange(max, x, offset.value, Next(f, k).Size(), Next(f, k).Align())
    else
      Subrange(max, x, StepOff(f, k), Next(f, k).Size(), Next(f, k).Align())
  }

  /** A chain of selections from `x` along `path`. */
  function Walk(max: nat, x: Slice, f: Focus, path: seq<nat>): (r: Result<Slice>)
    requires Placed(f) && Reaches(f, path)
    decreases |path|
  {
    if path == [] then Ok(x)
    else
      NextPlaced(f, path[0]);
      var y := Enter(max, x, f, path[0]);
      if y.Err? then y else Walk(max, y.value, Next(f, path[0]), path[1..])
  }

  /** The slice is an exact, aligned view for the position. */
  predicate Exact(max: nat, x: Slice, f: Focus) {
    x.length == f.Size() && x.length <= max && Multiple(x.address, f.Align())
  }

  lemma NextPlaced(f: Focus, k: nat)
    requires Placed(f) && Possible(f, k)
    ensures Placed(Next(f, k)) && Next(f, k).Align() > 0
  {
    hide AlignUp;
    match f
    case Whole(s) =>
      if !IsText(s) {
        WfKid(s, k);
        if s.Record? { assert AlignedField(s.fields[k], AlignOf(s)); }
      }
    case Storage(kind, _, _) => if kind.Payload? { ArmsLayout(kind); }
  }

  /** One selection: in bounds, free of overflow, aligned. */
  lemma EnterSucceeds(max: nat, x: Slice, f: Focus, k: nat)
    requires Placed(f) && Possible(f, k) && Exact(max, x, f) && Next(f, k).Align() > 0
    ensures Enter(max, x, f, k).Ok? && Exact(max, Enter(max, x, f, k).value, Next(f, k))
  {
    hide Wf, WfKind, Aligned, AlignedKind, Placed;
    NextPlaced(f, k);
    var o := StepOff(f, k);
    StepFits(f, k);
    MultipleTrans(x.address, f.Align(), Next(f, k).Align());
    MultipleAdd(x.address, o, Next(f, k).Align());
    MultipleMod(x.address + o, Next(f, k).Align());
  }

  /** The step stays inside, and keeps the alignment. */
  lemma StepFits(f: Focus, k: nat)
    requires Placed(f) && Possible(f, k)
    ensures StepOff(f, k) + Next(f, k).Size() <= f.Size()
    ensures Multiple(f.Align(), Next(f, k).Align()) && Multiple(StepOff(f, k), Next(f, k).Align())
  {
    if f.Storage? {
      ValueFits(f.kind, f.len, f.align, k);
    } else if IsText(f.s) {
      TextFits(f.s.leaf, k);
    } else {
      ChildFits(f.s, k);
    }
  }

  lemma TextFits(l: LeafType, k: nat)
    requires LeafWf(l) && LeafAligned(l) && Possible(Whole(Atom(l)), k) && (l.Text? || l.CText?)
    ensures var f := Whole(Atom(l));
      && StepOff(f, k) + Next(f, k).Size() <= LeafSize(l)
      && Multiple(LeafAlign(l), Next(f, k).Align()) && Multiple(StepOff(f, k), Next(f, k).Align())
  {
    hide AlignUp;
    var a := l.units.Align();
    assert Pow2(a);
    if l.Text? {
      Pow2Max(l.prefix.align, a);
      Pow2Divides(a, LeafAlign(l));
      Pow2Divides(l.prefix.align, LeafAlign(l));
      AlignUpMultiple(l.prefix.width, a);
    } else {
      Pow2Divides(a, a);
    }
  }

  lemma ChildFits(s: Schema, k: nat)
    requires Wf(s) && Aligned(s) && k < s.Count() && !IsText(s)
    ensures var a := Next(Whole(s), k).Align();
      s.Off(k) + s.Len(k) <= s.Size() && Multiple(AlignOf(s), a) && Multiple(s.Off(k), a)
  {
    hide AlignUp;
    WfKid(s, k);
    if s.Record? {
      assert AlignedField(s.fields[k], AlignOf(s));
      Pow2Divides(FieldAlign(s.fields[k]), AlignOf(s));
    } else {
      assert s.Off(k) == k * s.stride;
      MultipleTimes(k, s.stride, AlignOf(s.cell.s));
      Pow2Divides(AlignOf(s), AlignOf(s));
    }
  }

  lemma ValueFits(kind: Kind, len: nat, align: nat, k: nat)
    requires Placed(Storage(kind, len, align)) && Possible(Storage(kind, len, align), k)
    ensures var c := Next(Storage(kind, len, align), k); c.Size() <= len && Multiple(align, c.Align())
  {
    hide AlignUp, Wf, Aligned;
    if kind.Payload? {
      ArmsLayout(kind);
      Pow2Divides(AlignOf(kind.arms[k].s), ArmsAlign(kind.arms));
      Pow2Divides(ArmsAlign(kind.arms), align);
      MultipleTrans(align, ArmsAlign(kind.arms), AlignOf(kind.arms[k].s));
    } else {
      Pow2Divides(AlignOf(kind.s), align);
    }
  }

  /** No dead arm: from a root that passed the exact size and alignment check, every chain of
      selections along the schema succeeds, at every depth and through every option and variant. */
  lemma {:induction false} WalkSucceeds(max: nat, x: Slice, f: Focus, path: seq<nat>)
    requires Placed(f) && Reaches(f, path) && Exact(max, x, f)
    ensures Walk(max, x, f, path).Ok?
    ensures Exact(max, Walk(max, x, f, path).value, End(f, path))
    decreases |path|
  {
    if path != [] {
      NextPlaced(f, path[0]);
      EnterSucceeds(max, x, f, path[0]);
      WalkSucceeds(max, Enter(max, x, f, path[0]).value, Next(f, path[0]), path[1..]);
    }
  }

  function End(f: Focus, path: seq<nat>): Focus
    requires Reaches(f, path)
    decreases |path|
  {
    if path == [] then f else End(Next(f, path[0]), path[1..])
  }

  // ----- selecting at once -----

  /** Where the end of a path lies in the span it starts from. */
  function PathOff(f: Focus, path: seq<nat>): nat
    requires Reaches(f, path)
    decreases |path|
  {
    if path == [] then 0 else StepOff(f, path[0]) + PathOff(Next(f, path[0]), path[1..])
  }

  /** A chain of selections is one selection: generated code may take the value of a field, the prefix or
      the units of a string directly from the record that holds it, at the sum of the offsets, and the
      selection succeeds with the same slice. */
  lemma {:induction false} WalkIsDirect(max: nat, x: Slice, f: Focus, path: seq<nat>)
    requires Placed(f) && Reaches(f, path) && Exact(max, x, f) && End(f, path).Align() > 0
    ensures PathOff(f, path) + End(f, path).Size() <= f.Size()
    ensures Walk(max, x, f, path) == Ok(Slice(x.address + PathOff(f, path), End(f, path).Size()))
    ensures Subrange(max, x, PathOff(f, path), End(f, path).Size(), End(f, path).Align()) == Walk(max, x, f, path)
    decreases |path|
  {
    hide Placed, Enter, StepOff, Possible;
    WalkSucceeds(max, x, f, path);
    if path != [] {
      NextPlaced(f, path[0]);
      EnterSucceeds(max, x, f, path[0]);
      EnterAt(max, x, f, path[0]);
      StepFits(f, path[0]);
      WalkIsDirect(max, Enter(max, x, f, path[0]).value, Next(f, path[0]), path[1..]);
    }
    MultipleMod(x.address + PathOff(f, path), End(f, path).Align());
  }

  lemma EnterAt(max: nat, x: Slice, f: Focus, k: nat)
    requires Possible(f, k) && Next(f, k).Align() > 0 && Enter(max, x, f, k).Ok?
    ensures Enter(max, x, f, k).value == Slice(x.address + StepOff(f, k), Next(f, k).Size())
  {}

  /** Both for a declaration as the compiler places it: once the root passed the exact size and alignment
      check, every chain of selections succeeds, and so does the one selection it amounts to. */
  lemma RootSelections(max: nat, x: Slice, s: Schema, path: seq<nat>)
    requires Declared(s) && x.length <= max && Reaches(Whole(Place(s)), path)
    ensures Placed(Whole(Place(s))) && AlignOf(Place(s)) > 0 && End(Whole(Place(s)), path).Align() > 0
    ensures FromChecked(x, Place(s).Size(), AlignOf(Place(s))).Ok? ==>
      var f := Whole(Place(s));
      && Walk(max, x, f, path).Ok?
      && Subrange(max, x, PathOff(f, path), End(f, path).Size(), End(f, path).Align()) == Walk(max, x, f, path)
  {
    hide Wf, Aligned, Place, Declared, Walk, Subrange;
    PlaceWf(s);
    PlaceAligned(s);
    EndAligned(Whole(Place(s)), path);
    EndAligned(Whole(Place(s)), []);
    if FromChecked(x, Place(s).Size(), AlignOf(Place(s))).Ok? {
      MultipleMod(x.address, AlignOf(Place(s)));
      WalkIsDirect(max, x, Whole(Place(s)), path);
    }
  }

  lemma {:induction false} EndAligned(f: Focus, path: seq<nat>)
    requires Placed(f) && Reaches(f, path)
    ensures End(f, path).Align() > 0
    decreases |path|
  {
    if path != [] {
      NextPlaced(f, path[0]);
      EndAligned(Next(f, path[0]), path[1..]);
    }
  }

  /** The selections generated code takes from a record for a string field: the prefix and the units,
      straight from the record, so the length is read and the `u16` view exists. */
  lemma StringSelections(max: nat, x: Slice, s: Schema, k: nat, l: LeafType)
    requires s.Record? && Wf(s) && Aligned(s) && Exact(max, x, Whole(s)) && k < s.Count()
    requires s.KindOf(k) == Own(Atom(l)) && (l.Text? || l.CText?) && LeafWf(l)
    ensures l.Text? ==> Subrange(max, x, s.Off(k), l.prefix.width, l.prefix.align).Ok?
    ensures var o := if l.Text? then DataOff(l.prefix, l.units) else 0;
      Subrange(max, x, s.Off(k) + o, l.units.Span(l.cap), l.units.Align()).Ok?
  {
    hide Wf, Aligned, AlignedKind, AlignUp, Walk, Subrange;
    forall j | j == 0 || (j == 1 && l.Text?)
      ensures Reaches(Whole(s), [k, 0, j]) && End(Whole(s), [k, 0, j]) == Next(Whole(Atom(l)), j)
      ensures PathOff(Whole(s), [k, 0, j]) == s.Off(k) + StepOff(Whole(Atom(l)), j)
    {
      StringPath(s, k, l, j);
    }
    WalkIsDirect(max, x, Whole(s), [k, 0, 0]);
    if l.Text? { WalkIsDirect(max, x, Whole(s), [k, 0, 1]); }
  }

  lemma StringPath(s: Schema, k: nat, l: LeafType, j: nat)
    requires s.Record? && k < s.Count() && s.KindOf(k) == Own(Atom(l)) && (l.Text? || l.CText?)
    requires j == 0 || (j == 1 && l.Text?)
    ensures Reaches(Whole(s), [k, 0, j]) && End(Whole(s), [k, 0, j]) == Next(Whole(Atom(l)), j)
    ensures PathOff(Whole(s), [k, 0, j]) == s.Off(k) + StepOff(Whole(Atom(l)), j)
  {
    var f, path := Whole(s), [k, 0, j];
    var g := Next(f, k);
    assert path[1..] == [0, j] && path[1..][1..] == [j] && [j][1..] == [];
    assert Next(g, 0) == Whole(Atom(l)) && Possible(Whole(Atom(l)), j);
    assert Reaches(Next(Whole(Atom(l)), j), []) && Reaches(Whole(Atom(l)), [j]) && Reaches(g, [0, j]);
    assert End(Whole(Atom(l)), [j]) == Next(Whole(Atom(l)), j) && End(g, [0, j]) == End(Whole(Atom(l)), [j]);
    assert PathOff(Whole(Atom(l)), [j]) == StepOff(Whole(Atom(l)), j) &&
      PathOff(g, [0, j]) == PathOff(Whole(Atom(l)), [j]);
  }

  // ----- access to a root -----

  datatype Outcome = Accessed(value: Value) | LayoutFailure(error: LayoutError) | ProofFailure

  /** The generated access: an exact and aligned slice, then the eager proof. */
  function AccessRoot(address: nat, b: seq<Byte>, s: Schema): Outcome
    requires Wf(s) && AlignOf(s) > 0
  {
    var x := FromChecked(Slice(address, |b|), s.Size(), AlignOf(s));
    if x.Err? then LayoutFailure(x.error)
    else if Valid(s, b) then Accessed(Decode(s, b))
    else ProofFailure
  }

  /** Access succeeds exactly on an exact and aligned slice that the proof accepts, and then reads what the
      slice holds; the layout is judged before the contents. */
  lemma AccessExactly(address: nat, b: seq<Byte>, s: Schema)
    requires Wf(s) && AlignOf(s) > 0
    ensures var r := AccessRoot(address, b, s);
      && (r.Accessed? <==> |b| == s.Size() && Multiple(address, AlignOf(s)) && Valid(s, b))
      && (r.Accessed? ==> |b| == s.Size() && Fits(s, r.value) && Encode(s, b, r.value) == b)
      && (r == LayoutFailure(IncorrectSize) <==> |b| != s.Size())
      && (r == LayoutFailure(Misaligned) <==> |b| == s.Size() && !Multiple(address, AlignOf(s)))
  {
    MultipleMod(address, AlignOf(s));
    if |b| == s.Size() && Valid(s, b) { DecodeThenEncode(s, b); }
  }

  /** After any run of calls a fresh access of the same root succeeds, and reads the run on what the
      first access read. */
  lemma FreshAccess(address: nat, b: seq<Byte>, s: Schema, calls: seq<Call>)
    requires Wf(s) && AlignOf(s) > 0 && AccessRoot(address, b, s).Accessed?
    ensures AccessRoot(address, Run(s, b, calls), s) == Accessed(RunValue(s, AccessRoot(address, b, s).value, calls))
  {
    RunRefines(s, b, calls);
  }
}
