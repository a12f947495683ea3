/** Runs of calls through the handles, over one live buffer. Navigation selects ever smaller spans
    of the same bytes; a call that the Rust types do not admit is not a call and does nothing. */
module Execution {
  import opened Bytes
  import opened Leaves
  import opened Schemas
  import opened Codec
  import opened ZeroStates
  import opened RoundTrip
  import opened Patches
  import opened PatchLaws
  import opened Buffers
  import opened Traces
  import opened Commits
  import opened Runs
  import opened Handles

  /** Assigning a record is `copy_from` of the patch converted from the logical value. */
  lemma AssignIsUpdate(s: Schema, b: seq<Byte>, v: Value)
    requires Wf(s) && |b| == s.Size() && Valid(s, b) && Typed(s, v)
    ensures TypedPatch(s, FromValue(s, v))
    ensures Here(s, b, Update(FromValue(s, v))) == Here(s, b, Assign(v))
  {
    FromValueMeans(s, Decode(s, b), v);
  }

  /** A value of another type has no representation: nothing is written. */
  lemma UntypedAssign(s: Schema, b: seq<Byte>, v: Value)
    requires Wf(s) && |b| == s.Size() && Valid(s, b) && !Typed(s, v)
    ensures Here(s, b, Assign(v)) == b
  {
    if Fits(s, v) { FitsTyped(s, v); }
  }

  /** The patch entry of a leaf or of an array replaces it. */
  lemma PutIsAssign(s: Schema, b: seq<Byte>, p: Patch)
    requires Wf(s) && !s.Record? && |b| == s.Size() && Valid(s, b)
    ensures Here(s, b, Update(p)) == if p.Put? then Here(s, b, Assign(p.v)) else b
  {
    if p.Put? {
      if Fits(s, p.v) { FitsTyped(s, p.v); }
    } else {
      DecodeThenEncode(s, b);
    }
  }

  /** The operations no capability offers. */
  lemma HereStays(s: Schema, b: seq<Byte>, op: Op)
    requires Wf(s) && |b| == s.Size() && Valid(s, b)
    ensures op.Replace? || (op.Update? && !TypedPatch(s, op.p)) ==> Here(s, b, op) == b
    ensures op.Wipe? && !(s.Atom? && (s.leaf.Text? || s.leaf.CText?)) && !(s.Record? && Clearable(s)) ==>
      Here(s, b, op) == b
  {}

  lemma TypedOffered(l: LeafType, v: LeafValue)
    requires LeafTyped(l, v)
    ensures Offered(l, v)
  {}

  /** One operation on a capability. */
  method ExecuteHere(h: Handle, op: Op)
    requires h.Live()
    modifies h.Buf(), h.Buf().cells
    ensures h.Live()
    ensures h.Buf().cells[..] == Splice(old(h.Buf().cells[..]), h.At(), Here(h.Of(), old(Contents(h)), op))
  {
    hide Splice, Replay, Wf, Valid, Decode, Encode, Fits, FromValue, Accepts, TypedPatch, Typed, Here;
    SpliceSelf(h.Buf().cells[..], h.At(), h.Of().Size());
    HereStays(h.Of(), Contents(h), op);
    match op {
      case Assign(v) => ExecuteAssign(h, v);
      case Wipe =>
        if h.OnLeaf? && (h.leaf.l.Text? || h.leaf.l.CText?) {
          h.leaf.Clear();
        } else if h.OnRecord? && Clearable(h.record.s) {
          h.record.Clear();
        }
      case Update(p) =>
        if h.OnRecord? {
          if TypedPatch(h.record.s, p) { var _ := h.record.CopyFrom(p); }
        } else {
          PutIsAssign(h.Of(), Contents(h), p);
          if p.Put? { ExecuteAssign(h, p.v); }
        }
      case Replace(_) =>
    }
  }

  /** The bytes a capability stands for. */
  ghost function Contents(h: Handle): (b: seq<Byte>)
    requires h.Live()
    reads h.Buf(), h.Buf().cells
    ensures |b| == h.Of().Size()
  {
    Span(h.Buf(), h.At(), h.Of().Size())
  }

  method ExecuteAssign(h: Handle, v: Value)
    requires h.Live()
    modifies h.Buf(), h.Buf().cells
    ensures h.Live()
    ensures h.Buf().cells[..] == Splice(old(h.Buf().cells[..]), h.At(), Here(h.Of(), old(Contents(h)), Assign(v)))
  {
    hide Splice, Replay, Wf, Valid, Decode, Encode, Fits, FromValue, Accepts, TypedPatch, LeafTyped, Here;
    ghost var s, b := h.Of(), Contents(h);
    SpliceSelf(h.Buf().cells[..], h.At(), s.Size());
    if !Typed(h.Of(), v) {
      UntypedAssign(s, b, v);
    } else {
      match h {
        case OnLeaf(l) =>
          TypedOffered(l.l, v.v);
          var _ := l.Set(v.v);
        case OnArray(a) =>
          ArrayWf(a.s);
          forall k | 0 <= k < |v.kids| ensures Typed(a.s.cell.s, v.kids[k]) {
            assert TypedKind(a.s.KindOf(k), v.kids[k]);
          }
          var _ := a.CopyFrom(v.kids);
        case OnRecord(r) =>
          AssignIsUpdate(s, b, v);
          var _ := r.CopyFrom(FromValue(r.s, v));
      }
    }
  }

  /** A call: navigation from capability to capability, then the operation on the last. */
  method Execute(h: Handle, path: seq<nat>, op: Op)
    requires h.Live()
    modifies h.Buf(), h.Buf().cells
    ensures h.Live()
    ensures h.Buf().cells[..] == Splice(old(h.Buf().cells[..]), h.At(), Exec(h.Of(), old(Contents(h)), path, op))
    decreases h.Of(), 2
  {
    hide Splice, Replay, Wf, Valid, Decode, Here, ExecKind;
    ghost var c0, b := h.Buf().cells[..], Contents(h);
    SpliceSelf(c0, h.At(), h.Of().Size());
    ExecKeepsValid(h.Of(), b, path, op);
    if path == [] {
      ExecuteHere(h, op);
    } else if h.OnArray? && path[0] < h.elements.s.len {
      ExecuteElement(h.elements, path, op);
    } else if h.OnRecord? && path[0] < h.record.s.Count() && !IsTag(h.record.s, path[0]) {
      ExecuteFieldOf(h.record, path, op);
    }
  }

  /** Through an array: `set` of one element, or its own capability. */
  method ExecuteElement(a: ArrayMut, path: seq<nat>, op: Op)
    requires a.Live() && path != [] && path[0] < a.s.len
    modifies a.m, a.m.cells
    ensures a.m.Valid()
    ensures a.m.cells[..] == Splice(old(a.m.cells[..]), a.at, Exec(a.s, old(Span(a.m, a.at, a.s.Size())), path, op))
    decreases a.s, 1
  {
    hide Splice, Replay, Wf, Valid, Decode, Here, Typed, Exec, Fits, Published;
    ghost var c0 := a.m.cells[..];
    var k := path[0];
    ArrayWf(a.s);
    if |path| == 1 && op.Assign? && Typed(a.s.cell.s, op.v) {
      assert path == [k];
      var _ := a.Set(k, op.v);
    } else {
      ElementWindow(a.s, c0, a.at, path, op);
      var r := a.GetMut(k);
      Execute(r.h, path[1..], op);
    }
  }

  /** The step into an element, seen from the buffer. */
  lemma ElementWindow(s: Schema, c: seq<Byte>, at: nat, path: seq<nat>, op: Op)
    requires s.Array? && Wf(s) && at + s.Size() <= |c| && Valid(s, c[at..at + s.Size()]) && path != [] &&
      path[0] < s.len
    ensures s.cell.Own? && Wf(s.cell.s) && s.stride == s.cell.s.Size() && s.Off(path[0]) + s.stride <= s.Size()
    ensures var x := c[at + s.Off(path[0])..at + s.Off(path[0]) + s.stride];
      && Valid(s.cell.s, x)
      && Splice(c, at + s.Off(path[0]), Exec(s.cell.s, x, path[1..], op)) ==
        Splice(c, at, Exec(s, c[at..at + s.Size()], path, op))
  {
    hide Splice, Wf, Valid, Exec, Schema.Off, Schema.Size;
    var b := c[at..at + s.Size()];
    ElementInBuffer(s, c, at, path[0]);
    ElementExec(s, b, path, op);
    SpliceSelf(c, at, s.Size());
    SpliceWindow(c, at, b, s.Off(path[0]), Exec(s.cell.s, Part(s, b, path[0]), path[1..], op));
  }

  /** Through a record: the mutator of the field. */
  method ExecuteFieldOf(r: SchemaMut, path: seq<nat>, op: Op)
    requires r.Live() && r.s.Record? && path != [] && path[0] < r.s.Count() && !IsTag(r.s, path[0])
    modifies r.m, r.m.cells
    ensures r.m.Valid()
    ensures r.m.cells[..] == Splice(old(r.m.cells[..]), r.at, Exec(r.s, old(Span(r.m, r.at, r.s.Size())), path, op))
    decreases r.s, 1
  {
    hide Splice, Replay, Wf, WfKind, Valid, ValidKind, Decode, DecodeKind, Here, ExecKind, Tag, Room;
    ghost var c0, b := r.m.cells[..], Span(r.m, r.at, r.s.Size());
    var k := path[0];
    KidBounds(r.s, k);
    FieldWindow(r.s, c0, r.at, k, path, op, b, Span(r.m, r.at + r.s.Off(k), r.s.Len(k)));
    var f := r.FieldMut(k);
    ExecuteField(f, r.at + r.s.Off(k), r.s.Len(k), r.s.KindOf(k), Tag(r.s, b, k), path[1..], op);
  }

  /** The step into a field, seen from the buffer. */
  lemma FieldWindow(s: Schema, c: seq<Byte>, at: nat, k: nat, path: seq<nat>, op: Op, b: seq<Byte>, x: seq<Byte>)
    requires s.Record? && Wf(s) && at + s.Size() <= |c| && b == c[at..at + s.Size()] && Valid(s, b)
    requires path != [] && k == path[0] && k < s.Count() && !IsTag(s, k) && s.Off(k) + s.Len(k) <= s.Size()
    requires x == c[at + s.Off(k)..at + s.Off(k) + s.Len(k)]
    ensures WfKind(s.KindOf(k)) && Room(s.KindOf(k), |x|) && ValidKind(s.KindOf(k), Tag(s, b, k), x)
    ensures Splice(c, at + s.Off(k), ExecKind(s.KindOf(k), Tag(s, b, k), x, path[1..], op)) ==
      Splice(c, at, Exec(s, b, path, op))
  {
    hide Splice, Wf, WfKind, Valid, ValidKind, Decode, DecodeKind, ExecKind, Tag, Room, Schema.Off, Schema.Len,
      Schema.Size;
    KidDecoded(s, b, k);
    WfKid(s, k);
    PartAt(s, c, at, k);
    SpliceSelf(c, at, s.Size());
    SpliceWindow(c, at, b, s.Off(k), ExecKid(s, b, k, path[1..], op));
  }

  method ExecuteField(f: FieldHandle, ghost at: nat, ghost n: nat, ghost kind: Kind, ghost d: nat, path: seq<nat>,
                      op: Op)
    requires ProvedKind(f.Buf(), at, n, kind, d) && f.On(f.Buf(), at, n, kind, d)
    modifies f.Buf(), f.Buf().cells
    ensures f.Buf().Valid()
    ensures f.Buf().cells[..] == Splice(old(f.Buf().cells[..]), at,
      ExecKind(kind, d, old(Span(f.Buf(), at, n)), path, op))
    decreases kind, 1
  {
    hide Splice, Replay, Wf, Valid, Decode, Here, Exec, Fits, TypedPatch, HereOption, HerePayload, Over, Encode;
    match f {
      case Plain(h) =>
        ghost var c0, x := h.Buf().cells[..], Span(h.Buf(), at, n);
        Front(c0, at, n, kind.s.Size());
        Execute(h, path, op);
        SpliceFront(c0, at, n, Exec(kind.s, x[..kind.s.Size()], path, op));
      case Option(o) => ExecuteOption(o, d, path, op);
      case Selected(t) => ExecutePayload(t, path, op);
    }
  }

  method ExecuteOption(o: OptionMut, ghost d: nat, path: seq<nat>, op: Op)
    requires ProvedKind(o.m, o.at, o.n, Optional(o.s), d)
    modifies o.m, o.m.cells
    ensures o.m.Valid()
    ensures o.m.cells[..] == Splice(old(o.m.cells[..]), o.at,
      ExecKind(Optional(o.s), d, old(Span(o.m, o.at, o.n)), path, op))
    decreases Optional(o.s), 0
  {
    hide Splice, Replay, Wf, Valid, ValidKind, Exec, ExecKind, HereOption, Room;
    ghost var c0 := o.m.cells[..];
    SpliceSelf(c0, o.at, o.n);
    OptionWindow(o.s, d, c0, o.at, o.n, path, op);
    if path == [] && op.Replace? {
      ExecuteReplace(o, op.v);
    } else {
      var inner := o.GetMut();
      if inner.Some? { Execute(inner.h, path, op); }
    }
  }

  /** The step into an option, seen from the buffer. */
  lemma OptionWindow(s: Schema, d: nat, c: seq<Byte>, at: nat, n: nat, path: seq<nat>, op: Op)
    requires WfKind(Optional(s)) && Room(Optional(s), n) && at + n <= |c| && ValidKind(Optional(s), d, c[at..at + n])
    ensures ValidKind(Optional(s), 0, c[at..at + n]) && Wf(s) && s.Size() <= n
    ensures var x, y := c[at..at + n], ExecKind(Optional(s), d, c[at..at + n], path, op);
      if path == [] && op.Replace? then y == HereOption(Optional(s), x, op.v)
      else if AllZero(x) then y == x
      else Valid(s, c[at..at + s.Size()]) && Splice(c, at, Exec(s, c[at..at + s.Size()], path, op)) == Splice(c, at, y)
  {
    hide Splice, Wf, Valid, Exec, HereOption;
    Front(c, at, n, s.Size());
    if !(path == [] && op.Replace?) && !AllZero(c[at..at + n]) {
      SpliceFront(c, at, n, Exec(s, c[at..at + s.Size()], path, op));
    }
  }

  method ExecuteReplace(o: OptionMut, v: Value)
    requires o.Live()
    modifies o.m, o.m.cells
    ensures o.Live()
    ensures o.m.cells[..] == Splice(old(o.m.cells[..]), o.at, HereOption(Optional(o.s), old(Span(o.m, o.at, o.n)), v))
  {
    hide Splice, Replay, Wf, Valid, Decode, Fits, Encode;
    SpliceSelf(o.m.cells[..], o.at, o.n);
    if TypedKind(Optional(o.s), v) {
      var _ := o.Set(v);
    } else if FitsKind(Optional(o.s), v) {
      FitsTypedKind(Optional(o.s), v);
    }
  }

  /** `copy_from` on the selected payload. */
  method ExecuteVariant(t: TaggedMut, p: Patch)
    requires t.Live()
    modifies t.m, t.m.cells
    ensures t.m.Valid()
    ensures t.m.cells[..] == Splice(old(t.m.cells[..]), t.at, HerePayload(t.kind, t.tag, old(Span(t.m, t.at, t.n)), p))
  {
    hide Splice, Replay, Wf, Valid, Decode, Encode, Accepts, TypedPatch;
    ghost var c0, x := t.m.cells[..], Span(t.m, t.at, t.n);
    SpliceSelf(c0, t.at, t.n);
    var j := Pick(t.kind.arms, t.tag);
    if p.Choose? && p.pick == j && t.kind.arms[j].Newtype? {
      ghost var c := t.kind.arms[j].s;
      assert Over(x, x[..c.Size()]) == x;
      if TypedPatch(t.kind.arms[j].s, p.p) { var _ := t.CopyFrom(p); }
    }
  }

  /** Into a payload: its `copy_from`, or the capability of the selected variant. */
  method ExecutePayload(t: TaggedMut, path: seq<nat>, op: Op)
    requires t.Live()
    modifies t.m, t.m.cells
    ensures t.m.Valid()
    ensures t.m.cells[..] == Splice(old(t.m.cells[..]), t.at,
      ExecKind(t.kind, t.tag, old(Span(t.m, t.at, t.n)), path, op))
    decreases t.kind, 0
  {
    hide Splice, Replay, Wf, WfKind, Valid, ValidKind, Exec, ExecKind, HerePayload, Room;
    ghost var c0, x := t.m.cells[..], Span(t.m, t.at, t.n);
    SpliceSelf(c0, t.at, t.n);
    if path == [] && op.Update? {
      PayloadHere(t.kind, t.tag, x, op);
      ExecuteVariant(t, op.p);
    } else {
      PayloadWindow(t.kind, t.tag, c0, t.at, t.n, path, op);
      var j := Pick(t.kind.arms, t.tag);
      if t.kind.arms[j].Newtype? {
        var r := t.VariantMut(j);
        Execute(r.h, path, op);
      }
    }
  }

  lemma PayloadHere(kind: Kind, d: nat, x: seq<Byte>, op: Op)
    requires WfKind(kind) && kind.Payload? && Room(kind, |x|) && ValidKind(kind, d, x) && op.Update?
    ensures ExecKind(kind, d, x, [], op) == HerePayload(kind, d, x, op.p)
  {}

  /** The step into the selected variant, seen from the buffer. */
  lemma PayloadWindow(kind: Kind, d: nat, c: seq<Byte>, at: nat, n: nat, path: seq<nat>, op: Op)
    requires WfKind(kind) && kind.Payload? && Room(kind, n) && at + n <= |c| && ValidKind(kind, d, c[at..at + n])
    requires path != [] || !op.Update?
    ensures var j := Pick(kind.arms, d);
      && j < |kind.arms|
      && (kind.arms[j].Unit? ==> ExecKind(kind, d, c[at..at + n], path, op) == c[at..at + n])
      && (kind.arms[j].Newtype? ==>
            var s := kind.arms[j].s;
            && Wf(s) && s.Size() <= n && Valid(s, c[at..at + s.Size()])
            && Splice(c, at, Exec(s, c[at..at + s.Size()], path, op)) ==
              Splice(c, at, ExecKind(kind, d, c[at..at + n], path, op)))
  {
    hide Splice, Wf, Valid, Exec, Over, Here, HerePayload, HereOption, Schema.Size;
    var arm := kind.arms[Pick(kind.arms, d)];
    if arm.Newtype? {
      Front(c, at, n, arm.s.Size());
      SpliceFront(c, at, n, Exec(arm.s, c[at..at + arm.s.Size()], path, op));
    }
  }

  /** Any run of calls through the capabilities of a proved root, each call starting from a new root
      capability: the root stays proved throughout, and what it holds at the end is the run on the
      logical value it held at the start. */
  method ExecuteAll(m: Buffer, at: nat, s: Schema, calls: seq<Call>)
    requires Proved(m, at, s)
    modifies m, m.cells
    ensures Proved(m, at, s)
    ensures m.cells[..] == Splice(old(m.cells[..]), at, Run(s, old(Span(m, at, s.Size())), calls))
    ensures Decode(s, Span(m, at, s.Size())) == RunValue(s, old(Decode(s, Span(m, at, s.Size()))), calls)
  {
    hide Splice, Replay, Wf, Valid, Decode, Exec, ExecValue;
    ghost var c0, b0 := m.cells[..], Span(m, at, s.Size());
    RunRefines(s, b0, calls);
    SpliceSelf(c0, at, s.Size());
    for i := 0 to |calls|
      invariant Proved(m, at, s)
      invariant m.cells[..] == Splice(c0, at, Span(m, at, s.Size()))
      invariant Run(s, b0, calls) == Run(s, Span(m, at, s.Size()), calls[i..])
    {
      ghost var b := Span(m, at, s.Size());
      var h := Open(m, at, s);
      Execute(h, calls[i].path, calls[i].op);
      SpliceWindow(c0, at, b, 0, Exec(s, b, calls[i].path, calls[i].op));
      OverAll(b, Exec(s, b, calls[i].path, calls[i].op));
      assert calls[i..][1..] == calls[i + 1..];
    }
  }
}
