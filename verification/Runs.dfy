/** Runs of capability operations, at any depth of the record tree. */
module Runs {
  import opened Bytes
  import opened Leaves
  import opened Schemas
  import opened Codec
  import opened ZeroStates
  import opened RoundTrip
  import opened Patches
  import opened Frames

  /** `Assign`: the setters of scalars, Booleans, enums, strings, bytes, array elements and whole
      arrays. `Wipe`: the string and the gated record `clear()`. `Update`: `copy_from` of a patch,
      on a record or on the selected variant of a payload. `Replace`: `OptionMut::set`. */
  datatype Op = Assign(v: Value) | Wipe | Update(p: Patch) | Replace(v: Value)

  /** One operation reached by navigating from the root: each index names a field or an element.
      An option is entered when it is present, a payload through the variant its tag selects. */
  datatype Call = Call(path: seq<nat>, op: Op)

  /** The span after an operation on the capability of the span itself. A rejected source, and an
      operation the capability does not have, change nothing. */
  function Here(s: Schema, b: seq<Byte>, op: Op): (r: seq<Byte>)
    requires Wf(s) && |b| == s.Size() && Valid(s, b)
    ensures |r| == |b|
  {
    match op
    case Assign(v) => if Fits(s, v) then Encode(s, b, v) else b
    case Wipe =>
      if s.Atom? && (s.leaf.Text? || s.leaf.CText?) then Zeros(|b|)
      else if s.Record? && Clearable(s) then Zeros(|b|)
      else b
    case Update(p) => if TypedPatch(s, p) && Accepts(s, Decode(s, b), p) then Patched(s, false, b, p) else b
    case Replace(_) => b
  }

  /** `OptionMut::set`. */
  function HereOption(kind: Kind, x: seq<Byte>, v: Value): (y: seq<Byte>)
    requires WfKind(kind) && kind.Optional? && Room(kind, |x|)
    ensures |y| == |x|
  {
    if FitsKind(kind, v) then EncodeKind(kind, x, v) else x
  }

  /** `copy_from` on a selected payload: only the selected variant may be patched. */
  function HerePayload(kind: Kind, d: nat, x: seq<Byte>, p: Patch): (y: seq<Byte>)
    requires WfKind(kind) && kind.Payload? && Room(kind, |x|) && ValidKind(kind, d, x)
    ensures |y| == |x|
  {
    var j := Pick(kind.arms, d);
    if p.Choose? && p.pick == j && kind.arms[j].Newtype? then
      var c := kind.arms[j].s;
      Over(x, Here(c, x[..c.Size()], Update(p.p)))
    else x
  }

  /** The span after a call. A tag sibling has no mutator. */
  function Exec(s: Schema, b: seq<Byte>, path: seq<nat>, op: Op): (r: seq<Byte>)
    requires Wf(s) && |b| == s.Size() && Valid(s, b)
    ensures |r| == |b|
    decreases s, 1
  {
    if path == [] then Here(s, b, op)
    else if path[0] < s.Count() && !IsTag(s, path[0]) then
      Splice(b, KidOff(s, path[0]), ExecKid(s, b, path[0], path[1..], op))
    else b
  }

  function KidOff(s: Schema, k: nat): (o: nat)
    requires Wf(s) && k < s.Count()
    ensures o == s.Off(k) && o + s.Len(k) <= s.Size()
  {
    WfKid(s, k);
    s.Off(k)
  }

  function ExecKid(s: Schema, b: seq<Byte>, k: nat, path: seq<nat>, op: Op): (y: seq<Byte>)
    requires Wf(s) && |b| == s.Size() && Valid(s, b) && k < s.Count()
    ensures |y| == s.Len(k)
    decreases s, 0
  {
    KidDecoded(s, b, k);
    ExecKind(s.KindOf(k), Tag(s, b, k), Part(s, b, k), path, op)
  }

  function ExecKind(kind: Kind, d: nat, x: seq<Byte>, path: seq<nat>, op: Op): (y: seq<Byte>)
    requires WfKind(kind) && Room(kind, |x|) && ValidKind(kind, d, x)
    ensures |y| == |x|
    decreases kind, 0
  {
    match kind
    case Own(s) => Over(x, Exec(s, x[..s.Size()], path, op))
    case Optional(s) =>
      if path == [] && op.Replace? then HereOption(kind, x, op.v)
      else if AllZero(x) then x
      else Over(x, Exec(s, x[..s.Size()], path, op))
    case Payload(_, arms) =>
      var j := Pick(arms, d);
      if path == [] && op.Update? then HerePayload(kind, d, x, op.p)
      else if arms[j].Unit? then x
      else Over(x, Exec(arms[j].s, x[..arms[j].s.Size()], path, op))
  }

  /** Every operation of a capability keeps its span valid. */
  lemma HereKeepsValid(s: Schema, b: seq<Byte>, op: Op)
    requires Wf(s) && |b| == s.Size() && Valid(s, b)
    ensures Valid(s, Here(s, b, op))
  {
    match op
    case Assign(v) => if Fits(s, v) { EncodeThenDecode(s, b, v); }
    case Wipe =>
      if s.Atom? { LeafZero(s.leaf, Zeros(|b|)); }
      if s.Record? && Clearable(s) { ClearKeepsValid(s); }
    case Update(p) =>
      if TypedPatch(s, p) && Accepts(s, Decode(s, b), p) {
        LiveFits(s, false, b, p);
        EncodeThenDecode(s, b, Apply(s, Decode(s, b), p));
      }
    case Replace(_) =>
  }

  /** Replacing the bytes of a child that is not a tag changes no tag. */
  lemma TagsKept(s: Schema, b: seq<Byte>, k: nat, y: seq<Byte>, j: nat)
    requires Wf(s) && |b| == s.Size() && k < s.Count() && !IsTag(s, k) && |y| == s.Len(k) && j < s.Count()
    ensures KidOff(s, k) + |y| <= |b| && s.Framed()
    ensures Tag(s, Splice(b, KidOff(s, k), y), j) == Tag(s, b, j)
    ensures Part(s, Splice(b, KidOff(s, k), y), j) == if j == k then y else Part(s, b, j)
  {
    hide Splice, Load, WfKind;
    WfKid(s, j);
    PartSplice(s, b, k, y);
    if s.KindOf(j).Payload? { PayerOf(s, j); }
  }

  /** Replacing one child's bytes by bytes valid under the same tag keeps the whole record valid and
      changes that child's value alone, unless the child is itself a tag. */
  lemma KidKeepsValid(s: Schema, b: seq<Byte>, k: nat, y: seq<Byte>)
    requires Wf(s) && |b| == s.Size() && Valid(s, b) && k < s.Count() && !IsTag(s, k) && |y| == s.Len(k)
    requires WfKind(s.KindOf(k)) && Room(s.KindOf(k), s.Len(k)) && ValidKind(s.KindOf(k), Tag(s, b, k), y)
    ensures KidOff(s, k) + |y| <= |b| && Valid(s, Splice(b, KidOff(s, k), y))
    ensures Decode(s, Splice(b, KidOff(s, k), y))
      == Node(Decode(s, b).kids[k := DecodeKind(s.KindOf(k), Tag(s, b, k), y)])
  {
    hide Splice, Load, ValidKind, DecodeKind, WfKind, Tag, Part, Wf;
    var r := Splice(b, KidOff(s, k), y);
    forall j | 0 <= j < s.Count() ensures ValidKid(s, r, j) {
      TagsKept(s, b, k, y, j);
      assert ValidKid(s, b, j);
    }
    forall j | 0 <= j < s.Count()
      ensures Decode(s, r).kids[j] == if j == k then DecodeKind(s.KindOf(k), Tag(s, b, k), y) else Decode(s, b).kids[j]
    {
      TagsKept(s, b, k, y, j);
      KidDecoded(s, r, j);
      KidDecoded(s, b, j);
    }
  }

  /** Every call at every depth keeps the whole root valid. */
  lemma {:induction false} ExecKeepsValid(s: Schema, b: seq<Byte>, path: seq<nat>, op: Op)
    requires Wf(s) && |b| == s.Size() && Valid(s, b)
    ensures Valid(s, Exec(s, b, path, op))
    decreases s, 1
  {
    if path == [] {
      HereKeepsValid(s, b, op);
    } else if path[0] < s.Count() && !IsTag(s, path[0]) {
      KidDecoded(s, b, path[0]);
      ExecKindKeepsValid(s.KindOf(path[0]), Tag(s, b, path[0]), Part(s, b, path[0]), path[1..], op);
      KidKeepsValid(s, b, path[0], ExecKid(s, b, path[0], path[1..], op));
    }
  }

  lemma {:induction false} ExecKindKeepsValid(kind: Kind, d: nat, x: seq<Byte>, path: seq<nat>, op: Op)
    requires WfKind(kind) && Room(kind, |x|) && ValidKind(kind, d, x)
    ensures ValidKind(kind, d, ExecKind(kind, d, x, path, op))
    decreases kind, 0
  {
    match kind
    case Own(s) => ExecKeepsValid(s, x[..s.Size()], path, op);
    case Optional(s) =>
      if path == [] && op.Replace? {
        if FitsKind(kind, op.v) { EncodeThenDecodeKind(kind, d, x, op.v); }
      } else if !AllZero(x) {
        ExecKeepsValid(s, x[..s.Size()], path, op);
      }
    case Payload(_, arms) =>
      var j := Pick(arms, d);
      if arms[j].Newtype? {
        if path == [] && op.Update? && op.p.Choose? {
          HereKeepsValid(arms[j].s, x[..arms[j].s.Size()], Update(op.p.p));
        }
        ExecKeepsValid(arms[j].s, x[..arms[j].s.Size()], path, op);
      }
  }

  /** The contents after a run of calls. */
  function Run(s: Schema, b: seq<Byte>, calls: seq<Call>): (r: seq<Byte>)
    requires Wf(s) && |b| == s.Size() && Valid(s, b)
    ensures |r| == |b| && Valid(s, r)
    decreases |calls|
  {
    if calls == [] then b
    else
      ExecKeepsValid(s, b, calls[0].path, calls[0].op);
      Run(s, Exec(s, b, calls[0].path, calls[0].op), calls[1..])
  }

  // ----- the same calls on logical values -----

  function HereValue(s: Schema, v: Value, op: Op): Value
    requires Wf(s)
  {
    match op
    case Assign(w) => if Fits(s, w) then w else v
    case Wipe =>
      if s.Atom? && (s.leaf.Text? || s.leaf.CText?) then Leaf(Chars([]))
      else if s.Record? && Clearable(s) then ClearKeepsValid(s); Decode(s, Zeros(s.Size()))
      else v
    case Update(p) => if TypedPatch(s, p) && Accepts(s, v, p) then Apply(s, v, p) else v
    case Replace(_) => v
  }

  function ExecValue(s: Schema, v: Value, path: seq<nat>, op: Op): Value
    requires Wf(s)
    decreases s, 1
  {
    if path == [] then HereValue(s, v, op)
    else if path[0] < s.Count() && !IsTag(s, path[0]) && v.Node? && path[0] < |v.kids| then
      WfKid(s, path[0]);
      Node(v.kids[path[0] := ExecValueKind(s.KindOf(path[0]), v.kids[path[0]], path[1..], op)])
    else v
  }

  function ExecValueKind(kind: Kind, v: Value, path: seq<nat>, op: Op): Value
    requires WfKind(kind)
    decreases kind, 0
  {
    match kind
    case Own(s) => ExecValue(s, v, path, op)
    case Optional(s) =>
      if path == [] && op.Replace? then (if FitsKind(kind, op.v) then op.v else v)
      else if v.Just? then Just(ExecValue(s, v.w, path, op))
      else v
    case Payload(_, arms) =>
      if v.Case? && v.pick < |arms| && arms[v.pick].Newtype? then
        var c := arms[v.pick].s;
        if path == [] && op.Update? then
          if op.p.Choose? && op.p.pick == v.pick then Case(v.pick, HereValue(c, v.body, Update(op.p.p))) else v
        else Case(v.pick, ExecValue(c, v.body, path, op))
      else v
  }

  lemma HereRefines(s: Schema, b: seq<Byte>, op: Op)
    requires Wf(s) && |b| == s.Size() && Valid(s, b)
    ensures Valid(s, Here(s, b, op))
    ensures Decode(s, Here(s, b, op)) == HereValue(s, Decode(s, b), op)
  {
    HereKeepsValid(s, b, op);
    match op
    case Assign(v) => if Fits(s, v) { EncodeThenDecode(s, b, v); }
    case Wipe => if s.Atom? && (s.leaf.Text? || s.leaf.CText?) { ZeroText(s.leaf, Zeros(|b|)); }
    case Update(p) =>
      if TypedPatch(s, p) && Accepts(s, Decode(s, b), p) {
        LiveFits(s, false, b, p);
        EncodeThenDecode(s, b, Apply(s, Decode(s, b), p));
      }
    case Replace(_) =>
  }

  /** Zeroed string storage is the empty string. */
  lemma ZeroText(l: LeafType, x: seq<Byte>)
    requires LeafWf(l) && |x| == LeafSize(l) && AllZero(x) && (l.Text? || l.CText?)
    ensures LeafValid(l, x) && LeafDecode(l, x) == Chars([])
  {
    hide Utf8, AlignUp;
    LeafZero(l, x);
    if l.Text? {
      LoadZero(l.prefix.order, x[..l.prefix.width]);
    } else {
      LoadZero(l.units.AsWire().order, x[..l.units.Width()]);
    }
  }

  /** A call on the bytes is the call on the logical value. */
  lemma {:induction false} ExecRefines(s: Schema, b: seq<Byte>, path: seq<nat>, op: Op)
    requires Wf(s) && |b| == s.Size() && Valid(s, b)
    ensures Valid(s, Exec(s, b, path, op))
    ensures Decode(s, Exec(s, b, path, op)) == ExecValue(s, Decode(s, b), path, op)
    decreases s, 1
  {
    ExecKeepsValid(s, b, path, op);
    if path == [] {
      HereRefines(s, b, op);
    } else if path[0] < s.Count() && !IsTag(s, path[0]) {
      var k := path[0];
      KidDecoded(s, b, k);
      ExecKindKeepsValid(s.KindOf(k), Tag(s, b, k), Part(s, b, k), path[1..], op);
      ExecKindRefines(s.KindOf(k), Tag(s, b, k), Part(s, b, k), path[1..], op);
      KidKeepsValid(s, b, k, ExecKid(s, b, k, path[1..], op));
    }
  }

  lemma {:induction false} ExecKindRefines(kind: Kind, d: nat, x: seq<Byte>, path: seq<nat>, op: Op)
    requires WfKind(kind) && Room(kind, |x|) && ValidKind(kind, d, x)
    ensures ValidKind(kind, d, ExecKind(kind, d, x, path, op))
    ensures DecodeKind(kind, d, ExecKind(kind, d, x, path, op)) == ExecValueKind(kind, DecodeKind(kind, d, x), path, op)
    decreases kind, 0
  {
    ExecKindKeepsValid(kind, d, x, path, op);
    match kind
    case Own(s) => ExecRefines(s, x[..s.Size()], path, op);
    case Optional(s) =>
      if path == [] && op.Replace? {
        if FitsKind(kind, op.v) { EncodeThenDecodeKind(kind, d, x, op.v); }
      } else if !AllZero(x) {
        ExecRefines(s, x[..s.Size()], path, op);
        PresenceKept(s, d, x, path, op);
      }
    case Payload(_, arms) =>
      var j := Pick(arms, d);
      if arms[j].Newtype? {
        if path == [] && op.Update? && op.p.Choose? { HereRefines(arms[j].s, x[..arms[j].s.Size()], Update(op.p.p)); }
        ExecRefines(arms[j].s, x[..arms[j].s.Size()], path, op);
      }
  }

  function RunValue(s: Schema, v: Value, calls: seq<Call>): Value
    requires Wf(s)
    decreases |calls|
  {
    if calls == [] then v else RunValue(s, ExecValue(s, v, calls[0].path, calls[0].op), calls[1..])
  }

  /** Every run keeps the root valid, so a fresh access succeeds, and what that access reads is the
      run on logical values: bytes outside the logical value never influence it. */
  lemma {:induction false} RunRefines(s: Schema, b: seq<Byte>, calls: seq<Call>)
    requires Wf(s) && |b| == s.Size() && Valid(s, b)
    ensures Valid(s, Run(s, b, calls))
    ensures Decode(s, Run(s, b, calls)) == RunValue(s, Decode(s, b), calls)
    decreases |calls|
  {
    if calls != [] {
      ExecRefines(s, b, calls[0].path, calls[0].op);
      RunRefines(s, Exec(s, b, calls[0].path, calls[0].op), calls[1..]);
    }
  }

  /** No mutation reached through a present option makes it absent, and none through an absent option
      makes it present: only `OptionMut::set` and a patch of the enclosing record change presence. */
  lemma PresenceKept(s: Schema, d: nat, x: seq<Byte>, path: seq<nat>, op: Op)
    requires WfKind(Optional(s)) && s.Size() <= |x| && ValidKind(Optional(s), d, x)
    requires path != [] || !op.Replace?
    ensures AllZero(ExecKind(Optional(s), d, x, path, op)) <==> AllZero(x)
  {
    if !AllZero(x) {
      ExecKeepsValid(s, x[..s.Size()], path, op);
      ValidNotZero(s, Exec(s, x[..s.Size()], path, op));
      PresentOver(x, Exec(s, x[..s.Size()], path, op));
    }
  }

  /** Presence is decided by the complete storage: all zero is absent, and zeroed value bytes beside a stray
      padding byte are neither absent nor a value. */
  lemma StrayPadding(s: Schema, d: nat, x: seq<Byte>)
    requires WfKind(Optional(s)) && s.Size() <= |x|
    ensures AllZero(x) ==> ValidKind(Optional(s), d, x) && DecodeKind(Optional(s), d, x) == Nothing
    ensures !AllZero(x) && AllZero(x[..s.Size()]) ==> !ValidKind(Optional(s), d, x)
    ensures !AllZero(x) && ValidKind(Optional(s), d, x) ==> DecodeKind(Optional(s), d, x).Just?
  {
    if !AllZero(x) && ValidKind(Optional(s), d, x) { ValidNotZero(s, x[..s.Size()]); }
  }

  /** `set` then `get`: `None` reads back absent, and every value that fits reads back present and
      unchanged, whatever the storage and its local padding held. */
  lemma SetThenGet(s: Schema, d: nat, x: seq<Byte>, v: Value)
    requires WfKind(Optional(s)) && s.Size() <= |x| && FitsKind(Optional(s), v)
    ensures ValidKind(Optional(s), d, HereOption(Optional(s), x, v))
    ensures DecodeKind(Optional(s), d, HereOption(Optional(s), x, v)) == v
    ensures v.Nothing? <==> AllZero(HereOption(Optional(s), x, v))
  {
    EncodeThenDecodeKind(Optional(s), d, x, v);
  }
}
