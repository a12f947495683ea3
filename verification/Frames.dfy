/** Which bytes a write may change. */
module Frames {
  import opened Bytes
  import opened Leaves
  import opened Schemas
  import opened Codec
  import opened RoundTrip
  import opened Patches
  import opened PatchLaws

  /** Byte `i` lies in the storage of child `k`. */
  predicate Within(s: Schema, k: nat, i: nat)
    requires k < s.Count()
  {
    s.Off(k) <= i < s.Off(k) + s.Len(k)
  }

  /** Byte `i` of the span is active in the value `v`. Padding, unused string capacity and
      storage of other variants are not; an absent option owns its whole storage. */
  predicate ActiveAt(s: Schema, v: Value, i: nat)
    requires Wf(s) && Fits(s, v)
    decreases s, 1
  {
    if s.Atom? then LeafActive(s.leaf, v.v, i)
    else exists k :: 0 <= k < s.Count() && Within(s, k, i) && ActiveKid(s, v, k, i - s.Off(k))
  }

  predicate ActiveKid(s: Schema, v: Value, k: nat, i: nat)
    requires Wf(s) && Fits(s, v) && k < s.Count()
    decreases s, 0
  {
    WfKid(s, k);
    ActiveKind(s.KindOf(k), v.kids[k], i)
  }

  predicate ActiveKind(kind: Kind, v: Value, i: nat)
    requires WfKind(kind) && FitsKind(kind, v)
  {
    match kind
    case Own(s) => i < s.Size() && ActiveAt(s, v, i)
    case Optional(s) => v.Nothing? || (i < s.Size() && ActiveAt(s, v.w, i))
    case Payload(_, arms) => arms[v.pick].Newtype? && i < arms[v.pick].s.Size() && ActiveAt(arms[v.pick].s, v.body, i)
  }

  /** A write changes active bytes only. */
  lemma {:induction false} EncodeFrame(s: Schema, b: seq<Byte>, v: Value, i: nat)
    requires Wf(s) && |b| == s.Size() && Fits(s, v) && i < |b| && !ActiveAt(s, v, i)
    ensures Encode(s, b, v)[i] == b[i]
    decreases s, 2
  {
    if s.Atom? {
      LeafFrame(s.leaf, b, v.v, i);
    } else if !Gap(s, i) {
      var k :| 0 <= k < s.Count() && Within(s, k, i);
      EncodeFrameKid(s, b, v, k, i);
    } else {
      EncodeParts(s, b, v);
    }
  }

  lemma {:induction false} EncodeFrameKid(s: Schema, b: seq<Byte>, v: Value, k: nat, i: nat)
    requires Wf(s) && !s.Atom? && |b| == s.Size() && Fits(s, v) && k < s.Count()
    requires i < |b| && Within(s, k, i) && !ActiveKid(s, v, k, i - s.Off(k))
    ensures Encode(s, b, v)[i] == b[i]
    decreases s, 1
  {
    hide Encode, EncodeKind, ActiveKind, Fits, FitsKind;
    WfKid(s, k);
    EncodeParts(s, b, v);
    PartByte(s, b, k, i);
    PartByte(s, Encode(s, b, v), k, i);
    assert FitsKind(s.KindOf(k), v.kids[k]) by { FitsKid(s, v, k); }
    EncodeFrameKind(s.KindOf(k), Part(s, b, k), v.kids[k], i - s.Off(k));
  }

  lemma {:induction false} EncodeFrameKind(kind: Kind, x: seq<Byte>, v: Value, i: nat)
    requires WfKind(kind) && Room(kind, |x|) && FitsKind(kind, v) && i < |x| && !ActiveKind(kind, v, i)
    ensures EncodeKind(kind, x, v)[i] == x[i]
    decreases kind, 0
  {
    match kind
    case Own(s) => if i < s.Size() { EncodeFrame(s, x[..s.Size()], v, i); }
    case Optional(s) => if i < s.Size() { EncodeFrame(s, x[..s.Size()], v.w, i); }
    case Payload(_, arms) =>
      if arms[v.pick].Newtype? && i < arms[v.pick].s.Size() {
        EncodeFrame(arms[v.pick].s, x[..arms[v.pick].s.Size()], v.body, i);
      }
  }

  // ----- the bytes a patch selects -----

  /** Byte `i` of the span is selected by the patch `p` over the live value `cur`: it is active in
      a value the patch supplies, or in the storage of an option it clears, or it is a byte of a
      tag whose payload it switches. */
  predicate Selected(s: Schema, cur: Value, p: Patch, i: nat)
    requires Wf(s) && TypedPatch(s, p) && Accepts(s, cur, p)
    decreases s, 1
  {
    match p
    case Put(v) => ActiveAt(s, v, i)
    case Fields(_) => exists k :: 0 <= k < s.Count() && Within(s, k, i) && SelectedKid(s, cur, p, k, i - s.Off(k))
    case _ => false
  }

  predicate SelectedKid(s: Schema, cur: Value, p: Patch, k: nat, i: nat)
    requires Wf(s) && p.Fields? && TypedPatch(s, p) && Accepts(s, cur, p) && k < s.Count()
    decreases s, 0
  {
    WfKid(s, k);
    assert TypedPatchKind(s.KindOf(k), p.kids[k]);
    if IsTag(s, k) then
      PayerOf(s, Payer(s.fields, k));
      i < s.KindOf(k).s.Size() && Switched(Kid(cur, Payer(s.fields, k)), p.kids[Payer(s.fields, k)])
    else SelectedKind(s.KindOf(k), Kid(cur, k), p.kids[k], i)
  }

  /** The patch entry moves its payload to another variant. */
  predicate Switched(cur: Value, q: Patch) {
    q.Choose? && !(cur.Case? && cur.pick == q.pick)
  }

  predicate SelectedKind(kind: Kind, cur: Value, p: Patch, i: nat)
    requires WfKind(kind) && TypedPatchKind(kind, p) && AcceptsKind(kind, cur, p)
  {
    if p.Keep? then false else
    match kind
    case Own(s) => i < s.Size() && Selected(s, cur, p, i)
    case Optional(s) => p.SetNone? || (i < s.Size() && Selected(s, Inner(cur), p.p, i))
    case Payload(_, arms) =>
      arms[p.pick].Newtype? && i < arms[p.pick].s.Size() && Selected(arms[p.pick].s, Chosen(cur, p.pick), p.p, i)
  }

  /** The span after the patch `p`. */
  function Patched(s: Schema, init: bool, b: seq<Byte>, p: Patch): (r: seq<Byte>)
    requires Wf(s) && |b| == s.Size() && TypedPatch(s, p)
    requires if init then Complete(s, p) else Valid(s, b)
    requires Accepts(s, Live(s, init, b), p)
    ensures |r| == |b|
  {
    LiveFits(s, init, b, p);
    Encode(s, b, Apply(s, Live(s, init, b), p))
  }

  lemma LiveFits(s: Schema, init: bool, b: seq<Byte>, p: Patch)
    requires Wf(s) && |b| == s.Size() && TypedPatch(s, p)
    requires if init then Complete(s, p) else Valid(s, b)
    requires Accepts(s, Live(s, init, b), p)
    ensures Fits(s, Apply(s, Live(s, init, b), p))
  {
    if !init { DecodeThenEncode(s, b); }
    AcceptedFits(s, Live(s, init, b), p);
  }

  /** A committed patch changes selected bytes only: padding, unused capacity, untouched fields and
      the storage of other variants keep every byte. */
  lemma {:induction false} PatchFrame(s: Schema, init: bool, b: seq<Byte>, p: Patch, i: nat)
    requires Wf(s) && |b| == s.Size() && TypedPatch(s, p) && i < |b|
    requires if init then Complete(s, p) else Valid(s, b)
    requires Accepts(s, Live(s, init, b), p) && !Selected(s, Live(s, init, b), p, i)
    ensures Patched(s, init, b, p)[i] == b[i]
    decreases s, 1
  {
    hide Wf, Fits, FitsKind, Valid, Decode, Encode, EncodeKind, AcceptsKind, ApplyKind, ActiveAt, SelectedKind,
      Complete, Accepts, TypedPatch;
    LiveFits(s, init, b, p);
    match p
    case Put(v) => EncodeFrame(s, b, v, i);
    case Fields(_) =>
      if Gap(s, i) {
        EncodeParts(s, b, Apply(s, Live(s, init, b), p));
      } else {
        var k :| 0 <= k < s.Count() && Within(s, k, i);
        PatchFrameKid(s, init, b, p, k, i - s.Off(k));
        KidByte(s, b, Apply(s, Live(s, init, b), p), k, i);
      }
    case _ => DecodeThenEncode(s, b);
  }

  lemma KidByte(s: Schema, b: seq<Byte>, v: Value, k: nat, i: nat)
    requires Wf(s) && !s.Atom? && |b| == s.Size() && Fits(s, v) && k < s.Count() && Within(s, k, i)
    ensures s.Framed() && i < |b|
    ensures EncodeKid(s, b, v, k)[i - s.Off(k)] == Encode(s, b, v)[i]
    ensures Part(s, b, k)[i - s.Off(k)] == b[i]
  {
    hide Encode, EncodeKind;
    EncodeParts(s, b, v);
    PartByte(s, b, k, i);
    PartByte(s, Encode(s, b, v), k, i);
  }

  lemma {:induction false} PatchFrameKid(s: Schema, init: bool, b: seq<Byte>, p: Patch, k: nat, i: nat)
    requires Wf(s) && |b| == s.Size() && p.Fields? && TypedPatch(s, p) && k < s.Count() && i < s.Len(k)
    requires if init then Complete(s, p) else Valid(s, b)
    requires Accepts(s, Live(s, init, b), p) && !SelectedKid(s, Live(s, init, b), p, k, i)
    ensures s.Framed() && Fits(s, Apply(s, Live(s, init, b), p))
    ensures EncodeKid(s, b, Apply(s, Live(s, init, b), p), k)[i] == Part(s, b, k)[i]
    decreases s, 0
  {
    LiveFits(s, init, b, p);
    WfKid(s, k);
    var cur, x, q := Live(s, init, b), Part(s, b, k), p.kids[k];
    assert Apply(s, cur, p).kids[k] == ApplyKid(s, cur, p.kids, k) && TypedPatchKind(s.KindOf(k), q);
    if init { assert CompleteKind(s.KindOf(k), q); } else { KidDecoded(s, b, k); }
    if IsTag(s, k) {
      PatchFrameTag(s, init, b, p, k, i);
    } else {
      if s.KindOf(k).Payload? { WfKid(s, k); }
      PatchFrameKind(s.KindOf(k), init, Tag(s, b, k), x, q, i);
    }
  }

  /** A tag whose payload is not switched keeps its bytes. */
  lemma PatchFrameTag(s: Schema, init: bool, b: seq<Byte>, p: Patch, t: nat, i: nat)
    requires Wf(s) && |b| == s.Size() && p.Fields? && TypedPatch(s, p) && t < s.Count() && i < s.Len(t)
    requires if init then Complete(s, p) else Valid(s, b)
    requires Accepts(s, Live(s, init, b), p) && IsTag(s, t) && !SelectedKid(s, Live(s, init, b), p, t, i)
    ensures s.Framed() && Fits(s, Apply(s, Live(s, init, b), p))
    ensures EncodeKid(s, b, Apply(s, Live(s, init, b), p), t)[i] == Part(s, b, t)[i]
  {
    hide Wf, WfKind, Valid, ValidKind, Decode, Encode, AcceptsKind, ActiveAt, SelectedKind, Fits, Room, Accepts;
    LiveFits(s, init, b, p);
    WfKid(s, t);
    var c := Payer(s.fields, t);
    PayerOf(s, c);
    assert TypedPatchKind(s.KindOf(c), p.kids[c]);
    assert Apply(s, Live(s, init, b), p).kids[t] == ApplyKid(s, Live(s, init, b), p.kids, t);
    if init {
      assert CompleteKind(s.KindOf(c), p.kids[c]);
    } else {
      KidDecoded(s, b, t);
      KidDecoded(s, b, c);
      DecodeCoupled(s, b, c);
      DecodeThenEncodeKind(s.KindOf(t), Tag(s, b, t), Part(s, b, t));
    }
  }

  /** The live value of one field storage. */
  function LiveKind(kind: Kind, init: bool, d: nat, x: seq<Byte>): Value
    requires WfKind(kind) && Room(kind, |x|) && (init || ValidKind(kind, d, x))
  {
    if init then Nothing else DecodeKind(kind, d, x)
  }

  lemma {:induction false} PatchFrameKind(kind: Kind, init: bool, d: nat, x: seq<Byte>, q: Patch, i: nat)
    requires WfKind(kind) && Room(kind, |x|) && TypedPatchKind(kind, q) && i < |x|
    requires if init then CompleteKind(kind, q) else ValidKind(kind, d, x)
    requires kind.Payload? ==> DistinctArms(kind.arms)
    requires AcceptsKind(kind, LiveKind(kind, init, d, x), q) && !SelectedKind(kind, LiveKind(kind, init, d, x), q, i)
    ensures FitsKind(kind, ApplyKind(kind, LiveKind(kind, init, d, x), q))
    ensures EncodeKind(kind, x, ApplyKind(kind, LiveKind(kind, init, d, x), q))[i] == x[i]
    decreases kind, 0
  {
    var cur := LiveKind(kind, init, d, x);
    if !init { DecodeThenEncodeKind(kind, d, x); }
    AcceptedFitsKind(kind, cur, q);
    if !q.Keep? {
      match kind
      case Own(c) => if i < c.Size() { PatchFrame(c, init, x[..c.Size()], q, i); }
      case Optional(c) => if i < c.Size() { PatchFrame(c, init || AllZero(x), x[..c.Size()], q.p, i); }
      case Payload(_, arms) =>
        if arms[q.pick].Newtype? && i < arms[q.pick].s.Size() {
          PickOwn(arms, q.pick);
          PatchFrame(arms[q.pick].s, init || d != arms[q.pick].disc, x[..arms[q.pick].s.Size()], q.p, i);
        }
    }
  }
}
