/** That the active bytes are the right ones: exactly those a write determines, and all that a patch
    may select. */
module Actives {
  import opened Bytes
  import opened Leaves
  import opened Schemas
  import opened Codec
  import opened Patches
  import opened PatchLaws
  import opened Frames

  /** An active byte is determined by the value, whatever was there before. */
  lemma {:induction false} EncodeActive(s: Schema, b: seq<Byte>, c: seq<Byte>, v: Value, i: nat)
    requires Wf(s) && |b| == |c| == s.Size() && Fits(s, v) && i < |b| && ActiveAt(s, v, i)
    ensures Encode(s, b, v)[i] == Encode(s, c, v)[i]
    decreases s, 2
  {
    if s.Atom? {
      ActiveByte(s.leaf, b, c, v.v, i);
    } else {
      var k :| 0 <= k < s.Count() && Within(s, k, i) && ActiveKid(s, v, k, i - s.Off(k));
      EncodeActiveKid(s, b, c, v, k, i);
    }
  }

  lemma {:induction false} EncodeActiveKid(s: Schema, b: seq<Byte>, c: seq<Byte>, v: Value, k: nat, i: nat)
    requires Wf(s) && !s.Atom? && |b| == |c| == s.Size() && Fits(s, v) && k < s.Count()
    requires i < |b| && Within(s, k, i) && ActiveKid(s, v, k, i - s.Off(k))
    ensures Encode(s, b, v)[i] == Encode(s, c, v)[i]
    decreases s, 1
  {
    hide Encode, EncodeKind, ActiveKind, Fits, FitsKind, Wf, WfKind;
    WfKid(s, k);
    assert FitsKind(s.KindOf(k), v.kids[k]) by { FitsKid(s, v, k); }
    KidByte(s, b, v, k, i);
    KidByte(s, c, v, k, i);
    EncodeActiveKind(s.KindOf(k), Part(s, b, k), Part(s, c, k), v.kids[k], i - s.Off(k));
  }

  lemma {:induction false} EncodeActiveKind(kind: Kind, x: seq<Byte>, y: seq<Byte>, v: Value, i: nat)
    requires WfKind(kind) && |x| == |y| && Room(kind, |x|) && FitsKind(kind, v) && i < |x| && ActiveKind(kind, v, i)
    ensures EncodeKind(kind, x, v)[i] == EncodeKind(kind, y, v)[i]
    decreases kind, 0
  {
    match kind
    case Own(s) => EncodeActive(s, x[..s.Size()], y[..s.Size()], v, i);
    case Optional(s) => if v.Just? { EncodeActive(s, x[..s.Size()], y[..s.Size()], v.w, i); }
    case Payload(_, arms) =>
      var c := arms[v.pick].s;
      EncodeActive(c, x[..c.Size()], y[..c.Size()], v.body, i);
  }

  /** A byte is active in a value exactly when writing the value determines it. */
  lemma ActiveExactly(s: Schema, v: Value, i: nat)
    requires Wf(s) && Fits(s, v) && i < s.Size()
    ensures ActiveAt(s, v, i) <==>
      forall b, c :: |b| == |c| == s.Size() ==> Encode(s, b, v)[i] == Encode(s, c, v)[i]
  {
    hide Wf, Fits, Encode, ActiveAt;
    if ActiveAt(s, v, i) {
      forall b: seq<Byte>, c: seq<Byte> | |b| == |c| == s.Size() ensures Encode(s, b, v)[i] == Encode(s, c, v)[i] {
        EncodeActive(s, b, c, v, i);
      }
    } else {
      var b := Zeros(s.Size());
      var c := b[i := 1];
      EncodeFrame(s, b, v, i);
      EncodeFrame(s, c, v, i);
      assert Encode(s, b, v)[i] != Encode(s, c, v)[i];
    }
  }

  /** A patch selects only bytes that are active in its result. */
  lemma {:induction false} SelectedActive(s: Schema, cur: Value, p: Patch, i: nat)
    requires Wf(s) && TypedPatch(s, p) && Accepts(s, cur, p) && (Fits(s, cur) || Complete(s, p)) &&
      Selected(s, cur, p, i)
    ensures Fits(s, Apply(s, cur, p)) && ActiveAt(s, Apply(s, cur, p), i)
    decreases s, 1
  {
    hide Fits, Accepts, TypedPatch, Complete, Wf;
    AcceptedFits(s, cur, p);
    if p.Fields? {
      var k :| 0 <= k < s.Count() && Within(s, k, i) && SelectedKid(s, cur, p, k, i - s.Off(k));
      SelectedActiveKid(s, cur, p, k, i - s.Off(k));
    }
  }

  lemma {:induction false} SelectedActiveKid(s: Schema, cur: Value, p: Patch, k: nat, i: nat)
    requires Wf(s) && p.Fields? && TypedPatch(s, p) && Accepts(s, cur, p) && (Fits(s, cur) || Complete(s, p))
    requires k < s.Count() && SelectedKid(s, cur, p, k, i)
    ensures Fits(s, Apply(s, cur, p)) && ActiveKid(s, Apply(s, cur, p), k, i) && !s.Atom?
    decreases s, 0
  {
    AcceptedFits(s, cur, p);
    WfKid(s, k);
    FitsKid(s, Apply(s, cur, p), k);
    assert TypedPatchKind(s.KindOf(k), p.kids[k]);
    assert Apply(s, cur, p).kids[k] == ApplyKid(s, cur, p.kids, k);
    if IsTag(s, k) {
      PayerOf(s, Payer(s.fields, k));
    } else {
      if Fits(s, cur) { FitsKid(s, cur, k); } else { assert CompleteKind(s.KindOf(k), p.kids[k]); }
      SelectedActiveKind(s.KindOf(k), Kid(cur, k), p.kids[k], i);
    }
  }

  lemma {:induction false} SelectedActiveKind(kind: Kind, cur: Value, p: Patch, i: nat)
    requires WfKind(kind) && TypedPatchKind(kind, p) && AcceptsKind(kind, cur, p) &&
      (FitsKind(kind, cur) || CompleteKind(kind, p))
    requires SelectedKind(kind, cur, p, i)
    ensures FitsKind(kind, ApplyKind(kind, cur, p)) && ActiveKind(kind, ApplyKind(kind, cur, p), i)
    decreases kind, 0
  {
    AcceptedFitsKind(kind, cur, p);
    match kind
    case Own(s) => SelectedActive(s, cur, p, i);
    case Optional(s) => if p.SetSome? { SelectedActive(s, Inner(cur), p.p, i); }
    case Payload(_, arms) => SelectedActive(arms[p.pick].s, Chosen(cur, p.pick), p.p, i);
  }
}
