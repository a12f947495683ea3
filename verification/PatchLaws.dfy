/** What the preflight pass decides and what an accepted patch means. */
module PatchLaws {
  import opened Bytes
  import opened Schemas
  import opened Codec
  import opened RoundTrip
  import opened Patches

  // ----- preflight decides exactly what fits -----

  /** A logical source passes preflight exactly when it has a representation, over a live value
      and over garbage alike. */
  lemma {:induction false} PreflightValueExact(s: Schema, init: bool, b: seq<Byte>, v: Value)
    requires Wf(s) && |b| == s.Size() && Typed(s, v) && (init || Valid(s, b))
    ensures PreflightValue(s, init, b, v) <==> Fits(s, v)
    decreases s, 1
  {
    if !s.Atom? {
      forall k | 0 <= k < s.Count() && !IsTag(s, k)
        ensures PreflightValueKid(s, init, b, v, k) <==> FitsKind(s.KindOf(k), v.kids[k]) && Coupled(s, v, k)
      {
        PreflightValueKidExact(s, init, b, v, k);
      }
      forall t | 0 <= t < s.Count() && IsTag(s, t)
        ensures FitsKind(s.KindOf(t), v.kids[t]) && Coupled(s, v, t)
      {
        PayerOf(s, Payer(s.fields, t));
        assert TypedKind(s.KindOf(t), v.kids[t]) && Typed(s.KindOf(t).s, v.kids[t]);
      }
    }
  }

  lemma {:induction false} PreflightValueKidExact(s: Schema, init: bool, b: seq<Byte>, v: Value, k: nat)
    requires Wf(s) && !s.Atom? && |b| == s.Size() && Typed(s, v) && (init || Valid(s, b)) && k < s.Count()
    ensures PreflightValueKid(s, init, b, v, k) <==> FitsKind(s.KindOf(k), v.kids[k]) && Coupled(s, v, k)
    decreases s, 0
  {
    WfKid(s, k);
    if !init { KidDecoded(s, b, k); }
    var x, w := Part(s, b, k), v.kids[k];
    assert TypedKind(s.KindOf(k), w);
    match s.KindOf(k)
    case Own(c) => PreflightValueExact(c, init, x[..c.Size()], w);
    case Optional(c) => if w.Just? { PreflightValueExact(c, true, x[..c.Size()], w.w); }
    case Payload(t, arms) =>
      if !init { KidDecoded(s, b, t); }
      if arms[w.pick].Newtype? {
        var c := arms[w.pick].s;
        PickOwn(arms, w.pick);
        PreflightValueExact(c, init || Tag(s, b, k) != arms[w.pick].disc, x[..c.Size()], w.body);
      }
  }

  /** Preflight accepts exactly the sources that have a representation. */
  lemma PreflightIffRepresentable(s: Schema, init: bool, b: seq<Byte>, v: Value)
    requires Wf(s) && |b| == s.Size() && Typed(s, v) && (init || Valid(s, b))
    ensures PreflightValue(s, init, b, v) <==> Representable(s, v)
  {
    PreflightValueExact(s, init, b, v);
    FitsIffRepresentable(s, v);
  }

  lemma PickOwn(arms: seq<Arm>, j: nat)
    requires DistinctArms(arms) && j < |arms|
    ensures Pick(arms, arms[j].disc) == j
  {}

  /** The live value a span holds for the pass: none when the pass initialises. */
  function Live(s: Schema, init: bool, b: seq<Byte>): Value
    requires Wf(s) && |b| == s.Size() && (init || Valid(s, b))
  {
    if init then Nothing else Decode(s, b)
  }

  /** The pass over bytes decides what the meaning over values accepts: the current tag and the
      scan of an option's storage are the live variant and the live presence. */
  lemma {:induction false} PreflightExact(s: Schema, init: bool, b: seq<Byte>, p: Patch)
    requires Wf(s) && |b| == s.Size() && TypedPatch(s, p) && (init || Valid(s, b))
    ensures Preflight(s, init, b, p) <==> Accepts(s, Live(s, init, b), p)
    decreases s, 1
  {
    match p
    case Put(v) => PreflightValueExact(s, init, b, v);
    case Fields(kids) =>
      var cur := Live(s, init, b);
      forall k | 0 <= k < s.Count() && !IsTag(s, k)
        ensures PreflightKid(s, init, b, p, k) <==>
          AcceptsKind(s.KindOf(k), Kid(cur, k), kids[k]) && TagAgrees(s, kids, k)
      {
        PreflightKidExact(s, init, b, p, k);
      }
    case _ =>
  }

  lemma {:induction false} PreflightKidExact(s: Schema, init: bool, b: seq<Byte>, p: Patch, k: nat)
    requires Wf(s) && s.Record? && |b| == s.Size() && p.Fields? && TypedPatch(s, p) && k < s.Count()
    requires init || Valid(s, b)
    ensures PreflightKid(s, init, b, p, k) <==>
      AcceptsKind(s.KindOf(k), Kid(Live(s, init, b), k), p.kids[k]) && TagAgrees(s, p.kids, k)
    decreases s, 0
  {
    WfKid(s, k);
    if !init { KidDecoded(s, b, k); }
    var x, q, cur := Part(s, b, k), p.kids[k], Kid(Live(s, init, b), k);
    assert TypedPatchKind(s.KindOf(k), q);
    match s.KindOf(k)
    case Own(c) => PreflightExact(c, init, x[..c.Size()], q);
    case Optional(c) => if q.SetSome? { PreflightExact(c, init || AllZero(x), x[..c.Size()], q.p); }
    case Payload(t, arms) =>
      assert TypedPatchKind(s.KindOf(t), p.kids[t]);
      if !init { KidDecoded(s, b, t); }
      if q.Choose? && arms[q.pick].Newtype? {
        var c := arms[q.pick].s;
        PickOwn(arms, q.pick);
        PreflightExact(c, init || Tag(s, b, k) != arms[q.pick].disc, x[..c.Size()], q.p);
      }
  }

  // ----- a complete patch has one meaning -----

  /** The meaning of a complete patch does not depend on what was there. */
  lemma {:induction false} CompleteIgnores(s: Schema, c1: Value, c2: Value, p: Patch)
    requires Wf(s) && Complete(s, p)
    ensures Apply(s, c1, p) == Apply(s, c2, p)
    decreases s, 1
  {
    hide Wf, WfKind, ApplyKind;
    if s.Record? {
      forall k | 0 <= k < s.Count()
        ensures ApplyKid(s, c1, p.kids, k) == ApplyKid(s, c2, p.kids, k)
      {
        WfKid(s, k);
        assert CompleteKind(s.KindOf(k), p.kids[k]);
        if IsTag(s, k) {
          assert CompleteKind(s.KindOf(Payer(s.fields, k)), p.kids[Payer(s.fields, k)]);
        } else {
          CompleteIgnoresKind(s.KindOf(k), Kid(c1, k), Kid(c2, k), p.kids[k]);
        }
      }
      assert Apply(s, c1, p).kids == Apply(s, c2, p).kids;
    }
  }

  lemma {:induction false} CompleteIgnoresKind(kind: Kind, c1: Value, c2: Value, p: Patch)
    requires WfKind(kind) && CompleteKind(kind, p)
    ensures ApplyKind(kind, c1, p) == ApplyKind(kind, c2, p)
    decreases kind, 0
  {
    match kind
    case Own(s) => CompleteIgnores(s, c1, c2, p);
    case Optional(s) => if p.SetSome? { CompleteIgnores(s, Inner(c1), Inner(c2), p.p); }
    case Payload(_, arms) =>
      if arms[p.pick].Newtype? { CompleteIgnores(arms[p.pick].s, Chosen(c1, p.pick), Chosen(c2, p.pick), p.p); }
  }

  /** Nor does its acceptance. */
  lemma {:induction false} CompleteAccepts(s: Schema, c1: Value, c2: Value, p: Patch)
    requires Wf(s) && Complete(s, p)
    ensures Accepts(s, c1, p) <==> Accepts(s, c2, p)
    decreases s, 1
  {
    hide Wf, WfKind;
    if s.Record? {
      forall k | 0 <= k < s.Count()
        ensures AcceptsKind(s.KindOf(k), Kid(c1, k), p.kids[k]) <==> AcceptsKind(s.KindOf(k), Kid(c2, k), p.kids[k])
      {
        WfKid(s, k);
        assert CompleteKind(s.KindOf(k), p.kids[k]);
        CompleteAcceptsKind(s.KindOf(k), Kid(c1, k), Kid(c2, k), p.kids[k]);
      }
    }
  }

  lemma {:induction false} CompleteAcceptsKind(kind: Kind, c1: Value, c2: Value, p: Patch)
    requires WfKind(kind) && CompleteKind(kind, p)
    ensures AcceptsKind(kind, c1, p) <==> AcceptsKind(kind, c2, p)
    decreases kind, 0
  {
    match kind
    case Own(s) => CompleteAccepts(s, c1, c2, p);
    case Optional(s) => if p.SetSome? { CompleteAccepts(s, Inner(c1), Inner(c2), p.p); }
    case Payload(_, arms) =>
      if arms[p.pick].Newtype? { CompleteAccepts(arms[p.pick].s, Chosen(c1, p.pick), Chosen(c2, p.pick), p.p); }
  }

  // ----- an accepted patch keeps the value representable -----

  /** Every accepted patch, over a value that fits or over nothing when it is complete, gives a
      value that fits: tags still name their variants and every string fits. */
  lemma {:induction false} AcceptedFits(s: Schema, cur: Value, p: Patch)
    requires Wf(s) && TypedPatch(s, p) && Accepts(s, cur, p)
    requires Fits(s, cur) || Complete(s, p)
    ensures Fits(s, Apply(s, cur, p))
    decreases s, 1
  {
    if p.Fields? {
      var r := Apply(s, cur, p);
      forall k | 0 <= k < s.Count()
        ensures FitsKind(s.KindOf(k), r.kids[k]) && Coupled(s, r, k)
      {
        AcceptedFitsKid(s, cur, p, k);
      }
    }
  }

  lemma {:induction false} AcceptedFitsKid(s: Schema, cur: Value, p: Patch, k: nat)
    requires Wf(s) && p.Fields? && TypedPatch(s, p) && Accepts(s, cur, p) && k < s.Count()
    requires Fits(s, cur) || Complete(s, p)
    ensures FitsKind(s.KindOf(k), Apply(s, cur, p).kids[k]) && Coupled(s, Apply(s, cur, p), k)
    decreases s, 0
  {
    WfKid(s, k);
    var r := Apply(s, cur, p);
    assert TypedPatchKind(s.KindOf(k), p.kids[k]) && r.kids[k] == ApplyKid(s, cur, p.kids, k);
    if IsTag(s, k) {
      AppliedTagFits(s, cur, p, k);
    } else {
      if Fits(s, cur) { FitsKid(s, cur, k); } else { assert CompleteKind(s.KindOf(k), p.kids[k]); }
      AcceptedFitsKind(s.KindOf(k), Kid(cur, k), p.kids[k]);
      if s.KindOf(k).Payload? {
        PayerOf(s, k);
        assert r.kids[s.KindOf(k).tag] == ApplyKid(s, cur, p.kids, s.KindOf(k).tag);
      }
    }
  }

  /** A tag keeps naming a variant: its own when its payload is kept, the chosen one otherwise. */
  lemma AppliedTagFits(s: Schema, cur: Value, p: Patch, t: nat)
    requires Wf(s) && p.Fields? && TypedPatch(s, p) && t < s.Count() && IsTag(s, t)
    requires Fits(s, cur) || Complete(s, p)
    ensures FitsKind(s.KindOf(t), Apply(s, cur, p).kids[t]) && Coupled(s, Apply(s, cur, p), t)
  {
    hide ApplyKind, WfKind;
    var c := Payer(s.fields, t);
    PayerOf(s, c);
    WfKid(s, t);
    assert Apply(s, cur, p).kids[t] == ApplyKid(s, cur, p.kids, t);
    assert TypedPatchKind(s.KindOf(c), p.kids[c]);
    if Fits(s, cur) { FitsKid(s, cur, t); } else { assert CompleteKind(s.KindOf(c), p.kids[c]); }
  }

  lemma {:induction false} AcceptedFitsKind(kind: Kind, cur: Value, p: Patch)
    requires WfKind(kind) && TypedPatchKind(kind, p) && AcceptsKind(kind, cur, p)
    requires FitsKind(kind, cur) || CompleteKind(kind, p)
    ensures FitsKind(kind, ApplyKind(kind, cur, p))
    decreases kind, 0
  {
    match kind
    case Own(s) => if !p.Keep? { AcceptedFits(s, cur, p); }
    case Optional(s) => if p.SetSome? { AcceptedFits(s, Inner(cur), p.p); }
    case Payload(_, arms) =>
      if p.Choose? && arms[p.pick].Newtype? { AcceptedFits(arms[p.pick].s, Chosen(cur, p.pick), p.p); }
  }

  // ----- applying twice -----

  /** An accepted patch is accepted again by the value it made, and changes nothing then. */
  lemma {:induction false} ApplyTwice(s: Schema, cur: Value, p: Patch)
    requires Wf(s) && TypedPatch(s, p) && Accepts(s, cur, p)
    requires Fits(s, cur) || Complete(s, p)
    ensures Accepts(s, Apply(s, cur, p), p)
    ensures Apply(s, Apply(s, cur, p), p) == Apply(s, cur, p)
    decreases s, 1
  {
    if p.Fields? {
      var r := Apply(s, cur, p);
      forall k | 0 <= k < s.Count()
        ensures !IsTag(s, k) ==> AcceptsKind(s.KindOf(k), r.kids[k], p.kids[k])
        ensures ApplyKid(s, r, p.kids, k) == r.kids[k]
      {
        WfKid(s, k);
        assert TypedPatchKind(s.KindOf(k), p.kids[k]);
        if Fits(s, cur) {
          assert FitsKind(s.KindOf(k), cur.kids[k]);
        } else {
          assert CompleteKind(s.KindOf(k), p.kids[k]);
        }
        assert r.kids[k] == ApplyKid(s, cur, p.kids, k);
        if !IsTag(s, k) { ApplyTwiceKind(s.KindOf(k), Kid(cur, k), p.kids[k]); }
      }
      assert Apply(s, r, p).kids == r.kids;
    }
  }

  lemma {:induction false} ApplyTwiceKind(kind: Kind, cur: Value, p: Patch)
    requires WfKind(kind) && TypedPatchKind(kind, p) && AcceptsKind(kind, cur, p)
    requires FitsKind(kind, cur) || CompleteKind(kind, p)
    ensures AcceptsKind(kind, ApplyKind(kind, cur, p), p)
    ensures ApplyKind(kind, ApplyKind(kind, cur, p), p) == ApplyKind(kind, cur, p)
    decreases kind, 0
  {
    match kind
    case Own(s) => if !p.Keep? { ApplyTwice(s, cur, p); }
    case Optional(s) => if p.SetSome? { ApplyTwice(s, Inner(cur), p.p); }
    case Payload(_, arms) =>
      if p.Choose? && arms[p.pick].Newtype? { ApplyTwice(arms[p.pick].s, Chosen(cur, p.pick), p.p); }
  }

  // ----- a value as its complete patch -----

  /** `From<Logical>`: every entry present. */
  function FromValue(s: Schema, v: Value): Patch
    requires Typed(s, v)
    decreases s, 1
  {
    if s.Record? then Fields(seq(s.Count(), k requires 0 <= k < s.Count() =>
      assert TypedKind(s.KindOf(k), v.kids[k]); FromKind(s.KindOf(k), v.kids[k])))
    else Put(v)
  }

  function FromKind(kind: Kind, v: Value): Patch
    requires TypedKind(kind, v)
    decreases kind, 0
  {
    match kind
    case Own(s) => FromValue(s, v)
    case Optional(s) => if v.Nothing? then SetNone else SetSome(FromValue(s, v.w))
    case Payload(_, arms) => Choose(v.pick, if arms[v.pick].Unit? then Keep else FromValue(arms[v.pick].s, v.body))
  }

  /** The patch of a value is complete, is accepted exactly when the value fits, and means that
      value over anything. */
  lemma {:induction false} FromValueMeans(s: Schema, cur: Value, v: Value)
    requires Wf(s) && Typed(s, v)
    ensures TypedPatch(s, FromValue(s, v)) && Some(s, FromValue(s, v)) && Complete(s, FromValue(s, v))
    ensures Accepts(s, cur, FromValue(s, v)) <==> Fits(s, v)
    ensures Fits(s, v) ==> Apply(s, cur, FromValue(s, v)) == v
    decreases s, 1
  {
    if s.Record? {
      var p := FromValue(s, v);
      forall k | 0 <= k < s.Count()
        ensures TypedPatchKind(s.KindOf(k), p.kids[k]) && CompleteKind(s.KindOf(k), p.kids[k])
        ensures if IsTag(s, k) then FitsKind(s.KindOf(k), v.kids[k])
          else AcceptsKind(s.KindOf(k), Kid(cur, k), p.kids[k]) <==> FitsKind(s.KindOf(k), v.kids[k])
        ensures TagAgrees(s, p.kids, k) <==> Coupled(s, v, k)
        ensures Fits(s, v) ==> ApplyKid(s, cur, p.kids, k) == v.kids[k]
      {
        FromValueKid(s, cur, v, k);
      }
      if Fits(s, v) { assert Apply(s, cur, p).kids == v.kids; }
    }
  }

  lemma {:induction false} FromValueKid(s: Schema, cur: Value, v: Value, k: nat)
    requires Wf(s) && s.Record? && Typed(s, v) && k < s.Count()
    ensures var p := FromValue(s, v);
      && TypedPatchKind(s.KindOf(k), p.kids[k]) && CompleteKind(s.KindOf(k), p.kids[k])
      && (if IsTag(s, k) then FitsKind(s.KindOf(k), v.kids[k])
          else AcceptsKind(s.KindOf(k), Kid(cur, k), p.kids[k]) <==> FitsKind(s.KindOf(k), v.kids[k]))
      && (TagAgrees(s, p.kids, k) <==> Coupled(s, v, k))
      && (Fits(s, v) ==> ApplyKid(s, cur, p.kids, k) == v.kids[k])
    decreases s, 0
  {
    hide Wf, WfKind, Accepts, AcceptsKind, Complete, CompleteKind, TypedPatch, TypedPatchKind, ApplyKind;
    WfKid(s, k);
    var p := FromValue(s, v);
    assert TypedKind(s.KindOf(k), v.kids[k]) && p.kids[k] == FromKind(s.KindOf(k), v.kids[k]);
    FromKindMeans(s.KindOf(k), Kid(cur, k), v.kids[k]);
    if IsTag(s, k) {
      var c := Payer(s.fields, k);
      PayerOf(s, c);
      assert TypedKind(s.KindOf(c), v.kids[c]) && p.kids[c] == FromKind(s.KindOf(c), v.kids[c]);
      assert Typed(s.KindOf(k).s, v.kids[k]);
      if Fits(s, v) { assert Coupled(s, v, c); }
    }
    if s.KindOf(k).Payload? {
      PayerOf(s, k);
      var t := s.KindOf(k).tag;
      assert TypedKind(s.KindOf(t), v.kids[t]) && p.kids[t] == FromKind(s.KindOf(t), v.kids[t]) == Put(v.kids[t]);
    }
  }

  lemma {:induction false} FromKindMeans(kind: Kind, cur: Value, v: Value)
    requires WfKind(kind) && TypedKind(kind, v)
    ensures TypedPatchKind(kind, FromKind(kind, v)) && CompleteKind(kind, FromKind(kind, v))
    ensures AcceptsKind(kind, cur, FromKind(kind, v)) <==> FitsKind(kind, v)
    ensures FitsKind(kind, v) ==> ApplyKind(kind, cur, FromKind(kind, v)) == v
    decreases kind, 0
  {
    match kind
    case Own(s) => FromValueMeans(s, cur, v);
    case Optional(s) => if v.Just? { FromValueMeans(s, Inner(cur), v.w); }
    case Payload(_, arms) =>
      if arms[v.pick].Newtype? { FromValueMeans(arms[v.pick].s, Chosen(cur, v.pick), v.body); }
  }
}
