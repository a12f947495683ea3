/** What completeness, acceptance and the meaning of a patch come to, each stated without the pass that
    computes it: a complete patch is a converted value, an accepted patch is one whose result fits, and the
    result is the patch laid over the converted live value. */
module PatchExact {
  import opened Leaves
  import opened Schemas
  import opened Codec
  import opened Patches
  import opened PatchLaws

  // ----- complete patches are converted values -----

  /** The value a complete patch was converted from. */
  function Source(s: Schema, p: Patch): (v: Value)
    requires TypedPatch(s, p) && Complete(s, p)
    ensures Typed(s, v)
    decreases s, 1
  {
    if s.Record? then
      var kids := seq(s.Count(), k requires 0 <= k < s.Count() =>
        assert TypedPatchKind(s.KindOf(k), p.kids[k]) && CompleteKind(s.KindOf(k), p.kids[k]);
        SourceKind(s.KindOf(k), p.kids[k]));
      Node(kids)
    else p.v
  }

  function SourceKind(kind: Kind, p: Patch): (v: Value)
    requires TypedPatchKind(kind, p) && CompleteKind(kind, p)
    ensures TypedKind(kind, v)
    decreases kind, 0
  {
    match kind
    case Own(s) => Source(s, p)
    case Optional(s) => if p.SetNone? then Nothing else Just(Source(s, p.p))
    case Payload(_, arms) => Case(p.pick, if arms[p.pick].Unit? then Nothing else Source(arms[p.pick].s, p.p))
  }

  lemma {:induction false} FromSource(s: Schema, p: Patch)
    requires TypedPatch(s, p) && Complete(s, p)
    ensures FromValue(s, Source(s, p)) == p
    decreases s, 1
  {
    if s.Record? {
      var q := FromValue(s, Source(s, p));
      forall k | 0 <= k < s.Count() ensures q.kids[k] == p.kids[k] {
        assert TypedPatchKind(s.KindOf(k), p.kids[k]) && CompleteKind(s.KindOf(k), p.kids[k]);
        FromSourceKind(s.KindOf(k), p.kids[k]);
      }
      assert q.kids == p.kids;
    }
  }

  lemma {:induction false} FromSourceKind(kind: Kind, p: Patch)
    requires TypedPatchKind(kind, p) && CompleteKind(kind, p)
    ensures FromKind(kind, SourceKind(kind, p)) == p
    decreases kind, 0
  {
    match kind
    case Own(s) => FromSource(s, p);
    case Optional(s) => if p.SetSome? { FromSource(s, p.p); }
    case Payload(_, arms) => if arms[p.pick].Newtype? { FromSource(arms[p.pick].s, p.p); }
  }

  /** `is_complete` holds of the converted values and of nothing else: no entry at any depth may be absent,
      tag siblings included. */
  lemma CompleteExactly(s: Schema, p: Patch)
    requires Wf(s) && TypedPatch(s, p)
    ensures Complete(s, p) <==> exists v :: Typed(s, v) && p == FromValue(s, v)
  {
    if Complete(s, p) { FromSource(s, p); }
    forall v | Typed(s, v) && p == FromValue(s, v) ensures Complete(s, p) { FromValueMeans(s, Nothing, v); }
  }

  /** An accepted complete patch means the value it was converted from. */
  lemma CompleteMeans(s: Schema, cur: Value, p: Patch)
    requires Wf(s) && TypedPatch(s, p) && Complete(s, p) && Accepts(s, cur, p)
    ensures Fits(s, Apply(s, cur, p)) && Typed(s, Apply(s, cur, p)) && FromValue(s, Apply(s, cur, p)) == p
  {
    FromSource(s, p);
    FromValueMeans(s, cur, Source(s, p));
  }

  // ----- accepted patches are those whose result fits -----

  /** The tag entry of payload `k` is absent, or stands with a chosen variant and is the tag of the result. */
  predicate TagGiven(s: Schema, r: Value, kids: seq<Patch>, k: nat)
    requires k < s.Count() && k < |kids|
  {
    s.KindOf(k).Payload? && s.KindOf(k).tag < |kids| ==>
      var t := s.KindOf(k).tag; kids[t].Keep? || (kids[k].Choose? && kids[t] == Put(Kid(r, t)))
  }

  /** The same at every depth of the patch. */
  predicate TagsGiven(s: Schema, r: Value, p: Patch) {
    p.Fields? ==>
      forall k :: 0 <= k < s.Count() && k < |p.kids| && !IsTag(s, k) ==>
        TagGiven(s, r, p.kids, k) && TagsGivenKind(s.KindOf(k), Kid(r, k), p.kids[k])
  }

  predicate TagsGivenKind(kind: Kind, r: Value, p: Patch) {
    match kind
    case Own(s) => TagsGiven(s, r, p)
    case Optional(s) => p.SetSome? ==> TagsGiven(s, Inner(r), p.p)
    case Payload(_, arms) =>
      p.Choose? && p.pick < |arms| && arms[p.pick].Newtype? ==> TagsGiven(arms[p.pick].s, Chosen(r, p.pick), p.p)
  }

  /** No incomplete patch stands over an absent option or over another variant, at any depth. */
  predicate Grounded(s: Schema, cur: Value, p: Patch) {
    p.Fields? ==>
      forall k :: 0 <= k < s.Count() && k < |p.kids| ==> GroundedKind(s.KindOf(k), Kid(cur, k), p.kids[k])
  }

  predicate GroundedKind(kind: Kind, cur: Value, p: Patch) {
    match kind
    case Own(s) => Grounded(s, cur, p)
    case Optional(s) => p.SetSome? ==> if cur.Just? then Grounded(s, cur.w, p.p) else Complete(s, p.p)
    case Payload(_, arms) =>
      p.Choose? && p.pick < |arms| && arms[p.pick].Newtype? ==>
        if cur.Case? && cur.pick == p.pick then Grounded(arms[p.pick].s, cur.body, p.p)
        else Complete(arms[p.pick].s, p.p)
  }

  lemma {:induction false} CompleteGrounded(s: Schema, cur: Value, p: Patch)
    requires Complete(s, p)
    ensures Grounded(s, cur, p)
    decreases s, 1
  {
    if s.Record? {
      forall k | 0 <= k < s.Count() ensures GroundedKind(s.KindOf(k), Kid(cur, k), p.kids[k]) {
        assert CompleteKind(s.KindOf(k), p.kids[k]);
        CompleteGroundedKind(s.KindOf(k), Kid(cur, k), p.kids[k]);
      }
    }
  }

  lemma {:induction false} CompleteGroundedKind(kind: Kind, cur: Value, p: Patch)
    requires CompleteKind(kind, p)
    ensures GroundedKind(kind, cur, p)
    decreases kind, 0
  {
    match kind
    case Own(s) => CompleteGrounded(s, cur, p);
    case Optional(s) => if p.SetSome? { CompleteGrounded(s, Inner(cur), p.p); }
    case Payload(_, arms) =>
      if arms[p.pick].Newtype? { CompleteGrounded(arms[p.pick].s, Chosen(cur, p.pick), p.p); }
  }

  /** Over a value that fits, or over nothing when the patch is complete, a patch is accepted exactly when its
      result fits, every tag it supplies is the tag of the result, and every part that has nothing to stand on
      is complete. */
  lemma {:induction false} AcceptsExactly(s: Schema, cur: Value, p: Patch)
    requires Wf(s) && TypedPatch(s, p) && (Fits(s, cur) || Complete(s, p))
    ensures Accepts(s, cur, p) <==>
      Fits(s, Apply(s, cur, p)) && TagsGiven(s, Apply(s, cur, p), p) && Grounded(s, cur, p)
    decreases s, 1
  {
    if p.Fields? {
      var r := Apply(s, cur, p);
      forall k | 0 <= k < s.Count()
        ensures IsTag(s, k) ==>
          FitsKind(s.KindOf(k), r.kids[k]) && Coupled(s, r, k) && GroundedKind(s.KindOf(k), Kid(cur, k), p.kids[k])
        ensures !IsTag(s, k) ==>
          (AcceptsKind(s.KindOf(k), Kid(cur, k), p.kids[k]) && TagAgrees(s, p.kids, k) <==>
            FitsKind(s.KindOf(k), r.kids[k]) && Coupled(s, r, k) && TagGiven(s, r, p.kids, k) &&
            TagsGivenKind(s.KindOf(k), r.kids[k], p.kids[k]) && GroundedKind(s.KindOf(k), Kid(cur, k), p.kids[k]))
      {
        if IsTag(s, k) {
          TagFits(s, cur, p, k);
        } else {
          AcceptsExactlyKid(s, cur, p, k);
        }
      }
    }
  }

  lemma TagFits(s: Schema, cur: Value, p: Patch, t: nat)
    requires Wf(s) && p.Fields? && TypedPatch(s, p) && t < s.Count() && IsTag(s, t)
    requires Fits(s, cur) || Complete(s, p)
    ensures FitsKind(s.KindOf(t), Apply(s, cur, p).kids[t]) && Coupled(s, Apply(s, cur, p), t)
    ensures GroundedKind(s.KindOf(t), Kid(cur, t), p.kids[t])
  {
    AppliedTagFits(s, cur, p, t);
    PayerOf(s, Payer(s.fields, t));
    assert TypedPatchKind(s.KindOf(t), p.kids[t]);
  }

  lemma {:induction false} AcceptsExactlyKid(s: Schema, cur: Value, p: Patch, k: nat)
    requires Wf(s) && p.Fields? && TypedPatch(s, p) && k < s.Count() && !IsTag(s, k)
    requires Fits(s, cur) || Complete(s, p)
    ensures var r := Apply(s, cur, p);
      AcceptsKind(s.KindOf(k), Kid(cur, k), p.kids[k]) && TagAgrees(s, p.kids, k) <==>
        FitsKind(s.KindOf(k), r.kids[k]) && Coupled(s, r, k) && TagGiven(s, r, p.kids, k) &&
        TagsGivenKind(s.KindOf(k), r.kids[k], p.kids[k]) && GroundedKind(s.KindOf(k), Kid(cur, k), p.kids[k])
    decreases s, 0
  {
    hide Wf, WfKind, AcceptsKind, ApplyKind, TagsGivenKind, GroundedKind, FitsKind;
    WfKid(s, k);
    var r := Apply(s, cur, p);
    assert TypedPatchKind(s.KindOf(k), p.kids[k]) && r.kids[k] == ApplyKid(s, cur, p.kids, k);
    if Fits(s, cur) { FitsKid(s, cur, k); } else { assert CompleteKind(s.KindOf(k), p.kids[k]); }
    AcceptsExactlyKind(s.KindOf(k), Kid(cur, k), p.kids[k]);
    if s.KindOf(k).Payload? { PayloadTag(s, cur, p, k); }
  }

  /** The tag of the result names the variant of the result, and is what a supplied tag is held to. */
  lemma PayloadTag(s: Schema, cur: Value, p: Patch, k: nat)
    requires Wf(s) && p.Fields? && TypedPatch(s, p) && k < s.Count() && s.KindOf(k).Payload?
    requires Fits(s, cur) || Complete(s, p)
    ensures Coupled(s, Apply(s, cur, p), k)
    ensures TagAgrees(s, p.kids, k) <==> TagGiven(s, Apply(s, cur, p), p.kids, k)
  {
    hide Wf, WfKind, Fits, FitsKind, Complete, CompleteKind;
    PayerOf(s, k);
    var r, t, q := Apply(s, cur, p), s.KindOf(k).tag, p.kids[k];
    assert TypedPatchKind(s.KindOf(k), q);
    assert r.kids[k] == ApplyKid(s, cur, p.kids, k) == ApplyKind(s.KindOf(k), Kid(cur, k), q);
    assert r.kids[t] == ApplyKid(s, cur, p.kids, t) == ApplyTag(s, cur, p.kids, t);
    if Fits(s, cur) { FitsKid(s, cur, k); } else { CompleteChooses(s, p, k); }
  }

  lemma CompleteChooses(s: Schema, p: Patch, k: nat)
    requires p.Fields? && Complete(s, p) && s.Record? && k < s.Count() && s.KindOf(k).Payload?
    ensures |p.kids| == s.Count() && p.kids[k].Choose?
  {
    assert CompleteKind(s.KindOf(k), p.kids[k]);
  }

  lemma {:induction false} AcceptsExactlyKind(kind: Kind, cur: Value, p: Patch)
    requires WfKind(kind) && TypedPatchKind(kind, p) && (FitsKind(kind, cur) || CompleteKind(kind, p))
    ensures var r := ApplyKind(kind, cur, p);
      AcceptsKind(kind, cur, p) <==> FitsKind(kind, r) && TagsGivenKind(kind, r, p) && GroundedKind(kind, cur, p)
    decreases kind, 0
  {
    match kind
    case Own(s) => AcceptsExactly(s, cur, p);
    case Optional(s) =>
      if p.SetSome? && (cur.Just? || Complete(s, p.p)) {
        if Complete(s, p.p) { CompleteGrounded(s, Inner(cur), p.p); }
        AcceptsExactly(s, Inner(cur), p.p);
      }
    case Payload(_, arms) =>
      if p.Choose? && arms[p.pick].Newtype? {
        var c := arms[p.pick].s;
        if (cur.Case? && cur.pick == p.pick) || Complete(c, p.p) {
          if Complete(c, p.p) { CompleteGrounded(c, Chosen(cur, p.pick), p.p); }
          AcceptsExactly(c, Chosen(cur, p.pick), p.p);
        }
      }
  }

  /** A tag entry beside a chosen variant is optional: leaving it out changes no meaning, and the patch with it
      is accepted exactly when the patch without it is and it names that variant. */
  lemma TagOptional(s: Schema, cur: Value, p: Patch, k: nat)
    requires Wf(s) && p.Fields? && TypedPatch(s, p) && k < s.Count() && s.KindOf(k).Payload? && p.kids[k].Choose?
    ensures var t := s.KindOf(k).tag;
      && t < |p.kids| && p.kids[k].pick < |s.KindOf(k).arms|
      && var q := Fields(p.kids[t := Keep]);
        && TypedPatch(s, q) && Apply(s, cur, q) == Apply(s, cur, p)
        && (Accepts(s, cur, p) <==>
              && Accepts(s, cur, q)
              && (p.kids[t].Keep? || p.kids[t] == Put(Leaf(Bits(s.KindOf(k).arms[p.kids[k].pick].disc)))))
  {
    hide Wf, WfKind, Accepts, AcceptsKind, Apply, ApplyKind, TypedPatch;
    PayerOf(s, k);
    assert TypedPatchKind(s.KindOf(k), p.kids[k]) by { EntryTyped(s, p, k); }
    assert |p.kids| == s.Count() by { EntryTyped(s, p, k); }
    TagOmitted(s, cur, p, k);
    TagChecked(s, cur, p, k);
  }

  lemma EntryTyped(s: Schema, p: Patch, k: nat)
    requires p.Fields? && TypedPatch(s, p) && k < s.Count()
    ensures s.Record? && |p.kids| == s.Count() && TypedPatchKind(s.KindOf(k), p.kids[k])
  {}

  /** No meaning is read from a tag entry. */
  lemma TagOmitted(s: Schema, cur: Value, p: Patch, k: nat)
    requires Wf(s) && p.Fields? && TypedPatch(s, p) && k < s.Count() && s.KindOf(k).Payload?
    requires s.KindOf(k).tag < |p.kids|
    ensures var q := Fields(p.kids[s.KindOf(k).tag := Keep]);
      TypedPatch(s, q) && Apply(s, cur, q) == Apply(s, cur, p)
  {
    hide Wf, WfKind, ApplyKind, ApplyKid, TypedPatchKind, IsTag;
    var q := Fields(p.kids[s.KindOf(k).tag := Keep]);
    forall i | 0 <= i < s.Count()
      ensures TypedPatchKind(s.KindOf(i), q.kids[i]) && ApplyKid(s, cur, q.kids, i) == ApplyKid(s, cur, p.kids, i)
    {
      EntryTyped(s, p, i);
      assert TypedPatchKind(s.KindOf(i), Keep) by { KeepMeans(s.KindOf(i), cur); }
      KidOmitted(s, cur, p.kids, k, i);
    }
    assert Apply(s, cur, q).kids == Apply(s, cur, p).kids;
  }

  lemma KidOmitted(s: Schema, cur: Value, kids: seq<Patch>, k: nat, i: nat)
    requires Wf(s) && k < s.Count() && s.KindOf(k).Payload? && s.KindOf(k).tag < |kids| && i < s.Count() && i < |kids|
    ensures ApplyKid(s, cur, kids[s.KindOf(k).tag := Keep], i) == ApplyKid(s, cur, kids, i)
  {
    hide Wf, WfKind, ApplyKind;
    PayerOf(s, k);
    if IsTag(s, i) { PayerOf(s, Payer(s.fields, i)); }
  }

  /** A tag entry is read where its payload is checked, and nowhere else. */
  lemma TagChecked(s: Schema, cur: Value, p: Patch, k: nat)
    requires Wf(s) && p.Fields? && |p.kids| == s.Count() && k < s.Count() && s.KindOf(k).Payload?
    requires p.kids[k].Choose? && p.kids[k].pick < |s.KindOf(k).arms| && s.KindOf(k).tag < |p.kids|
    ensures var t := s.KindOf(k).tag;
      Accepts(s, cur, p) <==>
        && Accepts(s, cur, Fields(p.kids[t := Keep]))
        && (p.kids[t].Keep? || p.kids[t] == Put(Leaf(Bits(s.KindOf(k).arms[p.kids[k].pick].disc))))
  {
    hide Wf, WfKind, AcceptsKind;
    PayerOf(s, k);
    var t := s.KindOf(k).tag;
    var q := Fields(p.kids[t := Keep]);
    forall i | 0 <= i < s.Count() && !IsTag(s, i)
      ensures q.kids[i] == p.kids[i] && (i != k ==> (TagAgrees(s, q.kids, i) <==> TagAgrees(s, p.kids, i)))
    {
      if s.KindOf(i).Payload? { PayerOf(s, i); }
    }
    assert TagAgrees(s, q.kids, k);
  }

  // ----- the meaning of a patch is laying it over the converted live value -----

  /** `p` laid over `q`: an absent entry leaves what is there, a nested patch is laid over what is there, and
      any other entry replaces it. */
  function Overlay(q: Patch, p: Patch): Patch
    decreases p
  {
    match p
    case Keep => q
    case Fields(kids) =>
      if q.Fields? && |q.kids| == |kids| then
        Fields(seq(|kids|, k requires 0 <= k < |kids| => Overlay(q.kids[k], kids[k])))
      else p
    case SetSome(x) => if q.SetSome? then SetSome(Overlay(q.p, x)) else p
    case Choose(pick, x) => if q.Choose? && q.pick == pick then Choose(pick, Overlay(q.p, x)) else p
    case _ => p
  }

  /** Every chosen variant has its tag entry, at every depth that has a live value. */
  predicate Explicit(s: Schema, p: Patch) {
    p.Fields? ==> forall k :: 0 <= k < s.Count() && k < |p.kids| ==>
      ExplicitKind(s.KindOf(k), p.kids[k]) &&
      (s.KindOf(k).Payload? && s.KindOf(k).tag < |p.kids| && p.kids[k].Choose? ==> !p.kids[s.KindOf(k).tag].Keep?)
  }

  predicate ExplicitKind(kind: Kind, p: Patch) {
    match kind
    case Own(s) => Explicit(s, p)
    case Optional(s) => p.SetSome? ==> Explicit(s, p.p)
    case Payload(_, arms) =>
      p.Choose? && p.pick < |arms| && arms[p.pick].Newtype? ==> Explicit(arms[p.pick].s, p.p)
  }

  /** An accepted patch with its tag entries turns the converted live value into the converted result: what it
      supplies it replaces, what it leaves out stays, at every depth. */
  lemma {:induction false} ApplyOverlays(s: Schema, cur: Value, p: Patch)
    requires Wf(s) && TypedPatch(s, p) && Fits(s, cur) && Accepts(s, cur, p) && Explicit(s, p)
    ensures Typed(s, cur) && Typed(s, Apply(s, cur, p))
    ensures FromValue(s, Apply(s, cur, p)) == Overlay(FromValue(s, cur), p)
    decreases s, 1
  {
    AcceptedFits(s, cur, p);
    FitsTyped(s, cur);
    FitsTyped(s, Apply(s, cur, p));
    if p.Fields? {
      var r := Apply(s, cur, p);
      forall k | 0 <= k < s.Count()
        ensures FromValue(s, r).kids[k] == Overlay(FromValue(s, cur).kids[k], p.kids[k])
      {
        ApplyOverlaysKid(s, cur, p, k);
      }
      assert FromValue(s, r).kids == Overlay(FromValue(s, cur), p).kids;
    }
  }

  lemma {:induction false} ApplyOverlaysKid(s: Schema, cur: Value, p: Patch, k: nat)
    requires Wf(s) && p.Fields? && TypedPatch(s, p) && Fits(s, cur) && Accepts(s, cur, p) && Explicit(s, p)
    requires Typed(s, cur) && Typed(s, Apply(s, cur, p)) && k < s.Count()
    ensures FromValue(s, Apply(s, cur, p)).kids[k] == Overlay(FromValue(s, cur).kids[k], p.kids[k])
    decreases s, 0
  {
    hide Wf, WfKind, AcceptsKind, ApplyKind, FromKind, ExplicitKind, FitsKind;
    WfKid(s, k);
    var r := Apply(s, cur, p);
    FitsKid(s, cur, k);
    assert TypedPatchKind(s.KindOf(k), p.kids[k]) && r.kids[k] == ApplyKid(s, cur, p.kids, k);
    assert TypedKind(s.KindOf(k), cur.kids[k]) && TypedKind(s.KindOf(k), r.kids[k]);
    assert FromValue(s, r).kids[k] == FromKind(s.KindOf(k), r.kids[k]);
    assert FromValue(s, cur).kids[k] == FromKind(s.KindOf(k), cur.kids[k]);
    if IsTag(s, k) {
      TagOverlays(s, cur, p, k);
    } else {
      ApplyOverlaysKind(s.KindOf(k), cur.kids[k], p.kids[k]);
    }
  }

  lemma TagOverlays(s: Schema, cur: Value, p: Patch, t: nat)
    requires Wf(s) && p.Fields? && TypedPatch(s, p) && Fits(s, cur) && Accepts(s, cur, p) && Explicit(s, p)
    requires Typed(s, cur) && t < s.Count() && IsTag(s, t)
    requires TypedKind(s.KindOf(t), cur.kids[t]) && TypedKind(s.KindOf(t), Apply(s, cur, p).kids[t])
    ensures FromKind(s.KindOf(t), Apply(s, cur, p).kids[t]) == Overlay(FromKind(s.KindOf(t), cur.kids[t]), p.kids[t])
  {
    hide WfKind, AcceptsKind, ApplyKind, ExplicitKind;
    var c := Payer(s.fields, t);
    PayerOf(s, c);
    assert TypedPatchKind(s.KindOf(c), p.kids[c]) && TypedPatchKind(s.KindOf(t), p.kids[t]);
    assert Apply(s, cur, p).kids[t] == ApplyKid(s, cur, p.kids, t) == ApplyTag(s, cur, p.kids, t);
    assert TagAgrees(s, p.kids, c);
  }

  lemma {:induction false} ApplyOverlaysKind(kind: Kind, cur: Value, p: Patch)
    requires WfKind(kind) && TypedPatchKind(kind, p) && FitsKind(kind, cur) && AcceptsKind(kind, cur, p)
    requires ExplicitKind(kind, p) && TypedKind(kind, cur) && TypedKind(kind, ApplyKind(kind, cur, p))
    ensures FromKind(kind, ApplyKind(kind, cur, p)) == Overlay(FromKind(kind, cur), p)
    decreases kind, 0
  {
    if !p.Keep? {
      match kind
      case Own(s) => ApplyOverlays(s, cur, p);
      case Optional(s) =>
        if p.SetSome? {
          if cur.Just? { ApplyOverlays(s, cur.w, p.p); } else { CompleteMeans(s, Nothing, p.p); }
        }
      case Payload(_, arms) =>
        if arms[p.pick].Newtype? {
          if cur.pick == p.pick {
            ApplyOverlays(arms[p.pick].s, cur.body, p.p);
          } else {
            CompleteMeans(arms[p.pick].s, Nothing, p.p);
          }
        }
    }
  }

  // ----- every change has a least patch -----

  /** The least patch from `cur` to `r`: an entry only where they differ, nested patches only over live values,
      and no tag entry at all. */
  function Least(s: Schema, cur: Value, r: Value): Patch
    requires Typed(s, cur) && Typed(s, r)
    decreases s, 1
  {
    if cur == r then Keep
    else if !s.Record? then Put(r)
    else Fields(seq(s.Count(), k requires 0 <= k < s.Count() =>
      assert TypedKind(s.KindOf(k), cur.kids[k]) && TypedKind(s.KindOf(k), r.kids[k]);
      if IsTag(s, k) then Keep else LeastKind(s.KindOf(k), cur.kids[k], r.kids[k])))
  }

  function LeastKind(kind: Kind, cur: Value, r: Value): Patch
    requires TypedKind(kind, cur) && TypedKind(kind, r)
    decreases kind, 0
  {
    if cur == r then Keep else
    match kind
    case Own(s) => Least(s, cur, r)
    case Optional(s) =>
      if r.Nothing? then SetNone else SetSome(if cur.Just? then Least(s, cur.w, r.w) else FromValue(s, r.w))
    case Payload(_, arms) =>
      Choose(r.pick, if arms[r.pick].Unit? then Keep
                     else if cur.pick == r.pick then Least(arms[r.pick].s, cur.body, r.body)
                     else FromValue(arms[r.pick].s, r.body))
  }

  /** From any value that fits to any other, the least patch is accepted and leads there: omitted entries stay,
      omitted tags follow, and a partial patch is enough wherever there is something to patch. */
  lemma {:induction false} LeastReaches(s: Schema, cur: Value, r: Value)
    requires Wf(s) && Fits(s, cur) && Fits(s, r)
    ensures Typed(s, cur) && Typed(s, r) && TypedPatch(s, Least(s, cur, r)) && (cur != r ==> Some(s, Least(s, cur, r)))
    ensures Accepts(s, cur, Least(s, cur, r)) && Apply(s, cur, Least(s, cur, r)) == r
    decreases s, 1
  {
    FitsTyped(s, cur);
    FitsTyped(s, r);
    if cur != r && s.Record? {
      var p := Least(s, cur, r);
      forall k | 0 <= k < s.Count()
        ensures TypedPatchKind(s.KindOf(k), p.kids[k]) && ApplyKid(s, cur, p.kids, k) == r.kids[k]
        ensures !IsTag(s, k) ==> AcceptsKind(s.KindOf(k), Kid(cur, k), p.kids[k]) && TagAgrees(s, p.kids, k)
      {
        if IsTag(s, k) { LeastTag(s, cur, r, k); } else { LeastKid(s, cur, r, k); }
      }
      assert Apply(s, cur, p).kids == r.kids;
    }
  }

  lemma LeastTag(s: Schema, cur: Value, r: Value, t: nat)
    requires Wf(s) && s.Record? && Fits(s, cur) && Fits(s, r) && Typed(s, cur) && Typed(s, r) && cur != r
    requires t < s.Count() && IsTag(s, t)
    ensures var p := Least(s, cur, r);
      TypedPatchKind(s.KindOf(t), p.kids[t]) && ApplyKid(s, cur, p.kids, t) == r.kids[t]
  {
    hide Wf, WfKind, Fits, FitsKind, ApplyKind;
    var c := Payer(s.fields, t);
    PayerOf(s, c);
    FitsKid(s, cur, c);
    FitsKid(s, r, c);
    assert TypedKind(s.KindOf(c), cur.kids[c]) && TypedKind(s.KindOf(c), r.kids[c]);
    assert Least(s, cur, r).kids[c] == LeastKind(s.KindOf(c), cur.kids[c], r.kids[c]);
  }

  lemma {:induction false} LeastKid(s: Schema, cur: Value, r: Value, k: nat)
    requires Wf(s) && s.Record? && Fits(s, cur) && Fits(s, r) && Typed(s, cur) && Typed(s, r) && cur != r
    requires k < s.Count() && !IsTag(s, k)
    ensures var p := Least(s, cur, r);
      && TypedPatchKind(s.KindOf(k), p.kids[k]) && ApplyKid(s, cur, p.kids, k) == r.kids[k]
      && AcceptsKind(s.KindOf(k), Kid(cur, k), p.kids[k]) && TagAgrees(s, p.kids, k)
    decreases s, 0
  {
    hide Wf, WfKind, Fits, FitsKind, ApplyKind, AcceptsKind, LeastKind;
    WfKid(s, k);
    FitsKid(s, cur, k);
    FitsKid(s, r, k);
    LeastReachesKind(s.KindOf(k), cur.kids[k], r.kids[k]);
    if s.KindOf(k).Payload? { PayerOf(s, k); }
  }

  lemma {:induction false} LeastReachesKind(kind: Kind, cur: Value, r: Value)
    requires WfKind(kind) && FitsKind(kind, cur) && FitsKind(kind, r)
    ensures TypedKind(kind, cur) && TypedKind(kind, r)
    ensures var p := LeastKind(kind, cur, r);
      TypedPatchKind(kind, p) && AcceptsKind(kind, cur, p) && ApplyKind(kind, cur, p) == r
    decreases kind, 0
  {
    FitsTypedKind(kind, cur);
    FitsTypedKind(kind, r);
    if cur != r {
      match kind
      case Own(s) => LeastReaches(s, cur, r);
      case Optional(s) =>
        if r.Just? {
          if cur.Just? { LeastReaches(s, cur.w, r.w); } else { FromValueMeans(s, Nothing, r.w); }
        }
      case Payload(_, arms) =>
        if arms[r.pick].Newtype? {
          if cur.pick == r.pick {
            LeastReaches(arms[r.pick].s, cur.body, r.body);
          } else {
            FromValueMeans(arms[r.pick].s, Nothing, r.body);
          }
        }
    } else {
      KeepMeans(kind, cur);
    }
  }

  lemma KeepMeans(kind: Kind, cur: Value)
    ensures TypedPatchKind(kind, Keep) && AcceptsKind(kind, cur, Keep) && ApplyKind(kind, cur, Keep) == cur
  {}
}
