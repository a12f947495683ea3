/** Partial logical updates: the generated patch types, their preflight pass, and the meaning a
    committed patch has on logical values. */
module Patches {
  import opened Bytes
  import opened Leaves
  import opened Schemas
  import opened Codec

  /** One entry of a generated patch. `Keep` is an absent entry, and also a scalar-enum patch
      without a value, which does the same. `Put` replaces a leaf, a tag or a whole array;
      `Fields` is a nested record patch; `SetNone` and `SetSome` update an option; `Choose`
      selects a payload variant, with `Keep` for a unit variant. */
  datatype Patch =
    | Keep
    | Put(v: Value)
    | Fields(kids: seq<Patch>)
    | SetNone
    | SetSome(p: Patch)
    | Choose(pick: nat, p: Patch)

  /** The patches the generated Rust types admit. */
  predicate TypedPatch(s: Schema, p: Patch) {
    if s.Record? then
      || p.Keep?
      || (&& p.Fields? && |p.kids| == s.Count()
          && forall k :: 0 <= k < s.Count() ==> TypedPatchKind(s.KindOf(k), p.kids[k]))
    else p.Keep? || (p.Put? && Typed(s, p.v))
  }

  /** What `Some(patch)` carries: a record patch is there, an array value is given. */
  predicate Some(s: Schema, p: Patch) {
    (s.Record? ==> p.Fields?) && (s.Array? ==> p.Put?)
  }

  predicate TypedPatchKind(kind: Kind, p: Patch) {
    p.Keep? ||
    match kind
    case Own(s) => TypedPatch(s, p)
    case Optional(s) => p.SetNone? || (p.SetSome? && Some(s, p.p) && TypedPatch(s, p.p))
    case Payload(_, arms) =>
      && p.Choose? && p.pick < |arms|
      && if arms[p.pick].Unit? then p.p.Keep? else Some(arms[p.pick].s, p.p) && TypedPatch(arms[p.pick].s, p.p)
  }

  /** `is_complete`. A tag sibling counts like any other entry. */
  predicate Complete(s: Schema, p: Patch) {
    if s.Record? then
      && p.Fields? && |p.kids| == s.Count()
      && forall k :: 0 <= k < s.Count() ==> CompleteKind(s.KindOf(k), p.kids[k])
    else p.Put?
  }

  predicate CompleteKind(kind: Kind, p: Patch) {
    match kind
    case Own(s) => Complete(s, p)
    case Optional(s) => p.SetNone? || (p.SetSome? && Complete(s, p.p))
    case Payload(_, arms) => p.Choose? && p.pick < |arms| && (arms[p.pick].Newtype? ==> Complete(arms[p.pick].s, p.p))
  }

  // ----- preflight of logical sources and of patches -----

  /** `preflight_logical` (`init` false, over a live value) and `preflight_init_logical`. */
  predicate PreflightValue(s: Schema, init: bool, b: seq<Byte>, v: Value)
    requires Wf(s) && |b| == s.Size() && Typed(s, v)
    decreases s, 1
  {
    if s.Atom? then LeafPreflight(s.leaf, v.v)
    else forall k :: 0 <= k < s.Count() && !IsTag(s, k) ==> PreflightValueKid(s, init, b, v, k)
  }

  predicate PreflightValueKid(s: Schema, init: bool, b: seq<Byte>, v: Value, k: nat)
    requires Wf(s) && !s.Atom? && |b| == s.Size() && Typed(s, v) && k < s.Count()
    decreases s, 0
  {
    WfKid(s, k);
    var x, w := Part(s, b, k), v.kids[k];
    assert TypedKind(s.KindOf(k), w);
    match s.KindOf(k)
    case Own(c) => PreflightValue(c, init, x[..c.Size()], w)
    case Optional(c) => w.Just? ==> PreflightValue(c, true, x[..c.Size()], w.w)
    case Payload(t, arms) =>
      && v.kids[t] == Leaf(Bits(arms[w.pick].disc))
      && (init || Tag(s, b, k) in s.KindOf(t).s.leaf.discs)
      && (arms[w.pick].Newtype? ==>
            PreflightValue(arms[w.pick].s, init || Tag(s, b, k) != arms[w.pick].disc, x[..arms[w.pick].s.Size()],
              w.body))
  }

  /** `preflight` and `preflight_init` of a patch. */
  predicate Preflight(s: Schema, init: bool, b: seq<Byte>, p: Patch)
    requires Wf(s) && |b| == s.Size() && TypedPatch(s, p)
    decreases s, 1
  {
    match p
    case Put(v) => PreflightValue(s, init, b, v)
    case Fields(_) => forall k :: 0 <= k < s.Count() && !IsTag(s, k) ==> PreflightKid(s, init, b, p, k)
    case _ => true
  }

  predicate PreflightKid(s: Schema, init: bool, b: seq<Byte>, p: Patch, k: nat)
    requires Wf(s) && s.Record? && |b| == s.Size() && p.Fields? && TypedPatch(s, p) && k < s.Count()
    decreases s, 0
  {
    WfKid(s, k);
    var x, q := Part(s, b, k), p.kids[k];
    assert TypedPatchKind(s.KindOf(k), q);
    match s.KindOf(k)
    case Own(c) => Preflight(c, init, x[..c.Size()], q)
    case Optional(c) =>
      q.SetSome? ==>
        if init || AllZero(x) then Complete(c, q.p) && Preflight(c, true, x[..c.Size()], q.p)
        else Preflight(c, false, x[..c.Size()], q.p)
    case Payload(t, arms) =>
      if q.Keep? then p.kids[t].Keep?
      else
        && (p.kids[t].Keep? || p.kids[t] == Put(Leaf(Bits(arms[q.pick].disc))))
        && (init || Tag(s, b, k) in s.KindOf(t).s.leaf.discs)
        && (arms[q.pick].Newtype? ==>
              var c := arms[q.pick].s;
              if init || Tag(s, b, k) != arms[q.pick].disc then
                Complete(c, q.p) && Preflight(c, true, x[..c.Size()], q.p)
              else Preflight(c, false, x[..c.Size()], q.p))
  }

  // ----- the meaning of a patch, on logical values only -----

  /** Child `k` of a live value; `Nothing` stands for no live value at all. */
  function Kid(v: Value, k: nat): Value {
    if v.Node? && k < |v.kids| then v.kids[k] else Nothing
  }

  /** The value a present option holds. */
  function Inner(v: Value): Value { if v.Just? then v.w else Nothing }

  /** The value variant `pick` holds, when it is the live one. */
  function Chosen(v: Value, pick: nat): Value { if v.Case? && v.pick == pick then v.body else Nothing }

  /** The logical value after the patch. */
  function Apply(s: Schema, cur: Value, p: Patch): Value
    decreases s, 1
  {
    match p
    case Put(v) => v
    case Fields(kids) =>
      Node(seq(s.Count(), k requires 0 <= k < s.Count() => if k < |kids| then ApplyKid(s, cur, kids, k) else Nothing))
    case _ => cur
  }

  function ApplyKid(s: Schema, cur: Value, kids: seq<Patch>, k: nat): Value
    requires k < s.Count() && k < |kids|
    decreases s, 0
  {
    if IsTag(s, k) then ApplyTag(s, cur, kids, k) else ApplyKind(s.KindOf(k), Kid(cur, k), kids[k])
  }

  /** A tag follows the variant its payload's patch chooses. */
  function ApplyTag(s: Schema, cur: Value, kids: seq<Patch>, t: nat): Value
    requires IsTag(s, t)
  {
    var c := Payer(s.fields, t);
    var arms := s.fields[c].kind.arms;
    if c < |kids| && kids[c].Choose? && kids[c].pick < |arms| then Leaf(Bits(arms[kids[c].pick].disc)) else Kid(cur, t)
  }

  function ApplyKind(kind: Kind, cur: Value, p: Patch): Value {
    if p.Keep? then cur else
    match kind
    case Own(s) => Apply(s, cur, p)
    case Optional(s) => if p.SetSome? then Just(Apply(s, Inner(cur), p.p)) else Nothing
    case Payload(_, arms) =>
      if p.Choose? && p.pick < |arms| then
        Case(p.pick, if arms[p.pick].Unit? then Nothing else Apply(arms[p.pick].s, Chosen(cur, p.pick), p.p))
      else cur
  }

  /** Which patches are accepted over the live value `cur`. With no live value, or where an absent
      option or another variant is selected, the nested patch must be complete. */
  predicate Accepts(s: Schema, cur: Value, p: Patch) {
    match p
    case Put(v) => Fits(s, v)
    case Fields(kids) =>
      forall k :: 0 <= k < s.Count() && k < |kids| && !IsTag(s, k) ==>
        AcceptsKind(s.KindOf(k), Kid(cur, k), kids[k]) && TagAgrees(s, kids, k)
    case _ => true
  }

  /** A supplied tag names the chosen variant, and no tag is supplied without its payload. */
  predicate TagAgrees(s: Schema, kids: seq<Patch>, k: nat)
    requires k < s.Count() && k < |kids|
  {
    s.KindOf(k).Payload? && s.KindOf(k).tag < |kids| ==>
      var q := kids[s.KindOf(k).tag];
      || q.Keep?
      || (&& kids[k].Choose? && kids[k].pick < |s.KindOf(k).arms|
          && q == Put(Leaf(Bits(s.KindOf(k).arms[kids[k].pick].disc))))
  }

  predicate AcceptsKind(kind: Kind, cur: Value, p: Patch) {
    match kind
    case Own(s) => Accepts(s, cur, p)
    case Optional(s) => p.SetSome? ==> (cur.Just? || Complete(s, p.p)) && Accepts(s, Inner(cur), p.p)
    case Payload(_, arms) =>
      p.Choose? && p.pick < |arms| && arms[p.pick].Newtype? ==>
        && ((cur.Case? && cur.pick == p.pick) || Complete(arms[p.pick].s, p.p))
        && Accepts(arms[p.pick].s, Chosen(cur, p.pick), p.p)
  }
}
