/** A patch place by place: what it supplies is read back at its path, and what it leaves out keeps every
    byte, at every depth. */
module PatchPlaces {
  import opened Bytes
  import opened Schemas
  import opened Codec
  import opened Patches
  import opened Frames
  import opened Places

  // ----- supplied entries -----

  /** The entry the patch holds for the place `path` names, `Keep` when it reaches none. */
  function EntryAt(s: Schema, p: Patch, path: seq<nat>): Patch
    decreases s, 1
  {
    if path == [] then p
    else if p.Fields? && path[0] < s.Count() && path[0] < |p.kids| && !IsTag(s, path[0]) then
      EntryKind(s.KindOf(path[0]), p.kids[path[0]], path[1..])
    else Keep
  }

  function EntryKind(kind: Kind, p: Patch, path: seq<nat>): Patch
    decreases kind, 0
  {
    match kind
    case Own(s) => EntryAt(s, p, path)
    case Optional(s) => if p.SetSome? then EntryAt(s, p.p, path) else Keep
    case Payload(_, arms) =>
      if p.Choose? && p.pick < |arms| && arms[p.pick].Newtype? then EntryAt(arms[p.pick].s, p.p, path) else Keep
  }

  /** A supplied leaf or array is what the result holds at that place, whatever was there: in nested records,
      in options made present, in variants chosen. */
  lemma {:induction false} SuppliedReads(s: Schema, cur: Value, p: Patch, path: seq<nat>)
    requires EntryAt(s, p, path).Put?
    ensures var f := Find(s, Apply(s, cur, p), path); f.Found? && f.v == EntryAt(s, p, path).v
    decreases s, 1
  {
    hide ApplyKind, EntryKind, FindKind;
    if path != [] {
      var k := path[0];
      assert Apply(s, cur, p).kids[k] == ApplyKid(s, cur, p.kids, k);
      SuppliedReadsKind(s.KindOf(k), Kid(cur, k), p.kids[k], path[1..]);
    }
  }

  lemma {:induction false} SuppliedReadsKind(kind: Kind, cur: Value, p: Patch, path: seq<nat>)
    requires EntryKind(kind, p, path).Put?
    ensures var f := FindKind(kind, ApplyKind(kind, cur, p), path); f.Found? && f.v == EntryKind(kind, p, path).v
    decreases kind, 0
  {
    hide Apply, EntryAt, Find;
    match kind
    case Own(s) =>
      KeepHoldsNothing(s, path);
      SuppliedReads(s, cur, p, path);
    case Optional(s) => SuppliedReads(s, Inner(cur), p.p, path);
    case Payload(_, arms) => SuppliedReads(arms[p.pick].s, Chosen(cur, p.pick), p.p, path);
  }

  lemma KeepHoldsNothing(s: Schema, path: seq<nat>)
    ensures EntryAt(s, Keep, path) == Keep
  {}

  // ----- entries left out -----

  /** On the way to the place the patch has an absent entry, and chooses no other variant before it. */
  predicate KeptAt(s: Schema, cur: Value, p: Patch, path: seq<nat>)
    decreases s, 1
  {
    p.Keep? ||
    (path != [] && p.Fields? && path[0] < s.Count() && path[0] < |p.kids| &&
     KeptKind(s.KindOf(path[0]), Kid(cur, path[0]), p.kids[path[0]], path[1..]))
  }

  predicate KeptKind(kind: Kind, cur: Value, p: Patch, path: seq<nat>)
    decreases kind, 0
  {
    p.Keep? ||
    match kind
    case Own(s) => KeptAt(s, cur, p, path)
    case Optional(s) => p.SetSome? && KeptAt(s, Inner(cur), p.p, path)
    case Payload(_, arms) =>
      && p.Choose? && p.pick < |arms| && cur.Case? && cur.pick == p.pick && arms[p.pick].Newtype?
      && KeptAt(arms[p.pick].s, cur.body, p.p, path)
  }

  /** A place lies inside its span. */
  lemma {:induction false} FoundInside(s: Schema, v: Value, path: seq<nat>)
    requires Wf(s) && Find(s, v, path).Found?
    ensures Find(s, v, path).off + Find(s, v, path).s.Size() <= s.Size()
    decreases s, 1
  {
    hide Wf, WfKind, FindKind, Room;
    if path != [] {
      WfKid(s, path[0]);
      FoundInsideKind(s.KindOf(path[0]), v.kids[path[0]], path[1..], s.Len(path[0]));
    }
  }

  lemma {:induction false} FoundInsideKind(kind: Kind, v: Value, path: seq<nat>, n: nat)
    requires WfKind(kind) && Room(kind, n) && FindKind(kind, v, path).Found?
    ensures FindKind(kind, v, path).off + FindKind(kind, v, path).s.Size() <= n
    decreases kind, 0
  {
    hide Wf, Find;
    match kind
    case Own(s) => FoundInside(s, v, path);
    case Optional(s) => FoundInside(s, v.w, path);
    case Payload(_, arms) => FoundInside(arms[v.pick].s, v.body, path);
  }

  /** No byte of a place left out is selected. */
  lemma {:induction false} KeptUnselected(s: Schema, cur: Value, p: Patch, path: seq<nat>, i: nat)
    requires Wf(s) && TypedPatch(s, p) && Accepts(s, cur, p) && Find(s, cur, path).Found? && KeptAt(s, cur, p, path)
    requires Find(s, cur, path).off <= i < Find(s, cur, path).off + Find(s, cur, path).s.Size()
    ensures !Selected(s, cur, p, i)
    decreases s, 1
  {
    hide Wf, WfKind, FindKind, KeptKind, AcceptsKind, TypedPatchKind, SelectedKind, Room;
    if p.Fields? {
      var k := path[0];
      var f := FindKind(s.KindOf(k), cur.kids[k], path[1..]);
      WfKid(s, k);
      FoundInsideKind(s.KindOf(k), cur.kids[k], path[1..], s.Len(k));
      assert TypedPatchKind(s.KindOf(k), p.kids[k]);
      KeptUnselectedKind(s.KindOf(k), cur.kids[k], p.kids[k], path[1..], i - s.Off(k));
      OneKid(s, k, i);
    }
  }

  /** A byte lies in one child at most. */
  lemma OneKid(s: Schema, k: nat, i: nat)
    requires s.Framed() && k < s.Count() && Within(s, k, i)
    ensures forall j :: 0 <= j < s.Count() && Within(s, j, i) ==> j == k
  {
    hide Schema.Off, Schema.Len, Schema.Size;
  }

  lemma {:induction false} KeptUnselectedKind(kind: Kind, cur: Value, p: Patch, path: seq<nat>, i: nat)
    requires WfKind(kind) && TypedPatchKind(kind, p) && AcceptsKind(kind, cur, p)
    requires FindKind(kind, cur, path).Found? && KeptKind(kind, cur, p, path)
    requires var f := FindKind(kind, cur, path); f.off <= i < f.off + f.s.Size()
    ensures !SelectedKind(kind, cur, p, i)
    decreases kind, 0
  {
    hide Wf, Find, Accepts, TypedPatch, Selected, KeptAt;
    if !p.Keep? {
      match kind
      case Own(s) => KeptUnselected(s, cur, p, path, i);
      case Optional(s) => KeptUnselected(s, cur.w, p.p, path, i);
      case Payload(_, arms) => KeptUnselected(arms[p.pick].s, cur.body, p.p, path, i);
    }
  }

  /** A committed patch leaves every byte of every place it leaves out, at every depth. */
  lemma KeptBytes(s: Schema, b: seq<Byte>, p: Patch, path: seq<nat>)
    requires Wf(s) && |b| == s.Size() && Valid(s, b) && TypedPatch(s, p) && Accepts(s, Decode(s, b), p)
    requires Find(s, Decode(s, b), path).Found? && KeptAt(s, Decode(s, b), p, path)
    ensures var f := Find(s, Decode(s, b), path);
      f.off + f.s.Size() <= |b| &&
      Patched(s, false, b, p)[f.off..f.off + f.s.Size()] == b[f.off..f.off + f.s.Size()]
  {
    hide Wf, Valid, Decode, TypedPatch, Accepts, Find, KeptAt, Selected, Patched;
    var f := Find(s, Decode(s, b), path);
    FoundInside(s, Decode(s, b), path);
    forall i | f.off <= i < f.off + f.s.Size() ensures Patched(s, false, b, p)[i] == b[i] {
      KeptUnselected(s, Decode(s, b), p, path, i);
      PatchFrame(s, false, b, p, i);
    }
  }
}
