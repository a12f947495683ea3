/** Nested places: a value found by its path, the bytes it is read from, and what a call does to the place it
    names and to every other. */
module Places {
  import opened Bytes
  import opened Schemas
  import opened Codec
  import opened Buffers
  import opened Traces
  import opened Runs

  /** What a path leads to: a schema, its value, its byte offset, and whether the last step was no variant. */
  datatype Place = Missing | Found(s: Schema, v: Value, off: nat, direct: bool) {
    function Behind(n: nat): Place { if Missing? then Missing else Found(s, v, n + off, direct) }
  }

  /** The place a path names in the value `v`: through fields and elements, present options and the variant
      that is there. A tag sibling is no place of its own. */
  function Find(s: Schema, v: Value, path: seq<nat>): Place
    decreases s, 1
  {
    if path == [] then Found(s, v, 0, true)
    else if path[0] < s.Count() && !IsTag(s, path[0]) && v.Node? && path[0] < |v.kids| then
      FindKind(s.KindOf(path[0]), v.kids[path[0]], path[1..]).Behind(s.Off(path[0]))
    else Missing
  }

  function FindKind(kind: Kind, v: Value, path: seq<nat>): Place
    decreases kind, 0
  {
    match kind
    case Own(s) => Find(s, v, path)
    case Optional(s) => if v.Just? then Find(s, v.w, path) else Missing
    case Payload(_, arms) =>
      if v.Case? && v.pick < |arms| && arms[v.pick].Newtype? then
        var f := Find(arms[v.pick].s, v.body, path);
        if path == [] && f.Found? then f.(direct := false) else f
      else Missing
  }

  // ----- the bytes of a place -----

  /** The bytes of `f` in `b` are proved on their own, and hold its value. */
  predicate ReadsAt(b: seq<Byte>, f: Place)
    requires f.Found?
  {
    && Wf(f.s) && f.off + f.s.Size() <= |b|
    && Valid(f.s, b[f.off..f.off + f.s.Size()]) && Decode(f.s, b[f.off..f.off + f.s.Size()]) == f.v
  }

  /** Every place of a decoded value is read from its own bytes, at the sum of the offsets on the way. */
  lemma {:induction false} FoundInBytes(s: Schema, b: seq<Byte>, path: seq<nat>)
    requires Wf(s) && |b| == s.Size() && Valid(s, b) && Find(s, Decode(s, b), path).Found?
    ensures ReadsAt(b, Find(s, Decode(s, b), path))
    decreases s, 1
  {
    hide Wf, Valid, Decode, FindKind;
    if path == [] {
      assert b[0..s.Size()] == b;
    } else {
      var k := path[0];
      KidFound(s, b, k);
      var f := FindKind(s.KindOf(k), Decode(s, b).kids[k], path[1..]);
      FoundInBytesKind(s.KindOf(k), Tag(s, b, k), Part(s, b, k), path[1..]);
      ReadsBehind(s, b, k, f);
    }
  }

  lemma KidFound(s: Schema, b: seq<Byte>, k: nat)
    requires Wf(s) && |b| == s.Size() && Valid(s, b) && k < s.Count()
    ensures !s.Atom? && s.Framed() && WfKind(s.KindOf(k)) && Room(s.KindOf(k), s.Len(k))
    ensures ValidKind(s.KindOf(k), Tag(s, b, k), Part(s, b, k))
    ensures Decode(s, b).Node? && |Decode(s, b).kids| == s.Count()
    ensures Decode(s, b).kids[k] == DecodeKind(s.KindOf(k), Tag(s, b, k), Part(s, b, k))
  {
    WfKid(s, k);
    KidDecoded(s, b, k);
  }

  lemma ReadsBehind(s: Schema, b: seq<Byte>, k: nat, f: Place)
    requires s.Framed() && |b| == s.Size() && k < s.Count() && f.Found? && ReadsAt(Part(s, b, k), f)
    ensures ReadsAt(b, f.Behind(s.Off(k)))
  {
    hide Wf, Valid, Decode, Schema.Off, Schema.Len;
    Slices(b, s.Off(k), s.Len(k), f.off, f.s.Size());
  }

  lemma {:induction false} FoundInBytesKind(kind: Kind, d: nat, x: seq<Byte>, path: seq<nat>)
    requires WfKind(kind) && Room(kind, |x|) && ValidKind(kind, d, x)
    requires FindKind(kind, DecodeKind(kind, d, x), path).Found?
    ensures ReadsAt(x, FindKind(kind, DecodeKind(kind, d, x), path))
    decreases kind, 0
  {
    hide Wf, Valid, Decode, Find;
    var c := if kind.Payload? then kind.arms[Pick(kind.arms, d)].s else kind.s;
    FoundInBytes(c, x[..c.Size()], path);
    var f := Find(c, Decode(c, x[..c.Size()]), path);
    assert x[..c.Size()][f.off..f.off + f.s.Size()] == x[f.off..f.off + f.s.Size()];
  }

  // ----- calls -----

  /** A call into a place is the call on what is there: navigation may stop anywhere on the way and go on from
      the capability reached. */
  lemma {:induction false} CallInto(s: Schema, v: Value, path: seq<nat>, rest: seq<nat>, op: Op)
    requires Wf(s) && Find(s, v, path).Found?
    requires rest != [] || (!op.Replace? && (op.Update? ==> Find(s, v, path).direct))
    ensures var f := Find(s, v, path);
      Wf(f.s) && Find(s, ExecValue(s, v, path + rest, op), path) == f.(v := ExecValue(f.s, f.v, rest, op))
    decreases s, 1
  {
    hide Wf, WfKind, ExecValueKind, FindKind;
    if path == [] {
      assert path + rest == rest;
    } else {
      var k := path[0];
      WfKid(s, k);
      assert (path + rest)[1..] == path[1..] + rest;
      CallIntoKind(s.KindOf(k), v.kids[k], path[1..], rest, op);
    }
  }

  lemma {:induction false} CallIntoKind(kind: Kind, v: Value, path: seq<nat>, rest: seq<nat>, op: Op)
    requires WfKind(kind) && FindKind(kind, v, path).Found?
    requires rest != [] || (!op.Replace? && (op.Update? ==> FindKind(kind, v, path).direct))
    ensures var f := FindKind(kind, v, path);
      Wf(f.s) && FindKind(kind, ExecValueKind(kind, v, path + rest, op), path) ==
        f.(v := ExecValue(f.s, f.v, rest, op))
    decreases kind, 0
  {
    hide Wf, ExecValue, Find;
    match kind
    case Own(s) => CallInto(s, v, path, rest, op);
    case Optional(s) => CallInto(s, v.w, path, rest, op);
    case Payload(_, arms) => CallInto(arms[v.pick].s, v.body, path, rest, op);
  }

  /** Neither path leads to the other. */
  predicate Apart(p: seq<nat>, q: seq<nat>)
    decreases |p|
  {
    p != [] && q != [] && (p[0] != q[0] || Apart(p[1..], q[1..]))
  }

  /** A call changes no place apart from its own. */
  lemma {:induction false} CallAside(s: Schema, v: Value, path: seq<nat>, op: Op, other: seq<nat>)
    requires Wf(s) && Apart(path, other)
    ensures Find(s, ExecValue(s, v, path, op), other) == Find(s, v, other)
    decreases s, 1
  {
    hide Wf, WfKind, ExecValueKind, FindKind;
    var k := path[0];
    if k < s.Count() && !IsTag(s, k) && v.Node? && k < |v.kids| && k == other[0] {
      WfKid(s, k);
      CallAsideKind(s.KindOf(k), v.kids[k], path[1..], op, other[1..]);
    }
  }

  lemma {:induction false} CallAsideKind(kind: Kind, v: Value, path: seq<nat>, op: Op, other: seq<nat>)
    requires WfKind(kind) && Apart(path, other)
    ensures FindKind(kind, ExecValueKind(kind, v, path, op), other) == FindKind(kind, v, other)
    decreases kind, 0
  {
    hide Wf, ExecValue, Find;
    match kind
    case Own(s) => CallAside(s, v, path, op, other);
    case Optional(s) => if v.Just? { CallAside(s, v.w, path, op, other); }
    case Payload(_, arms) =>
      if v.Case? && v.pick < |arms| && arms[v.pick].Newtype? {
        CallAside(arms[v.pick].s, v.body, path, op, other);
      }
  }

  /** Where the path leads nowhere, only `OptionMut::set` can do anything. */
  lemma {:induction false} CallNowhere(s: Schema, v: Value, path: seq<nat>, op: Op)
    requires Wf(s) && Find(s, v, path).Missing? && !op.Replace?
    ensures ExecValue(s, v, path, op) == v
    decreases s, 1
  {
    hide Wf, WfKind, ExecValueKind, FindKind;
    var k := path[0];
    if k < s.Count() && !IsTag(s, k) && v.Node? && k < |v.kids| {
      WfKid(s, k);
      CallNowhereKind(s.KindOf(k), v.kids[k], path[1..], op);
    }
  }

  lemma {:induction false} CallNowhereKind(kind: Kind, v: Value, path: seq<nat>, op: Op)
    requires WfKind(kind) && FindKind(kind, v, path).Missing? && !op.Replace?
    ensures ExecValueKind(kind, v, path, op) == v
    decreases kind, 0
  {
    hide Wf, ExecValue;
    match kind
    case Own(s) => CallNowhere(s, v, path, op);
    case Optional(s) => if v.Just? { CallNowhere(s, v.w, path, op); }
    case Payload(_, arms) =>
      if v.Case? && v.pick < |arms| && arms[v.pick].Newtype? && path != [] {
        CallNowhere(arms[v.pick].s, v.body, path, op);
      }
  }

  /** The same on bytes. A call to the setter or `clear()` of a place: the place then reads what the operation
      makes of it, from the same bytes, and every place apart reads as before. */
  lemma CallReads(s: Schema, b: seq<Byte>, path: seq<nat>, op: Op, other: seq<nat>)
    requires Wf(s) && |b| == s.Size() && Valid(s, b) && Find(s, Decode(s, b), path).Found? && Apart(path, other)
    requires op.Assign? || op.Wipe?
    ensures Valid(s, Exec(s, b, path, op))
    ensures var f := Find(s, Decode(s, b), path);
      Wf(f.s) && ReadsAt(Exec(s, b, path, op), f.(v := HereValue(f.s, f.v, op)))
    ensures var g := Find(s, Decode(s, b), other); g.Found? ==> ReadsAt(Exec(s, b, path, op), g)
  {
    hide *;
    var v, c := Decode(s, b), Exec(s, b, path, op);
    ExecRefines(s, b, path, op);
    CallInto(s, v, path, [], op);
    assert path + [] == path;
    HereAtRoot(Find(s, v, path).s, Find(s, v, path).v, op);
    FoundInBytes(s, c, path);
    CallAside(s, v, path, op, other);
    if Find(s, v, other).Found? { FoundInBytes(s, c, other); }
  }

  lemma HereAtRoot(s: Schema, v: Value, op: Op)
    requires Wf(s)
    ensures ExecValue(s, v, [], op) == HereValue(s, v, op)
  {}

  // ----- publication -----

  /** A committed value publishes every union at every place: with the offset of the record that holds it,
      no byte of the tag was stored before the payload was final. */
  lemma {:induction false} PublishedEverywhere(s: Schema, v: Value, at: nat, start: seq<Byte>, log: seq<Write>,
                                               from: nat, path: seq<nat>, k: nat)
    requires Published(s, v, at, start, log, from) && Find(s, v, path).Found?
    requires var f := Find(s, v, path);
      !f.s.Atom? && f.v.Node? && k < f.s.Count() && k < |f.v.kids| && f.s.KindOf(k).Payload?
    ensures var f := Find(s, v, path); TagLast(f.s, at + f.off, k, start, log, from)
    decreases s, 1
  {
    hide PublishedKind, FindKind, TagLast;
    if path == [] {
      assert PublishedKid(s, v.kids[k], at, k, start, log, from);
    } else {
      var j := path[0];
      assert PublishedKid(s, v.kids[j], at, j, start, log, from);
      PublishedEverywhereKind(s.KindOf(j), v.kids[j], at + s.Off(j), start, log, from, path[1..], k);
    }
  }

  lemma {:induction false} PublishedEverywhereKind(kind: Kind, v: Value, at: nat, start: seq<Byte>, log: seq<Write>,
                                                   from: nat, path: seq<nat>, k: nat)
    requires PublishedKind(kind, v, at, start, log, from) && FindKind(kind, v, path).Found?
    requires var f := FindKind(kind, v, path);
      !f.s.Atom? && f.v.Node? && k < f.s.Count() && k < |f.v.kids| && f.s.KindOf(k).Payload?
    ensures var f := FindKind(kind, v, path); TagLast(f.s, at + f.off, k, start, log, from)
    decreases kind, 0
  {
    hide Published, Find, TagLast;
    match kind
    case Own(s) => PublishedEverywhere(s, v, at, start, log, from, path, k);
    case Optional(s) => PublishedEverywhere(s, v.w, at, start, log, from, path, k);
    case Payload(_, arms) => PublishedEverywhere(arms[v.pick].s, v.body, at, start, log, from, path, k);
  }
}
