/** The commit pass: generated code that writes a preflighted source into the live buffer, field by
    field in declaration order, re-reading the buffer for the decisions preflight already made. */
module Commits {
  import opened Bytes
  import opened Leaves
  import opened Schemas
  import opened Codec
  import opened RoundTrip
  import opened PatchLaws
  import opened Buffers
  import opened Stages
  import opened Traces

  /** The bytes of the schema `s` at `at`. */
  ghost function Span(m: Buffer, at: nat, n: nat): (b: seq<Byte>)
    requires at + n <= m.cells.Length
    reads m, m.cells
    ensures |b| == n
  {
    m.cells[..][at..at + n]
  }

  /** `commit_logical` and, with `init`, `commit_init_logical`. */
  method CommitValue(m: Buffer, at: nat, s: Schema, v: Value, init: bool)
    requires m.Valid() && Wf(s) && Fits(s, v) && at + s.Size() <= m.cells.Length
    requires init || Valid(s, Span(m, at, s.Size()))
    modifies m, m.cells
    ensures m.Valid()
    ensures m.cells[..] == Splice(old(m.cells[..]), at, Encode(s, old(Span(m, at, s.Size())), v))
    ensures old(m.log) <= m.log && Inside(m.log, |old(m.log)|, at, at + s.Size())
    ensures Published(s, v, at, m.start, m.log, |old(m.log)|)
    decreases s, 2
  {
    hide Splice, Replay, LeafEncode, LeafFits, LeafWf, LeafSize, LeafValid, Fill;
    if s.Atom? {
      CommitLeaf(m, at, s.leaf, v.v);
    } else {
      CommitValueKids(m, at, s, v, init);
    }
  }

  method CommitValueKids(m: Buffer, at: nat, s: Schema, v: Value, init: bool)
    requires m.Valid() && Wf(s) && !s.Atom? && Fits(s, v) && at + s.Size() <= m.cells.Length
    requires init || Valid(s, Span(m, at, s.Size()))
    modifies m, m.cells
    ensures m.Valid()
    ensures m.cells[..] == Splice(old(m.cells[..]), at, Encode(s, old(Span(m, at, s.Size())), v))
    ensures old(m.log) <= m.log && Inside(m.log, |old(m.log)|, at, at + s.Size())
    ensures Published(s, v, at, m.start, m.log, |old(m.log)|)
    decreases s, 1
  {
    hide Wf, Fits, Valid, Encode, Splice, Replay, PublishedKid, Behind, Only, Stage;
    ghost var c0, b0 := m.cells[..], Span(m, at, s.Size());
    ghost var full, b := Encode(s, b0, v), b0;
    EncodeParts(s, b0, v);
    SpliceSelf(c0, at, s.Size());
    StageStart(s, b0, full);
    BehindStart(s, at, m.log);
    FitsShape(s, v);
    for i := 0 to s.Count()
      invariant m.Valid() && |b| == s.Size() && Stage(s, b0, full, b, i) && m.cells[..] == Splice(c0, at, b)
      invariant old(m.log) <= m.log && Inside(m.log, |old(m.log)|, at, at + s.Size())
      invariant Behind(s, at, m.log, |old(m.log)|, i)
      invariant forall k :: 0 <= k < i ==> PublishedKid(s, v.kids[k], at, k, m.start, m.log, |old(m.log)|)
    {
      if IsTag(s, i) {
        StageSkip(s, b0, full, b, i);
        SkipPublished(s, v, at, m.start, m.log, |old(m.log)|, i);
      } else {
        ghost var log := m.log;
        b := CommitValueKid(m, at, s, v, init, i, c0, b0, b);
        StepPublished(s, v, at, m.start, log, m.log, |old(m.log)|, i);
        StageSize(s, b0, full, b, i + 1);
      }
    }
    StageEnd(s, b0, full, b);
  }

  /** One step of the record or array commit. */
  method CommitValueKid(m: Buffer, at: nat, s: Schema, v: Value, init: bool, i: nat,
                        ghost c0: seq<Byte>, ghost b0: seq<Byte>, ghost b: seq<Byte>)
    returns (ghost b': seq<Byte>)
    requires m.Valid() && Wf(s) && !s.Atom? && Fits(s, v) && |b0| == s.Size() && at + s.Size() <= |c0|
    requires i < s.Count() && !IsTag(s, i) && Stage(s, b0, Encode(s, b0, v), b, i)
    requires m.cells[..] == Splice(c0, at, b) && (init || Valid(s, b0))
    modifies m, m.cells
    ensures m.Valid() && Stage(s, b0, Encode(s, b0, v), b', i + 1) && m.cells[..] == Splice(c0, at, b')
    ensures old(m.log) <= m.log && Inside(m.log, |old(m.log)|, at, at + s.Size())
    ensures v.Node? && i < |v.kids| && PublishedKid(s, v.kids[i], at, i, m.start, m.log, |old(m.log)|)
    ensures Only(s, at, m.log, |old(m.log)|, i)
    decreases s, 0, 1
  {
    hide Wf, WfKind, Fits, FitsKind, Valid, ValidKind, Encode, EncodeKind, Splice, Replay, Load, Stage, Room,
      PublishedKind, Only;
    WfKid(s, i);
    FitsKid(s, v, i);
    if !init { KidDecoded(s, b0, i); }
    if s.KindOf(i).Payload? {
      b' := CommitValueKidPayload(m, at, s, v, init, i, c0, b0, b);
    } else {
      b' := OwnStage(s, v, i, c0, at, b0, b);
      CommitValueKind(m, at + s.Off(i), s.Len(i), s.KindOf(i), v.kids[i], init);
      OnlyOwn(s, at, m.log, |old(m.log)|, i);
    }
  }

  method CommitValueKidPayload(m: Buffer, at: nat, s: Schema, v: Value, init: bool, i: nat,
                               ghost c0: seq<Byte>, ghost b0: seq<Byte>, ghost b: seq<Byte>)
    returns (ghost b': seq<Byte>)
    requires m.Valid() && Wf(s) && Fits(s, v) && |b0| == s.Size() && at + s.Size() <= |c0|
    requires i < s.Count() && s.KindOf(i).Payload? && Stage(s, b0, Encode(s, b0, v), b, i)
    requires m.cells[..] == Splice(c0, at, b) && (init || Valid(s, b0))
    modifies m, m.cells
    ensures m.Valid() && Stage(s, b0, Encode(s, b0, v), b', i + 1) && m.cells[..] == Splice(c0, at, b')
    ensures old(m.log) <= m.log && Inside(m.log, |old(m.log)|, at, at + s.Size())
    ensures v.Node? && i < |v.kids| && PublishedKid(s, v.kids[i], at, i, m.start, m.log, |old(m.log)|)
    ensures Only(s, at, m.log, |old(m.log)|, i)
    decreases s, 0, 0
  {
    hide Wf, WfKind, Fits, Valid, Encode, Splice, Replay, AfterPayload, Load, Tag, Stage, Room, Store, First,
      Published, Only;
    b' := PayloadStage(s, v, init, i, c0, at, b0, b);
    var arm, tagAt := ArmOf(s, v, i), at + s.Off(s.KindOf(i).tag);
    if !init && arm.Newtype? && Tag(s, b0, i) == arm.disc {
      LiveInBuffer(s, b0, v, i, m.cells[..], at + s.Off(i));
    }
    CommitValuePayload(m, at + s.Off(i), s.Len(i), arm, v.kids[i].body, tagAt, TagWire(s, i), init);
    PayloadPublished(s, v, at, i, m.start, m.log, |old(m.log)|);
  }

  /** The payload step's trace seen from the record. */
  lemma PayloadPublished(s: Schema, v: Value, at: nat, i: nat, start: seq<Byte>, log: seq<Write>, from: nat)
    requires Wf(s) && Fits(s, v) && i < s.Count() && s.KindOf(i).Payload? && at + s.Size() <= |start|
    requires PayloadTrace(start, log, from, at + s.Off(i), s.Len(i), at + s.Off(s.KindOf(i).tag), TagWire(s, i).width)
    requires ArmOf(s, v, i).Newtype? ==> Published(ArmOf(s, v, i).s, v.kids[i].body, at + s.Off(i), start, log, from)
    ensures PublishedKid(s, v.kids[i], at, i, start, log, from) && Only(s, at, log, from, i)
  {
    hide Wf, WfKind, Fits, FitsKind, Replay, Published, Schema.Off, Schema.Len;
    PayerOf(s, i);
    var t, w, arm := s.KindOf(i).tag, TagWire(s, i), ArmOf(s, v, i);
    forall n, j | from <= j < n <= |log| && at + s.Off(t) <= log[j].at < at + s.Off(t) + s.Len(t)
      ensures Replay(start, log[..n])[at + s.Off(i)..at + s.Off(i) + s.Len(i)]
        == Replay(start, log)[at + s.Off(i)..at + s.Off(i) + s.Len(i)]
    {
      assert !(at + s.Off(i) <= log[j].at < at + s.Off(i) + s.Len(i));
      assert at + s.Off(t) <= log[j].at < at + s.Off(t) + w.width;
    }
  }

  /** The step of an ordinary child seen from the record. */
  lemma OwnStage(s: Schema, v: Value, i: nat, c0: seq<Byte>, at: nat, b0: seq<Byte>, b: seq<Byte>)
    returns (b': seq<Byte>)
    requires Wf(s) && !s.Atom? && Fits(s, v) && |b0| == s.Size() && at + s.Size() <= |c0|
    requires i < s.Count() && !IsTag(s, i) && !s.KindOf(i).Payload? && Stage(s, b0, Encode(s, b0, v), b, i)
    ensures Stage(s, b0, Encode(s, b0, v), b', i + 1)
    ensures Splice(c0, at, b)[at + s.Off(i)..at + s.Off(i) + s.Len(i)] == Part(s, b0, i)
    ensures Splice(Splice(c0, at, b), at + s.Off(i), EncodeKid(s, b0, v, i)) == Splice(c0, at, b')
  {
    hide Wf, Fits, Encode, EncodeKind, Splice, Over;
    EncodeParts(s, b0, v);
    var y := EncodeKid(s, b0, v, i);
    assert Over(Part(s, b0, i), y) == y by { OverAll(Part(s, b0, i), y); }
    StageOwn(s, b0, Encode(s, b0, v), b, i, y);
    WindowPart(s, c0, at, b, i);
    SpliceWindow(c0, at, b, s.Off(i), y);
    b' := Splice(b, s.Off(i), y);
  }

  lemma FitsShape(s: Schema, v: Value)
    requires !s.Atom? && Fits(s, v)
    ensures v.Node? && |v.kids| == s.Count()
  {}

  lemma OverAll(x: seq<Byte>, y: seq<Byte>)
    requires |x| == |y|
    ensures Over(x, y) == y
  {}

  lemma Front(c: seq<Byte>, lo: nat, n: nat, k: nat)
    requires lo + n <= |c| && k <= n
    ensures c[lo..lo + n][..k] == c[lo..lo + k]
  {}

  lemma WindowPart(s: Schema, c0: seq<Byte>, at: nat, b: seq<Byte>, k: nat)
    requires s.Framed() && |b| == s.Size() && at + |b| <= |c0| && k < s.Count()
    ensures Splice(c0, at, b)[at + s.Off(k)..at + s.Off(k) + s.Len(k)] == Part(s, b, k)
  {}

  /** An ordinary field is committed in place; an option is cleared, or its value initialised. */
  method CommitValueKind(m: Buffer, at: nat, n: nat, kind: Kind, v: Value, init: bool)
    requires m.Valid() && WfKind(kind) && !kind.Payload? && Room(kind, n) && FitsKind(kind, v)
    requires at + n <= m.cells.Length && (init || ValidKind(kind, 0, Span(m, at, n)))
    modifies m, m.cells
    ensures m.Valid()
    ensures m.cells[..] == Splice(old(m.cells[..]), at, EncodeKind(kind, old(Span(m, at, n)), v))
    ensures old(m.log) <= m.log && Inside(m.log, |old(m.log)|, at, at + n)
    ensures PublishedKind(kind, v, at, m.start, m.log, |old(m.log)|)
    decreases kind
  {
    hide Splice, Replay, Encode, Published, Wf, Valid, Fits, Over;
    ghost var c0, x := m.cells[..], Span(m, at, n);
    if kind.Optional? && v.Nothing? {
      m.Clear(at, n);
    } else {
      var w := if kind.Own? then v else v.w;
      Front(c0, at, n, kind.s.Size());
      CommitValue(m, at, kind.s, w, init || kind.Optional?);
      SpliceFront(c0, at, n, Encode(kind.s, x[..kind.s.Size()], w));
    }
  }

  lemma SpliceFront(c: seq<Byte>, at: nat, n: nat, y: seq<Byte>)
    requires at + n <= |c| && |y| <= n
    ensures Splice(c, at, y) == Splice(c, at, Over(c[at..at + n], y))
  {}

  // ----- externally tagged payloads -----

  /** `commit_payload_before_tag_with` for a logical source: the payload, then the tag. */
  method ValueBeforeTag(m: Buffer, at: nat, n: nat, arm: Arm, body: Value, tagAt: nat, w: Wire)
    requires m.Valid() && at + n <= m.cells.Length && tagAt + w.width <= m.cells.Length
    requires at + n <= tagAt || tagAt + w.width <= at
    requires arm.Newtype? ==> Wf(arm.s) && arm.s.Size() <= n && Fits(arm.s, body)
    modifies m, m.cells
    ensures m.Valid()
    ensures m.cells[..] ==
      Splice(Splice(old(m.cells[..]), at, ArmBytes(arm, old(Span(m, at, n)), body)), tagAt, Store(w, arm.disc))
    ensures old(m.log) <= m.log
    ensures PayloadTrace(m.start, m.log, |old(m.log)|, at, n, tagAt, w.width)
    ensures arm.Newtype? ==> Published(arm.s, body, at, m.start, m.log, |old(m.log)|)
    ensures arm.Newtype? ==> Valid(arm.s, m.cells[..][at..at + arm.s.Size()])
    decreases arm, 0
  {
    hide Splice, Replay, Store, Encode, Wf, Fits, Valid, PayloadTrace, Published;
    BeforeTag(m.cells[..], at, n, arm, body, tagAt, Store(w, arm.disc));
    if arm.Newtype? {
      CommitValue(m, at, arm.s, body, true);
    }
    ghost var log := m.log;
    m.Put(tagAt, Store(w, arm.disc));
    PayloadThenTag(arm, body, m.start, log, m.log, |old(m.log)|, at, n, tagAt, w.width);
  }

  /** A payload written before a tag beside it stays valid. */
  lemma BeforeTag(c: seq<Byte>, at: nat, n: nat, arm: Arm, body: Value, tagAt: nat, z: seq<Byte>)
    requires at + n <= |c| && tagAt + |z| <= |c| && (at + n <= tagAt || tagAt + |z| <= at)
    requires arm.Newtype? ==> Wf(arm.s) && arm.s.Size() <= n && Fits(arm.s, body)
    ensures var y := ArmBytes(arm, c[at..at + n], body);
      && (arm.Unit? ==> Splice(c, at, y) == c)
      && (arm.Newtype? ==> y == Encode(arm.s, c[at..at + arm.s.Size()], body))
      && (arm.Newtype? ==> Valid(arm.s, Splice(Splice(c, at, y), tagAt, z)[at..at + arm.s.Size()]))
  {
    hide Encode, Valid, Wf, Fits;
    if arm.Newtype? {
      Front(c, at, n, arm.s.Size());
      EncodeThenDecode(arm.s, c[at..at + arm.s.Size()], body);
      SpliceAside(Splice(c, at, Encode(arm.s, c[at..at + arm.s.Size()], body)), tagAt, z, at, at + arm.s.Size());
    } else {
      SpliceSelf(c, at, 0);
    }
  }

  /** What a payload commit stores for variant `arm`: nothing for a unit variant. */
  ghost function ArmBytes(arm: Arm, x: seq<Byte>, body: Value): (y: seq<Byte>)
    requires arm.Newtype? ==> Wf(arm.s) && arm.s.Size() <= |x| && Fits(arm.s, body)
    ensures |y| <= |x|
  {
    if arm.Unit? then [] else Encode(arm.s, x[..arm.s.Size()], body)
  }

  /** The wire of payload `i`'s tag. */
  function TagWire(s: Schema, i: nat): (w: Wire)
    requires Wf(s) && i < s.Count() && s.KindOf(i).Payload?
    ensures s.Record? && s.KindOf(i).tag < s.Count() && s.Framed()
    ensures WireWf(w) && w.width <= s.Len(s.KindOf(i).tag)
    ensures s.Off(i) + s.Len(i) <= s.Off(s.KindOf(i).tag) || s.Off(s.KindOf(i).tag) + s.Len(s.KindOf(i).tag) <= s.Off(i)
  {
    PayerOf(s, i);
    WfKid(s, s.KindOf(i).tag);
    s.KindOf(s.KindOf(i).tag).s.leaf.w
  }

  /** The variant of payload `i` in the value `v`. */
  function ArmOf(s: Schema, v: Value, i: nat): (arm: Arm)
    requires Wf(s) && Fits(s, v) && i < s.Count() && s.KindOf(i).Payload?
    ensures v.Node? && |v.kids| == s.Count() && v.kids[i].Case? && s.Record?
    ensures v.kids[i].pick < |s.fields[i].kind.arms| && arm == s.fields[i].kind.arms[v.kids[i].pick]
    ensures arm.Newtype? ==> Wf(arm.s) && arm.s.Size() <= s.Len(i) && Fits(arm.s, v.kids[i].body)
  {
    WfKid(s, i);
    FitsKid(s, v, i);
    s.KindOf(i).arms[v.kids[i].pick]
  }

  /** Where a committed payload ends up. */
  lemma PayloadTarget(s: Schema, b0: seq<Byte>, v: Value, i: nat)
    requires Wf(s) && |b0| == s.Size() && Fits(s, v) && i < s.Count() && s.KindOf(i).Payload?
    ensures s.Framed()
    ensures Part(s, Encode(s, b0, v), i) ==
      Over(Part(s, b0, i), ArmBytes(ArmOf(s, v, i), Part(s, b0, i), v.kids[i].body))
  {
    hide Wf, WfKind, Encode, EncodeKind, Fits, FitsKind, ArmBytes, Over;
    WfKid(s, i);
    FitsKid(s, v, i);
    EncodeParts(s, b0, v);
    ArmTarget(s.KindOf(i), Part(s, b0, i), v.kids[i]);
  }

  lemma ArmTarget(kind: Kind, x: seq<Byte>, v: Value)
    requires WfKind(kind) && kind.Payload? && Room(kind, |x|) && FitsKind(kind, v)
    ensures EncodeKind(kind, x, v) == Over(x, ArmBytes(kind.arms[v.pick], x, v.body))
  {
    hide Wf, Encode, Fits;
    assert Over(x, []) == x;
  }

  /** Where its tag ends up; a tag that already names the variant keeps its bytes. */
  lemma TagTarget(s: Schema, b0: seq<Byte>, v: Value, i: nat)
    requires Wf(s) && |b0| == s.Size() && Fits(s, v) && i < s.Count() && s.KindOf(i).Payload?
    ensures s.Framed() && s.KindOf(i).tag < s.Count() && TagWire(s, i).width <= s.Len(s.KindOf(i).tag)
    ensures var t, z := s.KindOf(i).tag, Store(TagWire(s, i), ArmOf(s, v, i).disc);
      && Part(s, Encode(s, b0, v), t) == Over(Part(s, b0, t), z)
      && Tag(s, b0, i) == Load(TagWire(s, i).order, Part(s, b0, t)[..TagWire(s, i).width])
      && (Tag(s, b0, i) == ArmOf(s, v, i).disc ==> Over(Part(s, b0, t), z) == Part(s, b0, t))
  {
    hide Encode, Fits, Store, Load;
    PayerOf(s, i);
    FitsKid(s, v, i);
    EncodeParts(s, b0, v);
    var t := s.KindOf(i).tag;
    WfKid(s, t);
    FitsKid(s, v, t);
    assert v.kids[t] == Leaf(Bits(ArmOf(s, v, i).disc));
    TagStore(s.KindOf(t).s, Part(s, b0, t), ArmOf(s, v, i).disc);
  }

  lemma TagStore(s: Schema, x: seq<Byte>, d: nat)
    requires Wf(s) && s.Atom? && s.leaf.Enum? && s.Size() <= |x| && d in s.leaf.discs
    ensures EncodeKind(Own(s), x, Leaf(Bits(d))) == Over(x, Store(s.leaf.w, d))
    ensures Load(s.leaf.w.order, x[..s.leaf.w.width]) == d ==> Over(x, Store(s.leaf.w, d)) == x
  {
    hide Store, Load;
    StoreLoad(s.leaf.w, x[..s.leaf.w.width]);
    assert Fits(s, Leaf(Bits(d)));
  }

  /** The live variant is proved. */
  lemma LiveArm(s: Schema, b0: seq<Byte>, v: Value, i: nat)
    requires Wf(s) && |b0| == s.Size() && Fits(s, v) && i < s.Count() && s.KindOf(i).Payload?
    requires Valid(s, b0) && Tag(s, b0, i) == ArmOf(s, v, i).disc && ArmOf(s, v, i).Newtype?
    ensures s.Framed() && Valid(ArmOf(s, v, i).s, Part(s, b0, i)[..ArmOf(s, v, i).s.Size()])
  {
    WfKid(s, i);
    FitsKid(s, v, i);
    KidDecoded(s, b0, i);
    PickOwn(s.KindOf(i).arms, v.kids[i].pick);
  }

  /** The buffer after a payload step: the variant decision is taken again from the live tag. */
  ghost function AfterPayload(c: seq<Byte>, at: nat, n: nat, arm: Arm, body: Value, tagAt: nat, w: Wire,
                              init: bool): (r: seq<Byte>)
    requires at + n <= |c| && tagAt + w.width <= |c|
    requires arm.Newtype? ==> Wf(arm.s) && arm.s.Size() <= n && Fits(arm.s, body)
  {
    var r := Splice(c, at, ArmBytes(arm, c[at..at + n], body));
    if init || Load(w.order, c[tagAt..tagAt + w.width]) != arm.disc then Splice(r, tagAt, Store(w, arm.disc)) else r
  }

  lemma AfterPayloadWindow(c0: seq<Byte>, at: nat, b: seq<Byte>, o: nat, n: nat, arm: Arm, body: Value, to: nat,
                           w: Wire, init: bool)
    requires at + |b| <= |c0| && o + n <= |b| && to + w.width <= |b|
    requires arm.Newtype? ==> Wf(arm.s) && arm.s.Size() <= n && Fits(arm.s, body)
    ensures Splice(c0, at, b)[at + o..at + o + n] == b[o..o + n]
    ensures Splice(c0, at, b)[at + to..at + to + w.width] == b[to..to + w.width]
    ensures AfterPayload(Splice(c0, at, b), at + o, n, arm, body, at + to, w, init)
      == Splice(c0, at, AfterPayload(b, o, n, arm, body, to, w, init))
  {
    hide Wf, Fits, Store, Load, ArmBytes, Splice;
    WindowSlice(c0, at, b, o, n);
    WindowSlice(c0, at, b, to, w.width);
    var y := ArmBytes(arm, b[o..o + n], body);
    SpliceWindow(c0, at, b, o, y);
    SpliceWindow(c0, at, Splice(b, o, y), to, Store(w, arm.disc));
  }

  lemma WindowSlice(c0: seq<Byte>, at: nat, b: seq<Byte>, o: nat, n: nat)
    requires at + |b| <= |c0| && o + n <= |b|
    ensures Splice(c0, at, b)[at + o..at + o + n] == b[o..o + n]
  {}

  /** The payload step seen from the record: it takes the decision preflight took, and ends with the
      payload and its tag done. */
  lemma PayloadStage(s: Schema, v: Value, init: bool, i: nat, c0: seq<Byte>, at: nat, b0: seq<Byte>, b: seq<Byte>)
    returns (b': seq<Byte>)
    requires Wf(s) && Fits(s, v) && |b0| == s.Size() && at + s.Size() <= |c0|
    requires i < s.Count() && s.KindOf(i).Payload? && Stage(s, b0, Encode(s, b0, v), b, i)
    ensures Stage(s, b0, Encode(s, b0, v), b', i + 1)
    ensures var c := Splice(c0, at, b);
      && Load(TagWire(s, i).order,
              c[at + s.Off(s.KindOf(i).tag)..at + s.Off(s.KindOf(i).tag) + TagWire(s, i).width]) == Tag(s, b0, i)
      && c[at + s.Off(i)..at + s.Off(i) + s.Len(i)] == Part(s, b0, i)
      && AfterPayload(c, at + s.Off(i), s.Len(i), ArmOf(s, v, i), v.kids[i].body,
                      at + s.Off(s.KindOf(i).tag), TagWire(s, i), init)
         == Splice(c0, at, b')
  {
    hide Wf, WfKind, Encode, EncodeKind, Fits, FitsKind, Valid, Store, Load, Splice, Over, Tag, ArmBytes, Stage, Room,
      Coupled, TagWire, ArmOf;
    PayloadTarget(s, b0, v, i);
    TagTarget(s, b0, v, i);
    TagUntouched(s, b0, Encode(s, b0, v), b, i);
    var t, arm, w := s.KindOf(i).tag, ArmOf(s, v, i), TagWire(s, i);
    AfterPayloadWindow(c0, at, b, s.Off(i), s.Len(i), arm, v.kids[i].body, s.Off(t), w, init);
    Front(b, s.Off(t), s.Len(t), w.width);
    b' := AfterPayload(b, s.Off(i), s.Len(i), arm, v.kids[i].body, s.Off(t), w, init);
    var y := ArmBytes(arm, Part(s, b0, i), v.kids[i].body);
    if init || Tag(s, b0, i) != arm.disc {
      StageSwitch(s, b0, Encode(s, b0, v), b, i, y, Store(w, arm.disc));
    } else {
      StageSame(s, b0, Encode(s, b0, v), b, i, y);
    }
  }

  /** A variant the live tag selects is live in the buffer. */
  lemma LiveInBuffer(s: Schema, b0: seq<Byte>, v: Value, i: nat, c: seq<Byte>, lo: nat)
    requires Wf(s) && |b0| == s.Size() && Fits(s, v) && i < s.Count() && s.KindOf(i).Payload? && s.Framed()
    requires Valid(s, b0) && lo + s.Len(i) <= |c| && c[lo..lo + s.Len(i)] == Part(s, b0, i)
    requires Tag(s, b0, i) == ArmOf(s, v, i).disc && ArmOf(s, v, i).Newtype?
    ensures Valid(ArmOf(s, v, i).s, c[lo..lo + ArmOf(s, v, i).s.Size()])
  {
    hide Wf, Fits, Valid, Tag;
    LiveArm(s, b0, v, i);
    Front(c, lo, s.Len(i), ArmOf(s, v, i).s.Size());
  }

  /** The payload step of a logical source. */
  method CommitValuePayload(m: Buffer, at: nat, n: nat, arm: Arm, body: Value, tagAt: nat, w: Wire, init: bool)
    requires m.Valid() && at + n <= m.cells.Length && tagAt + w.width <= m.cells.Length
    requires at + n <= tagAt || tagAt + w.width <= at
    requires arm.Newtype? ==> Wf(arm.s) && arm.s.Size() <= n && Fits(arm.s, body)
    requires !init && arm.Newtype? && Load(w.order, m.cells[..][tagAt..tagAt + w.width]) == arm.disc ==>
      Valid(arm.s, m.cells[..][at..at + arm.s.Size()])
    modifies m, m.cells
    ensures m.Valid() && m.cells[..] == AfterPayload(old(m.cells[..]), at, n, arm, body, tagAt, w, init)
    ensures old(m.log) <= m.log
    ensures PayloadTrace(m.start, m.log, |old(m.log)|, at, n, tagAt, w.width)
    ensures arm.Newtype? ==> Published(arm.s, body, at, m.start, m.log, |old(m.log)|)
    decreases arm, 1
  {
    hide Splice, Replay, Store, Load, Encode, Wf, Fits, Valid, Published;
    ghost var c0 := m.cells[..];
    if init || Load(w.order, m.cells[tagAt..tagAt + w.width]) != arm.disc {
      ValueBeforeTag(m, at, n, arm, body, tagAt, w);
    } else if arm.Newtype? {
      Front(c0, at, n, arm.s.Size());
      CommitValue(m, at, arm.s, body, false);
    } else {
      SpliceSelf(c0, at, 0);
    }
  }
}
