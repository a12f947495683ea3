/** The commit pass of a patch, and `copy_from`. */
module PatchCommits {
  import opened Bytes
  import opened Schemas
  import opened Codec
  import opened RoundTrip
  import opened Patches
  import opened PatchLaws
  import opened Frames
  import opened Buffers
  import opened Stages
  import opened Traces
  import opened Commits

  /** What the commit of a patch may assume: preflight accepted it, over a valid span or, when the
      pass initialises, as a complete patch over any bytes. */
  predicate Ready(s: Schema, init: bool, b: seq<Byte>, p: Patch)
    requires Wf(s) && |b| == s.Size()
  {
    TypedPatch(s, p) && (if init then Complete(s, p) else Valid(s, b)) && Accepts(s, Live(s, init, b), p)
  }

  predicate ReadyKind(kind: Kind, init: bool, d: nat, x: seq<Byte>, q: Patch)
    requires WfKind(kind) && Room(kind, |x|)
  {
    && TypedPatchKind(kind, q) && (if init then CompleteKind(kind, q) else ValidKind(kind, d, x))
    && AcceptsKind(kind, LiveKind(kind, init, d, x), q)
  }

  /** Each child of a ready record is ready, and its new value is its own patch applied. */
  lemma ReadyKid(s: Schema, init: bool, b0: seq<Byte>, p: Patch, i: nat)
    requires Wf(s) && |b0| == s.Size() && p.Fields? && Ready(s, init, b0, p) && i < s.Count() && !IsTag(s, i)
    ensures s.Record? && s.Framed() && WfKind(s.KindOf(i)) && Room(s.KindOf(i), s.Len(i)) && i < |p.kids|
    ensures ReadyKind(s.KindOf(i), init, Tag(s, b0, i), Part(s, b0, i), p.kids[i])
    ensures Fits(s, Apply(s, Live(s, init, b0), p))
    ensures Apply(s, Live(s, init, b0), p).kids[i]
      == ApplyKind(s.KindOf(i), LiveKind(s.KindOf(i), init, Tag(s, b0, i), Part(s, b0, i)), p.kids[i])
  {
    LiveFits(s, init, b0, p);
    WfKid(s, i);
    assert TypedPatchKind(s.KindOf(i), p.kids[i]);
    if init { assert CompleteKind(s.KindOf(i), p.kids[i]); } else { KidDecoded(s, b0, i); }
    assert Apply(s, Live(s, init, b0), p).kids[i] == ApplyKid(s, Live(s, init, b0), p.kids, i);
  }

  /** A payload that is kept keeps its tag. */
  lemma KeptTag(s: Schema, init: bool, b0: seq<Byte>, p: Patch, i: nat)
    requires Wf(s) && |b0| == s.Size() && p.Fields? && Ready(s, init, b0, p)
    requires i < s.Count() && i < |p.kids| && s.KindOf(i).Payload? && p.kids[i].Keep?
    ensures s.Framed() && Fits(s, Apply(s, Live(s, init, b0), p)) && s.KindOf(i).tag < s.Count()
    ensures Part(s, Encode(s, b0, Apply(s, Live(s, init, b0), p)), s.KindOf(i).tag) == Part(s, b0, s.KindOf(i).tag)
  {
    hide Encode, Wf, Valid, Decode;
    LiveFits(s, init, b0, p);
    PayerOf(s, i);
    var t, v := s.KindOf(i).tag, Apply(s, Live(s, init, b0), p);
    WfKid(s, t);
    EncodeParts(s, b0, v);
    assert init ==> CompleteKind(s.KindOf(i), p.kids[i]);
    KidDecoded(s, b0, t);
    DecodeThenEncodeKind(s.KindOf(t), Tag(s, b0, t), Part(s, b0, t));
    assert v.kids[t] == ApplyKid(s, Live(s, init, b0), p.kids, t);
  }

  lemma KeptStage(s: Schema, init: bool, v: Value, i: nat, c0: seq<Byte>, at: nat, b0: seq<Byte>, b: seq<Byte>,
                  q: Patch)
    returns (b': seq<Byte>)
    requires Wf(s) && s.Record? && Fits(s, v) && |b0| == s.Size() && at + s.Size() <= |c0|
    requires i < s.Count() && s.KindOf(i).Payload? && Stage(s, b0, Encode(s, b0, v), b, i)
    requires WfKind(s.KindOf(i)) && Room(s.KindOf(i), s.Len(i)) && q.Keep?
    requires ReadyKind(s.KindOf(i), init, Tag(s, b0, i), Part(s, b0, i), q)
    requires v.kids[i] == ApplyKind(s.KindOf(i), LiveKind(s.KindOf(i), init, Tag(s, b0, i), Part(s, b0, i)), q)
    requires s.KindOf(i).tag < s.Count() && Part(s, Encode(s, b0, v), s.KindOf(i).tag) == Part(s, b0, s.KindOf(i).tag)
    ensures Stage(s, b0, Encode(s, b0, v), b', i + 1) && Splice(c0, at, b') == Splice(c0, at, b)
  {
    hide Wf, Encode, Valid, Stage;
    EncodeParts(s, b0, v);
    DecodeThenEncodeKind(s.KindOf(i), Tag(s, b0, i), Part(s, b0, i));
    assert Over(Part(s, b0, i), []) == Part(s, b0, i);
    StageSame(s, b0, Encode(s, b0, v), b, i, []);
    TagUntouched(s, b0, Encode(s, b0, v), b, i);
    SpliceSelf(b, s.Off(i), 0);
    b' := b;
  }

  /** A step without stores. */
  lemma NothingPublished(s: Schema, w: Value, at: nat, i: nat, start: seq<Byte>, log: seq<Write>)
    requires Wf(s) && i < s.Count() && at + s.Size() <= |start|
    ensures PublishedKid(s, w, at, i, start, log, |log|) && Only(s, at, log, |log|, i)
  {
    hide Wf, WfKind, Replay;
    WfKid(s, i);
    if s.KindOf(i).Payload? { PayerOf(s, i); }
    PublishedKindQuiet(s.KindOf(i), w, at + s.Off(i), s.Len(i), start, log, |log|);
  }

  /** `commit` and, with `init`, `commit_init`. */
  method CommitPatch(m: Buffer, at: nat, s: Schema, p: Patch, init: bool)
    requires m.Valid() && Wf(s) && at + s.Size() <= m.cells.Length && Ready(s, init, Span(m, at, s.Size()), p)
    modifies m, m.cells
    ensures m.Valid()
    ensures m.cells[..] == Splice(old(m.cells[..]), at, Patched(s, init, old(Span(m, at, s.Size())), p))
    ensures old(m.log) <= m.log && Inside(m.log, |old(m.log)|, at, at + s.Size())
    ensures Published(s, Apply(s, old(Live(s, init, Span(m, at, s.Size()))), p), at, m.start, m.log, |old(m.log)|)
    decreases s, 2
  {
    hide Splice, Replay, Wf, Valid, Decode, Encode, Fits, Published;
    LiveFits(s, init, Span(m, at, s.Size()), p);
    if p.Put? {
      CommitValue(m, at, s, p.v, init);
    } else if p.Fields? {
      CommitPatchKids(m, at, s, p, init);
    } else {
      DecodeThenEncode(s, Span(m, at, s.Size()));
      SpliceSelf(m.cells[..], at, s.Size());
      PublishedQuiet(s, Live(s, init, Span(m, at, s.Size())), at, m.start, m.log, |m.log|);
    }
  }

  method CommitPatchKids(m: Buffer, at: nat, s: Schema, p: Patch, init: bool)
    requires m.Valid() && Wf(s) && p.Fields? && at + s.Size() <= m.cells.Length &&
      Ready(s, init, Span(m, at, s.Size()), p)
    modifies m, m.cells
    ensures m.Valid()
    ensures m.cells[..] == Splice(old(m.cells[..]), at, Patched(s, init, old(Span(m, at, s.Size())), p))
    ensures old(m.log) <= m.log && Inside(m.log, |old(m.log)|, at, at + s.Size())
    ensures Published(s, Apply(s, old(Live(s, init, Span(m, at, s.Size()))), p), at, m.start, m.log, |old(m.log)|)
    decreases s, 1
  {
    hide Wf, Fits, Valid, Encode, Splice, Replay, Accepts, Complete, Apply, Live, PublishedKid, Behind, Only, Stage;
    ghost var c0, b0 := m.cells[..], Span(m, at, s.Size());
    LiveFits(s, init, b0, p);
    ghost var v := Apply(s, Live(s, init, b0), p);
    ghost var full, b := Encode(s, b0, v), b0;
    EncodeParts(s, b0, v);
    SpliceSelf(c0, at, s.Size());
    StageStart(s, b0, full);
    BehindStart(s, at, m.log);
    FitsShape(s, v);
    for i := 0 to s.Count()
      invariant m.Valid() && |b| == s.Size() && Stage(s, b0, full, b, i) && m.cells[..] == Splice(c0, at, b)
      invariant old(m.log) <= m.log && Inside(m.log, |old(m.log)|, at, at + s.Size())
      invariant Behind(s, at, m.log, |old(m.log)|, i)
      invariant forall k :: 0 <= k < i ==> PublishedKid(s, v.kids[k], at, k, m.start, m.log, |old(m.log)|)
    {
      if IsTag(s, i) {
        StageSkip(s, b0, full, b, i);
        SkipPublished(s, v, at, m.start, m.log, |old(m.log)|, i);
      } else {
        b := CommitPatchStep(m, at, s, p, init, i, v, c0, b0, b, |old(m.log)|);
      }
    }
    StageEnd(s, b0, full, b);
  }

  /** One turn of the loop over the fields. */
  method CommitPatchStep(m: Buffer, at: nat, s: Schema, p: Patch, init: bool, i: nat,
                         ghost v: Value, ghost c0: seq<Byte>, ghost b0: seq<Byte>, ghost b: seq<Byte>, ghost from: nat)
    returns (ghost b': seq<Byte>)
    requires m.Valid() && Wf(s) && p.Fields? && |b0| == s.Size() && at + s.Size() <= |c0| && Ready(s, init, b0, p)
    requires v == Apply(s, Live(s, init, b0), p) && Fits(s, v) && v.Node? && |v.kids| == s.Count()
    requires i < s.Count() && !IsTag(s, i) && Stage(s, b0, Encode(s, b0, v), b, i) && |b| == s.Size()
    requires m.cells[..] == Splice(c0, at, b) && from <= |m.log| && Behind(s, at, m.log, from, i)
    requires forall k :: 0 <= k < i ==> PublishedKid(s, v.kids[k], at, k, m.start, m.log, from)
    modifies m, m.cells
    ensures m.Valid() && |b'| == s.Size() && Stage(s, b0, Encode(s, b0, v), b', i + 1) &&
      m.cells[..] == Splice(c0, at, b')
    ensures old(m.log) <= m.log && Inside(m.log, |old(m.log)|, at, at + s.Size())
    ensures Behind(s, at, m.log, from, i + 1)
    ensures forall k :: 0 <= k <= i ==> PublishedKid(s, v.kids[k], at, k, m.start, m.log, from)
    decreases s, 0, 2
  {
    hide Wf, Fits, Valid, Encode, Splice, Replay, Accepts, Complete, Apply, Live, PublishedKid, Behind, Only, Stage,
      Ready;
    ReadyKid(s, init, b0, p, i);
    if p.kids[i].Keep? && s.KindOf(i).Payload? { KeptTag(s, init, b0, p, i); }
    b' := CommitPatchKid(m, at, s, p.kids[i], init, i, v, c0, b0, b);
    StepPublished(s, v, at, m.start, old(m.log), m.log, from, i);
    StageSize(s, b0, Encode(s, b0, v), b', i + 1);
  }

  /** One step of the record commit. */
  method CommitPatchKid(m: Buffer, at: nat, s: Schema, q: Patch, init: bool, i: nat,
                        ghost v: Value, ghost c0: seq<Byte>, ghost b0: seq<Byte>, ghost b: seq<Byte>)
    returns (ghost b': seq<Byte>)
    requires m.Valid() && Wf(s) && s.Record? && Fits(s, v) && |b0| == s.Size() && at + s.Size() <= |c0|
    requires i < s.Count() && !IsTag(s, i) && Stage(s, b0, Encode(s, b0, v), b, i)
    requires m.cells[..] == Splice(c0, at, b) && WfKind(s.KindOf(i)) && Room(s.KindOf(i), s.Len(i))
    requires ReadyKind(s.KindOf(i), init, Tag(s, b0, i), Part(s, b0, i), q)
    requires v.kids[i] == ApplyKind(s.KindOf(i), LiveKind(s.KindOf(i), init, Tag(s, b0, i), Part(s, b0, i)), q)
    requires q.Keep? && s.KindOf(i).Payload? && s.KindOf(i).tag < s.Count() ==>
      Part(s, Encode(s, b0, v), s.KindOf(i).tag) == Part(s, b0, s.KindOf(i).tag)
    modifies m, m.cells
    ensures m.Valid() && Stage(s, b0, Encode(s, b0, v), b', i + 1) && m.cells[..] == Splice(c0, at, b')
    ensures old(m.log) <= m.log && Inside(m.log, |old(m.log)|, at, at + s.Size())
    ensures v.Node? && i < |v.kids| && PublishedKid(s, v.kids[i], at, i, m.start, m.log, |old(m.log)|)
    ensures Only(s, at, m.log, |old(m.log)|, i)
    decreases s, 0, 1
  {
    hide Wf, WfKind, Fits, FitsKind, Valid, ValidKind, Encode, EncodeKind, Splice, Replay, Load, Stage, Room,
      AcceptsKind, CompleteKind, ApplyKind, LiveKind, PublishedKind, Only;
    WfKid(s, i);
    FitsShape(s, v);
    if s.KindOf(i).Payload? && q.Keep? {
      b' := KeptStage(s, init, v, i, c0, at, b0, b, q);
      NothingPublished(s, v.kids[i], at, i, m.start, m.log);
    } else if s.KindOf(i).Payload? {
      b' := CommitPatchKidPayload(m, at, s, q, init, i, v, c0, b0, b);
    } else {
      b' := OwnStage(s, v, i, c0, at, b0, b);
      CommitPatchKind(m, at + s.Off(i), s.Len(i), s.KindOf(i), q, init);
      OnlyOwn(s, at, m.log, |old(m.log)|, i);
    }
  }

  /** An ordinary field's patch is committed in place. An option is cleared, updated while present,
      or initialised while absent, as its live storage says. */
  method CommitPatchKind(m: Buffer, at: nat, n: nat, kind: Kind, q: Patch, init: bool)
    requires m.Valid() && WfKind(kind) && !kind.Payload? && Room(kind, n) && at + n <= m.cells.Length
    requires ReadyKind(kind, init, 0, Span(m, at, n), q)
    modifies m, m.cells
    ensures m.Valid()
    ensures FitsKind(kind, ApplyKind(kind, old(LiveKind(kind, init, 0, Span(m, at, n))), q))
    ensures m.cells[..] == Splice(old(m.cells[..]), at,
      EncodeKind(kind, old(Span(m, at, n)), ApplyKind(kind, old(LiveKind(kind, init, 0, Span(m, at, n))), q)))
    ensures old(m.log) <= m.log && Inside(m.log, |old(m.log)|, at, at + n)
    ensures PublishedKind(kind, ApplyKind(kind, old(LiveKind(kind, init, 0, Span(m, at, n))), q), at, m.start, m.log,
      |old(m.log)|)
    decreases kind
  {
    hide Splice, Replay, Wf, Fits, Valid, Decode, Encode, Accepts, Complete, Published;
    ghost var c0, x := m.cells[..], Span(m, at, n);
    PatchedKind(kind, init, x, q);
    if q.Keep? {
      SpliceSelf(c0, at, n);
      PublishedKindQuiet(kind, LiveKind(kind, init, 0, x), at, n, m.start, m.log, |m.log|);
    } else if kind.Optional? && q.SetNone? {
      m.Clear(at, n);
    } else {
      var inner := if kind.Own? then q else q.p;
      var absent := kind.Optional? && !init && AllZero(m.cells[..][at..at + n]);
      Front(c0, at, n, kind.s.Size());
      CommitPatch(m, at, kind.s, inner, init || absent);
      SpliceFront(c0, at, n, Patched(kind.s, init || absent, x[..kind.s.Size()], inner));
    }
  }

  /** What the patch of an ordinary field or an option writes. */
  lemma PatchedKind(kind: Kind, init: bool, x: seq<Byte>, q: Patch)
    requires WfKind(kind) && !kind.Payload? && Room(kind, |x|) && ReadyKind(kind, init, 0, x, q)
    ensures var w := ApplyKind(kind, LiveKind(kind, init, 0, x), q);
      && FitsKind(kind, w)
      && (q.Keep? ==> EncodeKind(kind, x, w) == x)
      && (kind.Optional? && q.SetNone? ==> EncodeKind(kind, x, w) == Zeros(|x|))
      && (!q.Keep? && !q.SetNone? ==>
            var inner, anew := if kind.Own? then q else q.p, init || (kind.Optional? && AllZero(x));
            && Ready(kind.s, anew, x[..kind.s.Size()], inner)
            && EncodeKind(kind, x, w) == Over(x, Patched(kind.s, anew, x[..kind.s.Size()], inner)))
  {
    if !init { DecodeThenEncodeKind(kind, 0, x); }
    AcceptedFitsKind(kind, LiveKind(kind, init, 0, x), q);
  }

  // ----- externally tagged payloads -----

  /** The chosen variant of a ready payload patch: ready to be initialised when it is a switch or the
      pass initialises, ready to be updated when the live tag already selects it. */
  predicate ReadyArm(arm: Arm, switch: bool, x: seq<Byte>, q: Patch, body: Value) {
    arm.Newtype? ==>
      && Wf(arm.s) && arm.s.Size() <= |x| && Ready(arm.s, switch, x[..arm.s.Size()], q)
      && body == Apply(arm.s, Live(arm.s, switch, x[..arm.s.Size()]), q) && Fits(arm.s, body)
  }

  lemma ReadyPayload(kind: Kind, init: bool, d: nat, x: seq<Byte>, q: Patch)
    requires WfKind(kind) && kind.Payload? && Room(kind, |x|) && DistinctArms(kind.arms) && q.Choose?
    requires ReadyKind(kind, init, d, x, q)
    ensures q.pick < |kind.arms|
    ensures var w, arm := ApplyKind(kind, LiveKind(kind, init, d, x), q), kind.arms[q.pick];
      w.Case? && w.pick == q.pick && ReadyArm(arm, init || d != arm.disc, x, q.p, w.body)
  {
    var arm := kind.arms[q.pick];
    PickOwn(kind.arms, q.pick);
    if arm.Newtype? { LiveFits(arm.s, init || d != arm.disc, x[..arm.s.Size()], q.p); }
  }

  /** `commit_payload_before_tag_with` for a patch: the complete payload, then the tag. */
  method PatchBeforeTag(m: Buffer, at: nat, n: nat, arm: Arm, q: Patch, ghost body: Value, tagAt: nat, w: Wire)
    requires m.Valid() && at + n <= m.cells.Length && tagAt + w.width <= m.cells.Length
    requires at + n <= tagAt || tagAt + w.width <= at
    requires ReadyArm(arm, true, Span(m, at, n), q, body)
    modifies m, m.cells
    ensures m.Valid()
    ensures m.cells[..] ==
      Splice(Splice(old(m.cells[..]), at, ArmBytes(arm, old(Span(m, at, n)), body)), tagAt, Store(w, arm.disc))
    ensures old(m.log) <= m.log
    ensures PayloadTrace(m.start, m.log, |old(m.log)|, at, n, tagAt, w.width)
    ensures arm.Newtype? ==> Published(arm.s, body, at, m.start, m.log, |old(m.log)|)
    ensures arm.Newtype? ==> Valid(arm.s, m.cells[..][at..at + arm.s.Size()])
    decreases arm, 0
  {
    hide Splice, Replay, Store, Encode, Wf, Fits, Valid, PayloadTrace, Published, Ready, Apply;
    BeforeTag(m.cells[..], at, n, arm, body, tagAt, Store(w, arm.disc));
    if arm.Newtype? {
      Front(m.cells[..], at, n, arm.s.Size());
      CommitPatch(m, at, arm.s, q, true);
    }
    ghost var log := m.log;
    m.Put(tagAt, Store(w, arm.disc));
    PayloadThenTag(arm, body, m.start, log, m.log, |old(m.log)|, at, n, tagAt, w.width);
  }

  /** The payload step of a patch: the same-variant or switch decision is taken again, from the live tag. */
  method CommitPatchPayload(m: Buffer, at: nat, n: nat, arm: Arm, q: Patch, ghost body: Value, tagAt: nat, w: Wire,
                            init: bool)
    requires m.Valid() && at + n <= m.cells.Length && tagAt + w.width <= m.cells.Length
    requires at + n <= tagAt || tagAt + w.width <= at
    requires ReadyArm(arm, init || Load(w.order, m.cells[..][tagAt..tagAt + w.width]) != arm.disc, Span(m, at, n), q,
      body)
    modifies m, m.cells
    ensures m.Valid() && m.cells[..] == AfterPayload(old(m.cells[..]), at, n, arm, body, tagAt, w, init)
    ensures old(m.log) <= m.log
    ensures PayloadTrace(m.start, m.log, |old(m.log)|, at, n, tagAt, w.width)
    ensures arm.Newtype? ==> Published(arm.s, body, at, m.start, m.log, |old(m.log)|)
    decreases arm, 1
  {
    hide Splice, Replay, Store, Load, Encode, Wf, Fits, Valid, Published, Ready, Apply;
    ghost var c0 := m.cells[..];
    if init || Load(w.order, m.cells[..][tagAt..tagAt + w.width]) != arm.disc {
      PatchBeforeTag(m, at, n, arm, q, body, tagAt, w);
    } else if arm.Newtype? {
      Front(c0, at, n, arm.s.Size());
      CommitPatch(m, at, arm.s, q, false);
    } else {
      SpliceSelf(c0, at, 0);
    }
  }

  method CommitPatchKidPayload(m: Buffer, at: nat, s: Schema, q: Patch, init: bool, i: nat,
                               ghost v: Value, ghost c0: seq<Byte>, ghost b0: seq<Byte>, ghost b: seq<Byte>)
    returns (ghost b': seq<Byte>)
    requires m.Valid() && Wf(s) && s.Record? && Fits(s, v) && |b0| == s.Size() && at + s.Size() <= |c0|
    requires i < s.Count() && s.KindOf(i).Payload? && Stage(s, b0, Encode(s, b0, v), b, i) && q.Choose?
    requires m.cells[..] == Splice(c0, at, b) && WfKind(s.KindOf(i)) && Room(s.KindOf(i), s.Len(i))
    requires ReadyKind(s.KindOf(i), init, Tag(s, b0, i), Part(s, b0, i), q)
    requires v.kids[i] == ApplyKind(s.KindOf(i), LiveKind(s.KindOf(i), init, Tag(s, b0, i), Part(s, b0, i)), q)
    modifies m, m.cells
    ensures m.Valid() && Stage(s, b0, Encode(s, b0, v), b', i + 1) && m.cells[..] == Splice(c0, at, b')
    ensures old(m.log) <= m.log && Inside(m.log, |old(m.log)|, at, at + s.Size())
    ensures v.Node? && i < |v.kids| && PublishedKid(s, v.kids[i], at, i, m.start, m.log, |old(m.log)|)
    ensures Only(s, at, m.log, |old(m.log)|, i)
    decreases s, 0, 0
  {
    hide Wf, WfKind, Fits, Valid, ValidKind, Encode, Splice, Replay, AfterPayload, Load, Tag, Stage, Room, Store,
      ReadyKind, ApplyKind, LiveKind, ReadyArm, First, Published, Only;
    WfKid(s, i);
    b' := PayloadStage(s, v, init, i, c0, at, b0, b);
    ReadyPayload(s.KindOf(i), init, Tag(s, b0, i), Part(s, b0, i), q);
    var arm, tagAt := s.fields[i].kind.arms[q.pick], at + s.Off(s.KindOf(i).tag);
    CommitPatchPayload(m, at + s.Off(i), s.Len(i), arm, q.p, v.kids[i].body, tagAt, TagWire(s, i), init);
    PayloadPublished(s, v, at, i, m.start, m.log, |old(m.log)|);
  }
}
