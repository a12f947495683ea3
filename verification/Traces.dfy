/** What the order of stores guarantees while a commit is under way: no byte of a tag is stored before
    the payload it selects has its final bytes, for every union of the committed value. */
module Traces {
  import opened Bytes
  import opened Schemas
  import opened Codec
  import opened Buffers
  import opened Stages

  /** The stores with indices in `[from, to)` stay out of `[lo, hi)`. */
  predicate Quiet(log: seq<Write>, from: nat, to: nat, lo: nat, hi: nat)
    requires to <= |log|
  {
    forall i :: from <= i < to ==> log[i].at < lo || hi <= log[i].at
  }

  /** Once any byte of `[tlo, thi)` is stored, `[lo, hi)` holds its final bytes: in every prefix of the
      stores, counting tag stores from `from` on. */
  ghost predicate First(start: seq<Byte>, log: seq<Write>, from: nat, lo: nat, hi: nat, tlo: nat, thi: nat)
    requires lo <= hi <= |start|
  {
    forall n, j :: from <= j < n <= |log| && tlo <= log[j].at < thi ==>
      Replay(start, log[..n])[lo..hi] == Replay(start, log)[lo..hi]
  }

  /** Payload stores followed by tag stores publish the payload first. */
  lemma OrderPublishes(start: seq<Byte>, log: seq<Write>, from: nat, split: nat, lo: nat, hi: nat, tlo: nat, thi: nat)
    requires lo <= hi <= |start| && from <= split <= |log| && (hi <= tlo || thi <= lo)
    requires (forall i :: from <= i < split ==> lo <= log[i].at < hi) && Inside(log, split, tlo, thi)
    ensures First(start, log, from, lo, hi, tlo, thi)
  {
    forall n, j | from <= j < n <= |log| && tlo <= log[j].at < thi
      ensures Replay(start, log[..n])[lo..hi] == Replay(start, log)[lo..hi]
    {
      ReplayAside(start, log, n, lo, hi);
    }
  }

  /** Stores elsewhere, before and after, keep the order. */
  lemma FirstExtend(start: seq<Byte>, log: seq<Write>, more: seq<Write>, early: nat, from: nat,
                    lo: nat, hi: nat, tlo: nat, thi: nat)
    requires lo <= hi <= |start| && log <= more && early <= from <= |log| && First(start, log, from, lo, hi, tlo, thi)
    requires Quiet(more, early, from, tlo, thi) && Quiet(more, |log|, |more|, tlo, thi) &&
      Quiet(more, |log|, |more|, lo, hi)
    ensures First(start, more, early, lo, hi, tlo, thi)
  {
    hide Replay;
    forall n, j | early <= j < n <= |more| && tlo <= more[j].at < thi
      ensures Replay(start, more[..n])[lo..hi] == Replay(start, more)[lo..hi]
    {
      assert from <= j < |log| && log[j] == more[j];
      assert more[..|log|] == log;
      ReplayAside(start, more, |log|, lo, hi);
      if n <= |log| {
        assert more[..n] == log[..n];
      } else {
        assert more[..n][..|log|] == log;
        ReplayAside(start, more[..n], |log|, lo, hi);
        assert log[..|log|] == log;
      }
    }
  }

  // ----- every union of a committed value -----

  /** In the record at `at`, payload `k` is published before its tag. */
  ghost predicate TagLast(s: Schema, at: nat, k: nat, start: seq<Byte>, log: seq<Write>, from: nat)
    requires k < s.Count() && s.KindOf(k).Payload?
  {
    var t := s.KindOf(k).tag;
    && t < s.Count() && at + s.Off(k) + s.Len(k) <= |start|
    && First(start, log, from, at + s.Off(k), at + s.Off(k) + s.Len(k), at + s.Off(t), at + s.Off(t) + s.Len(t))
  }

  /** The same for every payload of the value `v` of the span at `at`, at every depth: in nested records,
      elements, present options and selected variants. */
  ghost predicate Published(s: Schema, v: Value, at: nat, start: seq<Byte>, log: seq<Write>, from: nat)
    decreases s, 1
  {
    s.Atom? || !v.Node? ||
    forall k :: 0 <= k < s.Count() && k < |v.kids| ==> PublishedKid(s, v.kids[k], at, k, start, log, from)
  }

  ghost predicate PublishedKid(s: Schema, w: Value, at: nat, k: nat, start: seq<Byte>, log: seq<Write>, from: nat)
    requires k < s.Count()
    decreases s, 0
  {
    && (s.KindOf(k).Payload? ==> TagLast(s, at, k, start, log, from))
    && PublishedKind(s.KindOf(k), w, at + s.Off(k), start, log, from)
  }

  ghost predicate PublishedKind(kind: Kind, w: Value, at: nat, start: seq<Byte>, log: seq<Write>, from: nat)
    decreases kind, 0
  {
    match kind
    case Own(s) => Published(s, w, at, start, log, from)
    case Optional(s) => w.Just? ==> Published(s, w.w, at, start, log, from)
    case Payload(_, arms) =>
      w.Case? && w.pick < |arms| && arms[w.pick].Newtype? ==> Published(arms[w.pick].s, w.body, at, start, log, from)
  }

  /** Without a store in the span there is nothing to publish. */
  lemma {:induction false} PublishedQuiet(s: Schema, v: Value, at: nat, start: seq<Byte>, log: seq<Write>, from: nat)
    requires Wf(s) && at + s.Size() <= |start| && Quiet(log, from, |log|, at, at + s.Size())
    ensures Published(s, v, at, start, log, from)
    decreases s, 1
  {
    hide Wf, WfKind, Replay;
    if !s.Atom? && v.Node? {
      forall k | 0 <= k < s.Count() && k < |v.kids| ensures PublishedKid(s, v.kids[k], at, k, start, log, from) {
        WfKid(s, k);
        if s.KindOf(k).Payload? { PayerOf(s, k); }
        PublishedKindQuiet(s.KindOf(k), v.kids[k], at + s.Off(k), s.Len(k), start, log, from);
      }
    }
  }

  lemma {:induction false} PublishedKindQuiet(kind: Kind, w: Value, at: nat, n: nat, start: seq<Byte>, log: seq<Write>,
                                              from: nat)
    requires WfKind(kind) && Room(kind, n) && at + n <= |start| && Quiet(log, from, |log|, at, at + n)
    ensures PublishedKind(kind, w, at, start, log, from)
    decreases kind, 0
  {
    match kind
    case Own(s) => PublishedQuiet(s, w, at, start, log, from);
    case Optional(s) => if w.Just? { PublishedQuiet(s, w.w, at, start, log, from); }
    case Payload(_, arms) =>
      if w.Case? && w.pick < |arms| && arms[w.pick].Newtype? {
        PublishedQuiet(arms[w.pick].s, w.body, at, start, log, from);
      }
  }

  /** Stores outside the span, before and after, keep everything published. */
  lemma {:induction false} PublishedExtend(s: Schema, v: Value, at: nat, start: seq<Byte>, log: seq<Write>,
                                           more: seq<Write>, early: nat, from: nat)
    requires Wf(s) && at + s.Size() <= |start| && log <= more && early <= from <= |log|
    requires Quiet(more, early, from, at, at + s.Size()) && Quiet(more, |log|, |more|, at, at + s.Size())
    requires Published(s, v, at, start, log, from)
    ensures Published(s, v, at, start, more, early)
    decreases s, 2
  {
    hide Wf, WfKind, Replay;
    if !s.Atom? && v.Node? {
      forall k | 0 <= k < s.Count() && k < |v.kids| ensures PublishedKid(s, v.kids[k], at, k, start, more, early) {
        WfKid(s, k);
        if s.KindOf(k).Payload? { PayerOf(s, k); }
        assert PublishedKid(s, v.kids[k], at, k, start, log, from);
        PublishedKidExtend(s, v.kids[k], at, k, start, log, more, early, from);
      }
    }
  }

  lemma {:induction false} PublishedKidExtend(s: Schema, w: Value, at: nat, k: nat, start: seq<Byte>, log: seq<Write>,
                                              more: seq<Write>, early: nat, from: nat)
    requires Wf(s) && at + s.Size() <= |start| && log <= more && early <= from <= |log| && k < s.Count()
    requires QuietKid(s, at, k, more, early, from) && QuietKid(s, at, k, more, |log|, |more|)
    requires PublishedKid(s, w, at, k, start, log, from)
    ensures PublishedKid(s, w, at, k, start, more, early)
    decreases s, 1
  {
    hide Wf, WfKind, Replay, First;
    WfKid(s, k);
    if s.KindOf(k).Payload? {
      PayerOf(s, k);
      var t := s.KindOf(k).tag;
      FirstExtend(start, log, more, early, from, at + s.Off(k), at + s.Off(k) + s.Len(k), at + s.Off(t),
        at + s.Off(t) + s.Len(t));
    }
    PublishedKindExtend(s.KindOf(k), w, at + s.Off(k), s.Len(k), start, log, more, early, from);
  }

  /** The stores in `[from, to)` stay out of child `k` and, for a payload, out of its tag. */
  predicate QuietKid(s: Schema, at: nat, k: nat, log: seq<Write>, from: nat, to: nat)
    requires k < s.Count() && to <= |log|
  {
    && Quiet(log, from, to, at + s.Off(k), at + s.Off(k) + s.Len(k))
    && (s.KindOf(k).Payload? && s.KindOf(k).tag < s.Count() ==>
          var t := s.KindOf(k).tag; Quiet(log, from, to, at + s.Off(t), at + s.Off(t) + s.Len(t)))
  }

  lemma {:induction false} PublishedKindExtend(kind: Kind, w: Value, at: nat, n: nat, start: seq<Byte>, log: seq<Write>,
                                               more: seq<Write>, early: nat, from: nat)
    requires WfKind(kind) && Room(kind, n) && at + n <= |start| && log <= more && early <= from <= |log|
    requires Quiet(more, early, from, at, at + n) && Quiet(more, |log|, |more|, at, at + n)
    requires PublishedKind(kind, w, at, start, log, from)
    ensures PublishedKind(kind, w, at, start, more, early)
    decreases kind, 0
  {
    match kind
    case Own(s) => PublishedExtend(s, w, at, start, log, more, early, from);
    case Optional(s) => if w.Just? { PublishedExtend(s, w.w, at, start, log, more, early, from); }
    case Payload(_, arms) =>
      if w.Case? && w.pick < |arms| && arms[w.pick].Newtype? {
        PublishedExtend(arms[w.pick].s, w.body, at, start, log, more, early, from);
      }
  }

  /** The stores from `from` on lie in the payload at `[at, at + n)` or in the tag of `w` bytes at `tagAt`,
      and publish the payload first. */
  ghost predicate PayloadTrace(start: seq<Byte>, log: seq<Write>, from: nat, at: nat, n: nat, tagAt: nat, w: nat)
    requires at + n <= |start|
  {
    && (forall i :: from <= i < |log| ==> at <= log[i].at < at + n || tagAt <= log[i].at < tagAt + w)
    && First(start, log, from, at, at + n, tagAt, tagAt + w)
  }

  /** A payload committed by `log`, then a tag stored by the rest of `more`. */
  lemma PayloadThenTag(arm: Arm, body: Value, start: seq<Byte>, log: seq<Write>, more: seq<Write>, from: nat,
                       at: nat, n: nat, tagAt: nat, w: nat)
    requires at + n <= |start| && (at + n <= tagAt || tagAt + w <= at) && from <= |log| && log <= more
    requires Inside(log, from, at, at + n) && Inside(more, |log|, tagAt, tagAt + w)
    requires arm.Newtype? ==> Wf(arm.s) && arm.s.Size() <= n && Published(arm.s, body, at, start, log, from)
    ensures PayloadTrace(start, more, from, at, n, tagAt, w)
    ensures arm.Newtype? ==> Published(arm.s, body, at, start, more, from)
  {
    hide Wf, Published, First;
    forall i | from <= i < |log| ensures at <= more[i].at < at + n { assert log[i] == more[i]; }
    OrderPublishes(start, more, from, |log|, at, at + n, tagAt, tagAt + w);
    if arm.Newtype? { PublishedExtend(arm.s, body, at, start, log, more, from, from); }
  }

  // ----- the steps of a record commit -----

  /** The stores from `from` on stay out of every child that is not done after `i` steps. */
  predicate Behind(s: Schema, at: nat, log: seq<Write>, from: nat, i: nat) {
    forall k :: 0 <= k < s.Count() && !Done(s, k, i) ==>
      Quiet(log, from, |log|, at + s.Off(k), at + s.Off(k) + s.Len(k))
  }

  /** The stores from `from` on are those of child `i`: in its storage and, for a payload, in its tag's. */
  predicate Only(s: Schema, at: nat, log: seq<Write>, from: nat, i: nat)
    requires i < s.Count()
  {
    forall k :: 0 <= k < s.Count() && k != i && !(s.KindOf(i).Payload? && k == s.KindOf(i).tag) ==>
      Quiet(log, from, |log|, at + s.Off(k), at + s.Off(k) + s.Len(k))
  }

  /** Stores inside one storage are in no other. */
  lemma OnlyOwn(s: Schema, at: nat, log: seq<Write>, from: nat, i: nat)
    requires s.Framed() && i < s.Count() && Inside(log, from, at + s.Off(i), at + s.Off(i) + s.Len(i))
    ensures Only(s, at, log, from, i)
  {
    hide Schema.Off, Schema.Len, Schema.Count, Schema.Size;
  }

  /** A finished step leaves the published children published, and adds its own. */
  lemma StepPublished(s: Schema, v: Value, at: nat, start: seq<Byte>, log: seq<Write>, more: seq<Write>, from: nat,
                      i: nat)
    requires Wf(s) && v.Node? && |v.kids| == s.Count() && at + s.Size() <= |start|
    requires i < s.Count() && !IsTag(s, i) && from <= |log| && log <= more
    requires forall k :: 0 <= k < i ==> PublishedKid(s, v.kids[k], at, k, start, log, from)
    requires Behind(s, at, log, from, i) && Only(s, at, more, |log|, i)
    requires PublishedKid(s, v.kids[i], at, i, start, more, |log|)
    ensures forall k :: 0 <= k <= i ==> PublishedKid(s, v.kids[k], at, k, start, more, from)
    ensures Behind(s, at, more, from, i + 1)
  {
    hide Wf, WfKind, PublishedKid, Schema.Off, Schema.Len;
    forall k | 0 <= k <= i ensures PublishedKid(s, v.kids[k], at, k, start, more, from) {
      if s.KindOf(k).Payload? { PayerOf(s, k); }
      if s.KindOf(i).Payload? { PayerOf(s, i); }
      if k == i {
        QuietBefore(s, at, log, more, from, i);
        PublishedKidExtend(s, v.kids[i], at, i, start, more, more, from, |log|);
      } else if IsTag(s, k) {
        PublishedTag(s, v.kids[k], at, k, start, more, from);
      } else {
        PublishedKidExtend(s, v.kids[k], at, k, start, log, more, from, from);
      }
    }
    BehindStep(s, at, log, more, from, i);
  }

  lemma QuietBefore(s: Schema, at: nat, log: seq<Write>, more: seq<Write>, from: nat, i: nat)
    requires Wf(s) && i < s.Count() && !IsTag(s, i) && from <= |log| && log <= more && Behind(s, at, log, from, i)
    ensures QuietKid(s, at, i, more, from, |log|)
  {
    hide Wf, WfKind, Schema.Off, Schema.Len;
    if s.KindOf(i).Payload? { PayerOf(s, i); }
  }

  lemma BehindStep(s: Schema, at: nat, log: seq<Write>, more: seq<Write>, from: nat, i: nat)
    requires Wf(s) && i < s.Count() && !IsTag(s, i) && from <= |log| && log <= more
    requires Behind(s, at, log, from, i) && Only(s, at, more, |log|, i)
    ensures Behind(s, at, more, from, i + 1)
  {
    hide Wf, WfKind, Schema.Off, Schema.Len;
    if s.KindOf(i).Payload? { PayerOf(s, i); }
  }

  lemma BehindStart(s: Schema, at: nat, log: seq<Write>)
    ensures Behind(s, at, log, |log|, 0)
  {}

  /** A tag sibling has no step of its own. */
  lemma SkipPublished(s: Schema, v: Value, at: nat, start: seq<Byte>, log: seq<Write>, from: nat, i: nat)
    requires Wf(s) && v.Node? && |v.kids| == s.Count() && i < s.Count() && IsTag(s, i)
    requires forall k :: 0 <= k < i ==> PublishedKid(s, v.kids[k], at, k, start, log, from)
    requires Behind(s, at, log, from, i)
    ensures forall k :: 0 <= k <= i ==> PublishedKid(s, v.kids[k], at, k, start, log, from)
    ensures Behind(s, at, log, from, i + 1)
  {
    hide Wf, PublishedKid;
    PublishedTag(s, v.kids[i], at, i, start, log, from);
    BehindSkip(s, at, log, from, i);
  }

  /** What is not done after a step was not done before it. */
  lemma BehindSkip(s: Schema, at: nat, log: seq<Write>, from: nat, i: nat)
    requires Behind(s, at, log, from, i)
    ensures Behind(s, at, log, from, i + 1)
  {
    forall k | 0 <= k < s.Count() && !Done(s, k, i + 1)
      ensures Quiet(log, from, |log|, at + s.Off(k), at + s.Off(k) + s.Len(k))
    {
      assert !Done(s, k, i);
    }
  }

  /** A tag has no payload of its own. */
  lemma PublishedTag(s: Schema, w: Value, at: nat, t: nat, start: seq<Byte>, log: seq<Write>, from: nat)
    requires Wf(s) && t < s.Count() && IsTag(s, t)
    ensures PublishedKid(s, w, at, t, start, log, from)
  {
    PayerOf(s, Payer(s.fields, t));
  }

  /** What `TagLast` means to a reader of the buffer half-way through, when it holds `now`: as soon as any
      byte of the tag has been stored, the payload storage is already valid for the variant that the final
      tag, in `end`, selects. */
  lemma TagSeesPayload(s: Schema, at: nat, k: nat, start: seq<Byte>, log: seq<Write>, from: nat, n: nat, j: nat,
                       now: seq<Byte>, end: seq<Byte>)
    requires Wf(s) && at + s.Size() <= |start| && k < s.Count() && s.KindOf(k).Payload?
    requires TagLast(s, at, k, start, log, from) && from <= j < n <= |log|
    requires at + s.Off(s.KindOf(k).tag) <= log[j].at < at + s.Off(s.KindOf(k).tag) + s.Len(s.KindOf(k).tag)
    requires now == Replay(start, log[..n]) && end == Replay(start, log) && Valid(s, end[at..at + s.Size()])
    ensures WfKind(s.KindOf(k)) && Room(s.KindOf(k), s.Len(k)) && at + s.Off(k) + s.Len(k) <= |now|
    ensures ValidKind(s.KindOf(k), Tag(s, end[at..at + s.Size()], k), now[at + s.Off(k)..at + s.Off(k) + s.Len(k)])
  {
    hide *;
    ValidPart(s, end, at, k);
    PayloadFinal(s, at, k, start, log, from, n, j);
  }

  lemma PayloadFinal(s: Schema, at: nat, k: nat, start: seq<Byte>, log: seq<Write>, from: nat, n: nat, j: nat)
    requires k < s.Count() && s.KindOf(k).Payload? && TagLast(s, at, k, start, log, from) && from <= j < n <= |log|
    requires at + s.Off(s.KindOf(k).tag) <= log[j].at < at + s.Off(s.KindOf(k).tag) + s.Len(s.KindOf(k).tag)
    ensures at + s.Off(k) + s.Len(k) <= |start|
    ensures Replay(start, log[..n])[at + s.Off(k)..at + s.Off(k) + s.Len(k)]
      == Replay(start, log)[at + s.Off(k)..at + s.Off(k) + s.Len(k)]
  {
    hide Replay, Schema.Off, Schema.Len;
  }

  lemma ValidPart(s: Schema, c: seq<Byte>, at: nat, k: nat)
    requires Wf(s) && at + s.Size() <= |c| && k < s.Count() && Valid(s, c[at..at + s.Size()])
    ensures WfKind(s.KindOf(k)) && Room(s.KindOf(k), s.Len(k)) && at + s.Off(k) + s.Len(k) <= |c|
    ensures ValidKind(s.KindOf(k), Tag(s, c[at..at + s.Size()], k), c[at + s.Off(k)..at + s.Off(k) + s.Len(k)])
  {
    hide *;
    KidBounds(s, k);
    PartAt(s, c, at, k);
    KidDecoded(s, c[at..at + s.Size()], k);
  }

  lemma KidBounds(s: Schema, k: nat)
    requires Wf(s) && k < s.Count()
    ensures !s.Atom? && s.Framed() && s.Off(k) + s.Len(k) <= s.Size()
  {
    WfKid(s, k);
  }

  lemma PartAt(s: Schema, c: seq<Byte>, at: nat, k: nat)
    requires s.Framed() && at + s.Size() <= |c| && k < s.Count() && s.Off(k) + s.Len(k) <= s.Size()
    ensures Part(s, c[at..at + s.Size()], k) == c[at + s.Off(k)..at + s.Off(k) + s.Len(k)]
  {
    hide Schema.Off, Schema.Len, Schema.Size, Schema.Framed;
    Slices(c, at, s.Size(), s.Off(k), s.Len(k));
  }
}
