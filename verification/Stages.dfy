/** How far a declaration-order commit has come: which children already hold their final bytes. */
module Stages {
  import opened Bytes
  import opened Schemas
  import opened Codec

  /** After the first `i` children, child `k` is done. A tag is done with its payload. */
  predicate Done(s: Schema, k: nat, i: nat) {
    if IsTag(s, k) then Payer(s.fields, k) < i else k < i
  }

  /** `b` is the span on its way from `b0` to `full`, with the first `i` children committed. */
  ghost predicate Stage(s: Schema, b0: seq<Byte>, full: seq<Byte>, b: seq<Byte>, i: nat) {
    && s.Framed() && |b0| == |full| == |b| == s.Size() && i <= s.Count()
    && (forall k :: 0 <= k < s.Count() ==> Part(s, b, k) == Part(s, if Done(s, k, i) then full else b0, k))
    && (forall j :: 0 <= j < |b| && Gap(s, j) ==> b[j] == b0[j] == full[j])
  }

  /** Overwriting the front of one child's storage. */
  lemma PartOver(s: Schema, b: seq<Byte>, k: nat, y: seq<Byte>)
    requires s.Framed() && |b| == s.Size() && k < s.Count() && |y| <= s.Len(k)
    ensures var r := Splice(b, s.Off(k), y);
      && (forall j :: 0 <= j < s.Count() ==> Part(s, r, j) == if j == k then Over(Part(s, b, k), y) else Part(s, b, j))
      && (forall i :: 0 <= i < |b| && Gap(s, i) ==> r[i] == b[i])
  {
    var x := Over(Part(s, b, k), y);
    assert Splice(b, s.Off(k), y) == Splice(b, s.Off(k), x);
    PartSplice(s, b, k, x);
  }

  lemma StageStart(s: Schema, b0: seq<Byte>, full: seq<Byte>)
    requires s.Framed() && |b0| == |full| == s.Size() && forall j :: 0 <= j < |b0| && Gap(s, j) ==> b0[j] == full[j]
    ensures Stage(s, b0, full, b0, 0)
  {}

  lemma StageSize(s: Schema, b0: seq<Byte>, full: seq<Byte>, b: seq<Byte>, i: nat)
    requires Stage(s, b0, full, b, i)
    ensures |b| == s.Size()
  {}

  lemma StageEnd(s: Schema, b0: seq<Byte>, full: seq<Byte>, b: seq<Byte>)
    requires Stage(s, b0, full, b, s.Count())
    ensures b == full
  {
    SameParts(s, b, full);
  }

  /** A tag sibling has no step of its own. */
  lemma StageSkip(s: Schema, b0: seq<Byte>, full: seq<Byte>, b: seq<Byte>, i: nat)
    requires Wf(s) && Stage(s, b0, full, b, i) && i < s.Count() && IsTag(s, i)
    ensures Stage(s, b0, full, b, i + 1)
  {
    PayerOf(s, Payer(s.fields, i));
  }

  /** Committing an ordinary child. */
  lemma StageOwn(s: Schema, b0: seq<Byte>, full: seq<Byte>, b: seq<Byte>, i: nat, y: seq<Byte>)
    requires Wf(s) && Stage(s, b0, full, b, i) && i < s.Count() && !IsTag(s, i) && !s.KindOf(i).Payload?
    requires |y| <= s.Len(i) && Over(Part(s, b0, i), y) == Part(s, full, i)
    ensures Part(s, b, i) == Part(s, b0, i)
    ensures Stage(s, b0, full, Splice(b, s.Off(i), y), i + 1)
  {
    hide Part, Splice, Over, Gap, Wf;
    PartOver(s, b, i, y);
  }

  /** Committing a payload whose tag keeps its bytes. */
  lemma StageSame(s: Schema, b0: seq<Byte>, full: seq<Byte>, b: seq<Byte>, i: nat, y: seq<Byte>)
    requires Wf(s) && Stage(s, b0, full, b, i) && i < s.Count() && s.KindOf(i).Payload? && s.KindOf(i).tag < s.Count()
    requires |y| <= s.Len(i) && Over(Part(s, b0, i), y) == Part(s, full, i)
    requires Part(s, full, s.KindOf(i).tag) == Part(s, b0, s.KindOf(i).tag)
    ensures Stage(s, b0, full, Splice(b, s.Off(i), y), i + 1)
  {
    hide Part, Splice, Over, Gap, Wf;
    PayerOf(s, i);
    PartOver(s, b, i, y);
  }

  /** Committing a payload, then its tag. */
  lemma StageSwitch(s: Schema, b0: seq<Byte>, full: seq<Byte>, b: seq<Byte>, i: nat, y: seq<Byte>, z: seq<Byte>)
    requires Wf(s) && Stage(s, b0, full, b, i) && i < s.Count() && s.KindOf(i).Payload? && s.KindOf(i).tag < s.Count()
    requires |y| <= s.Len(i) && Over(Part(s, b0, i), y) == Part(s, full, i)
    requires |z| <= s.Len(s.KindOf(i).tag) && Over(Part(s, b0, s.KindOf(i).tag), z) == Part(s, full, s.KindOf(i).tag)
    ensures Stage(s, b0, full, Splice(Splice(b, s.Off(i), y), s.Off(s.KindOf(i).tag), z), i + 1)
  {
    hide Part, Splice, Over, Gap, Wf;
    PayerOf(s, i);
    PartOver(s, b, i, y);
    PartOver(s, Splice(b, s.Off(i), y), s.KindOf(i).tag, z);
  }

  /** Until its payload is committed a tag still reads as it did before the commit, although
      earlier children were already written: the variant decision of the commit is the one of the
      preflight. */
  lemma TagUntouched(s: Schema, b0: seq<Byte>, full: seq<Byte>, b: seq<Byte>, i: nat)
    requires Wf(s) && Stage(s, b0, full, b, i) && i < s.Count() && s.KindOf(i).Payload?
    ensures |b| == s.Size()
    ensures s.KindOf(i).tag < s.Count() && Part(s, b, s.KindOf(i).tag) == Part(s, b0, s.KindOf(i).tag)
    ensures Part(s, b, i) == Part(s, b0, i)
    ensures Tag(s, b, i) == Tag(s, b0, i)
  {
    PayerOf(s, i);
  }
}
